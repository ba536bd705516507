/** The terminal as the quiz engine sees it: the lines the user will type, in
    order. `input()` takes the next one; at the end of the stream Python
    raises EOFError, which this model reports as `None`. */
module Terminal {
  import opened Wrappers

  /** The index of the first reply satisfying `accept`, which is where a
      re-prompt loop "ask again until the reply is acceptable" stops;
      `FirstMatchCases` states that it is the first. */
  function FirstMatch(replies: seq<string>, accept: string -> bool): (r: Option<nat>)
    ensures r.Some? ==> r.value < |replies| && accept(replies[r.value])
  {
    if replies == [] then None
    else if accept(replies[0]) then Some(0)
    else match FirstMatch(replies[1..], accept)
      case None => None
      case Some(i) => Some(i + 1)
  }

  class Console {
    /** The replies not read yet. */
    var replies: seq<string>

    constructor (replies: seq<string>)
      ensures this.replies == replies
    {
      this.replies := replies;
    }

    /** `input()`: the next reply, or `None` at the end of the stream. */
    method Input() returns (line: Option<string>)
      modifies this
      ensures old(replies) == [] ==> line == None && replies == []
      ensures old(replies) != [] ==> line == Some(old(replies)[0]) && replies == old(replies)[1..]
    {
      if replies == [] {
        line := None;
      } else {
        line := Some(replies[0]);
        replies := replies[1..];
      }
    }

    /** `input()` repeated until a reply satisfies `accept`: that reply, with
        every reply up to it consumed, or `None` once the stream runs out. */
    method InputUntil(accept: string -> bool) returns (line: Option<string>)
      modifies this
      ensures match FirstMatch(old(replies), accept)
        case None => line == None && replies == []
        case Some(i) => line == Some(old(replies)[i]) && replies == old(replies)[i + 1..]
    {
      ghost var consumed: nat := 0;
      line := Input();
      while line.Some? && !accept(line.value)
        invariant consumed < |old(replies)| + 1
        invariant line.Some? ==> consumed < |old(replies)| && line.value == old(replies)[consumed]
        invariant line.Some? ==> replies == old(replies)[consumed + 1..]
        invariant line.None? ==> replies == [] && consumed == |old(replies)|
        invariant forall k :: 0 <= k < consumed ==> !accept(old(replies)[k])
        decreases |replies| + (if line.Some? then 1 else 0)
      {
        consumed := consumed + 1;
        line := Input();
      }
      ghost var was := old(replies);
      if line.None? {
        FirstMatchCases(was, accept);
      } else {
        FirstMatchAt(was, accept, consumed);
      }
    }
  }

  /** No reply before the first match is acceptable, and there is no match
      exactly when no reply is acceptable. */
  lemma {:induction false} FirstMatchCases(replies: seq<string>, accept: string -> bool)
    ensures var r := FirstMatch(replies, accept);
      && (r.Some? ==> forall k :: 0 <= k < r.value ==> !accept(replies[k]))
      && (r.None? <==> forall k :: 0 <= k < |replies| ==> !accept(replies[k]))
  {
    if replies != [] && !accept(replies[0]) {
      var tail := replies[1..];
      FirstMatchCases(tail, accept);
      assert forall k :: 1 <= k < |replies| ==> replies[k] == tail[k - 1];
    }
  }

  /** The first acceptable reply is the match. */
  lemma FirstMatchAt(replies: seq<string>, accept: string -> bool, i: nat)
    requires i < |replies| && accept(replies[i])
    requires forall k :: 0 <= k < i ==> !accept(replies[k])
    ensures FirstMatch(replies, accept) == Some(i)
  {
    FirstMatchCases(replies, accept);
  }
}
