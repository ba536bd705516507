/** What the configuration prompts of a quiz settle on, as functions of the
    replies the user types. Each prompt reads the replies from a position
    `from` on and says how many it read, so that the next prompt can start
    after them. */
module Intake {
  import opened Wrappers
  import opened PyText
  import opened Terminal

  /** The value a group of prompts settled on and the number of replies read. */
  datatype Prompted<T> = Prompted(value: T, consumed: nat)

  /** The settings a quiz is configured with. */
  datatype Settings = Settings(
    questionsPerQuiz: int,
    rangeSelection: Option<string>,
    showAnswerImmediately: string,
    inOrder: bool)

  // ----- question count -----

  /** The question count read against `n` cards: replies are parsed with
      `int()` while the number is above `n`; the first reply that does not
      parse, or the end of the input, gives `n` instead. */
  function CountIntake(replies: seq<string>, from: nat, n: nat): (r: Prompted<int>)
    requires from <= |replies|
    ensures r.value <= n && from + r.consumed <= |replies|
    decreases |replies| - from
  {
    if from == |replies| then Prompted(n, 0)
    else match ParseInt(replies[from])
      case None => Prompted(n, 1)
      case Some(v) =>
        if v <= n then Prompted(v, 1)
        else
          var rest := CountIntake(replies, from + 1, n);
          Prompted(rest.value, rest.consumed + 1)
  }

  /** The question count, case by case: every reply before the last one read
      was a number above `n`; the last one read is either a number up to `n`,
      which becomes the count, or something `int()` rejects; running out of
      replies also yields `n`. */
  lemma {:induction false} CountIntakeCases(replies: seq<string>, from: nat, n: nat)
    requires from <= |replies|
    ensures var r := CountIntake(replies, from, n);
      && (forall k :: from <= k < from + r.consumed - 1 ==> TooLarge(replies[k], n))
      && (r.consumed == 0 ==> from == |replies| && r.value == n)
      && (r.consumed > 0 ==> LastCountReply(replies[from + r.consumed - 1], n, r.value, from + r.consumed == |replies|))
    decreases |replies| - from
  {
    if from < |replies| {
      var p := ParseInt(replies[from]);
      if p.Some? && p.value > n {
        var rest := CountIntake(replies, from + 1, n);
        assert CountIntake(replies, from, n) == Prompted(rest.value, rest.consumed + 1);
        CountIntakeCases(replies, from + 1, n);
        assert TooLarge(replies[from], n);
      }
    }
  }

  /** A reply `int()` reads as a number above `n`, which asks again. */
  predicate TooLarge(reply: string, n: nat) {
    var p := ParseInt(reply); p.Some? && p.value > n
  }

  /** The last reply the count prompts read, and the count it leaves: a
      number up to `n` becomes the count; a reply `int()` rejects gives `n`;
      a number above `n` gives `n` only because the input ran out after it. */
  predicate LastCountReply(reply: string, n: nat, count: int, exhausted: bool) {
    match ParseInt(reply)
    case None => count == n
    case Some(v) => if v <= n then count == v else count == n && exhausted
  }

  /** A reply that `int()` rejects, anywhere among the replies read, makes the
      question count the number of cards. */
  lemma CountIntakeDefaultsOnParseFailure(replies: seq<string>, n: nat, k: nat)
    requires k < CountIntake(replies, 0, n).consumed && ParseInt(replies[k]).None?
    ensures CountIntake(replies, 0, n).value == n
  {
    CountIntakeCases(replies, 0, n);
    var r := CountIntake(replies, 0, n);
    if k == r.consumed - 1 {
      assert LastCountReply(replies[k], n, r.value, r.consumed == |replies|);
    }
  }

  /** A number with more digits than `int()` converts is not re-asked as too
      large: `int()` rejects it, so the count is the number of cards, after
      that one reply. */
  lemma CountIntakeRejectsLongNumbers(replies: seq<string>, from: nat, n: nat)
    requires from < |replies| && |replies[from]| > MaxStrDigits
    requires forall i :: 0 <= i < |replies[from]| ==> IsDigit(replies[from][i])
    ensures CountIntake(replies, from, n) == Prompted(n, 1)
  {
    var d := replies[from];
    AllDigitsWellFormed(d);
    DigitCountOfDigits(d);
    ParseIntOfDigits(d);
  }

  /** The count is only bounded above: a reply that `int()` reads as 0 or
      a negative number, such as one written the way Python prints it, is
      taken as it is. */
  lemma CountIntakeAcceptsNonPositive(replies: seq<string>, from: nat, n: nat, v: int)
    requires from < |replies| && v <= 0
    ensures ParseInt(replies[from]) == Some(v) ==> CountIntake(replies, from, n) == Prompted(v, 1)
    ensures replies[from] == IntToString(v) && |NatToString(-v)| <= MaxStrDigits ==>
      CountIntake(replies, from, n) == Prompted(v, 1)
  {
    ParseIntOfIntToString(v);
  }

  /** The count prompt is asked again after every number above `n`: after a
      run of such replies up to position `j`, the reply at `j` decides, a
      number up to `n` being the count and anything `int()` rejects giving
      `n`; running out of replies at `j` gives `n` too. */
  lemma {:induction false} CountIntakeReasksWhileTooLarge(replies: seq<string>, from: nat, j: nat, n: nat)
    requires from <= j <= |replies|
    requires forall k :: from <= k < j ==> TooLarge(replies[k], n)
    requires j < |replies| ==> !TooLarge(replies[j], n)
    ensures j == |replies| ==> CountIntake(replies, from, n) == Prompted(n, j - from)
    ensures j < |replies| ==>
      CountIntake(replies, from, n) == Prompted(if ParseInt(replies[j]).Some? then ParseInt(replies[j]).value else n, j - from + 1)
    decreases j - from
  {
    if from < j {
      assert TooLarge(replies[from], n);
      CountIntakeReasksWhileTooLarge(replies, from + 1, j, n);
    }
  }

  // ----- range -----

  /** The optional range prompt: a first reply whose lower-case form is "y"
      leads to a second prompt whose raw reply is kept; anything else means
      no range. `None` when the input runs out. */
  function RangeIntake(replies: seq<string>, from: nat): (r: Option<Prompted<Option<string>>>)
    requires from <= |replies|
    ensures r.Some? ==> 0 < r.value.consumed && from + r.value.consumed <= |replies|
  {
    if from == |replies| then None
    else if Lower(replies[from]) != "y" then Some(Prompted(None, 1))
    else if from + 1 == |replies| then None
    else Some(Prompted(Some(replies[from + 1]), 2))
  }

  /** A range is selected exactly when the first reply is "y" or "Y", and it
      is then the second reply, whatever it says. */
  lemma RangeIntakeCases(replies: seq<string>, from: nat)
    requires from <= |replies|
    ensures var r := RangeIntake(replies, from);
      && (r.None? <==> from == |replies| || (from + 1 == |replies| && (replies[from] == "y" || replies[from] == "Y")))
      && (r.Some? && r.value.value.Some? <==> from + 2 <= |replies| && (replies[from] == "y" || replies[from] == "Y"))
      && (r.Some? && r.value.value.Some? ==> r.value.value.value == replies[from + 1] && r.value.consumed == 2)
      && (r.Some? && r.value.value.None? ==> r.value.consumed == 1)
  {
    if from < |replies| { LowerIsLetter(replies[from], 'y'); }
  }

  // ----- immediate reveal -----

  predicate IsYesNo(s: string) {
    Lower(s) == "y" || Lower(s) == "n"
  }

  /** The reveal prompt: an empty first reply means "y"; otherwise the reply
      is lower-cased and the user is asked again, with no default, until a
      reply lower-cases to "y" or "n". `None` when the input runs out. */
  function RevealIntake(replies: seq<string>, from: nat): (r: Option<Prompted<string>>)
    requires from <= |replies|
    ensures r.Some? ==> 0 < r.value.consumed && from + r.value.consumed <= |replies|
  {
    if from == |replies| then None
    else
      var first := Lower(if replies[from] == "" then "y" else replies[from]);
      if first == "y" || first == "n" then Some(Prompted(first, 1))
      else match FirstMatch(replies[from + 1..], IsYesNo)
        case None => None
        case Some(i) => Some(Prompted(Lower(replies[from + 1 + i]), i + 2))
  }

  /** The reveal flag is always "y" or "n"; it is the lower-case form of the
      last reply read, or "y" for an empty first reply; no reply before the
      last one was acceptable; and the input runs out only when no reply
      after the first is acceptable. */
  lemma RevealIntakeCases(replies: seq<string>, from: nat)
    requires from <= |replies|
    ensures var r := RevealIntake(replies, from);
      && (r.Some? ==> r.value.value == "y" || r.value.value == "n")
      && (from < |replies| && replies[from] == "" ==> r == Some(Prompted("y", 1)))
      && (from < |replies| && IsYesNo(replies[from]) ==> r == Some(Prompted(Lower(replies[from]), 1)))
      && (r.Some? && r.value.consumed > 1 ==>
            && r.value.value == Lower(replies[from + r.value.consumed - 1])
            && replies[from] != "" && !IsYesNo(replies[from])
            && forall k :: from + 1 <= k < from + r.value.consumed - 1 ==> !IsYesNo(replies[k]))
      && (r.None? <==>
            || from == |replies|
            || (replies[from] != "" && !IsYesNo(replies[from]) && forall k :: from < k < |replies| ==> !IsYesNo(replies[k])))
  {
    if from < |replies| {
      var tail := replies[from + 1..];
      assert Lower("y") == "y";
      if replies[from] != "" && !IsYesNo(replies[from]) {
        FirstMatchCases(tail, IsYesNo);
        match FirstMatch(tail, IsYesNo)
        case None =>
          assert forall k :: from < k < |replies| ==> replies[k] == tail[k - from - 1];
        case Some(i) =>
          assert forall k :: from + 1 <= k < from + 1 + i ==> replies[k] == tail[k - from - 1];
          assert tail[i] == replies[from + 1 + i];
      }
    }
  }

  /** The reply that settles the reveal flag is read case-insensitively:
      "Y" and "y" both give "y", "N" and "n" both give "n". */
  lemma RevealIntakeCaseInsensitive(reply: string, rest: seq<string>)
    ensures reply == "y" || reply == "Y" ==> RevealIntake([reply] + rest, 0) == Some(Prompted("y", 1))
    ensures reply == "n" || reply == "N" ==> RevealIntake([reply] + rest, 0) == Some(Prompted("n", 1))
  {
    LowerIsLetter(reply, 'y');
    LowerIsLetter(reply, 'n');
  }

  /** Only the first reply defaults: once it is neither empty nor "y" or
      "n" in either case, the reply that settles the flag comes later and
      is itself "y" or "n" in either case, so an empty reply after the first
      is asked about again rather than read as "y". */
  lemma RevealIntakeDefaultsOnlyFirst(replies: seq<string>, from: nat)
    requires from < |replies| && replies[from] != "" && !IsYesNo(replies[from])
    ensures var r := RevealIntake(replies, from);
      r.Some? ==> && r.value.consumed > 1
                  && IsYesNo(replies[from + r.value.consumed - 1])
                  && replies[from + r.value.consumed - 1] != ""
  {
    assert Lower("") == "";
    var tail := replies[from + 1..];
    match FirstMatch(tail, IsYesNo)
    case None =>
    case Some(i) =>
      assert tail[i] == replies[from + 1 + i];
  }

  // ----- order -----

  /** The order prompt: the questions stay in order exactly when the reply
      lower-cases to "y". `None` when the input runs out. */
  function OrderIntake(replies: seq<string>, from: nat): (r: Option<Prompted<bool>>)
    requires from <= |replies|
    ensures r.Some? ==> r.value.consumed == 1 && from < |replies|
  {
    if from == |replies| then None else Some(Prompted(Lower(replies[from]) == "y", 1))
  }

  /** Only "y" and "Y" keep the order; every other reply, the empty one
      included, shuffles. */
  lemma OrderIntakeCases(replies: seq<string>, from: nat)
    requires from < |replies|
    ensures OrderIntake(replies, from) == Some(Prompted(replies[from] == "y" || replies[from] == "Y", 1))
  {
    LowerIsLetter(replies[from], 'y');
  }

  // ----- all settings -----

  /** The replies read while a quiz is set up, in the order the prompts come:
      question count, range, reveal flag, order. */
  function ConfigIntake(replies: seq<string>, n: nat): (r: Option<Prompted<Settings>>)
    ensures r.Some? ==> r.value.consumed <= |replies|
  {
    var count := CountIntake(replies, 0, n);
    var a := count.consumed;
    match RangeIntake(replies, a)
    case None => None
    case Some(range) =>
      var b := range.consumed;
      match RevealIntake(replies, a + b)
      case None => None
      case Some(shown) =>
        var c := shown.consumed;
        match OrderIntake(replies, a + b + c)
        case None => None
        case Some(order) =>
          Some(Prompted(Settings(count.value, range.value, shown.value, order.value), a + b + c + order.consumed))
  }

  /** The settings are those the four prompts read one after the other,
      each from where the previous one stopped. */
  lemma {:induction false} ConfigIntakeOf(replies: seq<string>, n: nat, count: Prompted<int>, range: Prompted<Option<string>>,
                       shown: Prompted<string>, order: Prompted<bool>)
    requires CountIntake(replies, 0, n) == count
    requires RangeIntake(replies, count.consumed) == Some(range)
    requires RevealIntake(replies, count.consumed + range.consumed) == Some(shown)
    requires OrderIntake(replies, count.consumed + range.consumed + shown.consumed) == Some(order)
    ensures ConfigIntake(replies, n)
      == Some(Prompted(Settings(count.value, range.value, shown.value, order.value),
                       count.consumed + range.consumed + shown.consumed + order.consumed))
  {
  }

  /** Setting up fails when the input runs out at the range prompts, after
      the count prompt stopped where it did. */
  lemma {:induction false} ConfigIntakeStopsAtRange(replies: seq<string>, n: nat, count: Prompted<int>)
    requires CountIntake(replies, 0, n) == count && RangeIntake(replies, count.consumed).None?
    ensures ConfigIntake(replies, n).None?
  {
  }

  /** Setting up fails when the input runs out at the reveal prompts. */
  lemma {:induction false} ConfigIntakeStopsAtReveal(replies: seq<string>, n: nat, count: Prompted<int>, range: Prompted<Option<string>>)
    requires CountIntake(replies, 0, n) == count && RangeIntake(replies, count.consumed) == Some(range)
    requires RevealIntake(replies, count.consumed + range.consumed).None?
    ensures ConfigIntake(replies, n).None?
  {
  }

  /** Setting up fails when the input runs out at the order prompt. */
  lemma {:induction false} ConfigIntakeStopsAtOrder(replies: seq<string>, n: nat, count: Prompted<int>, range: Prompted<Option<string>>,
                       shown: Prompted<string>)
    requires CountIntake(replies, 0, n) == count && RangeIntake(replies, count.consumed) == Some(range)
    requires RevealIntake(replies, count.consumed + range.consumed) == Some(shown)
    requires OrderIntake(replies, count.consumed + range.consumed + shown.consumed).None?
    ensures ConfigIntake(replies, n).None?
  {
  }

  /** A configured quiz never asks for more questions than there are cards,
      its reveal flag is "y" or "n", and it reads no more replies than the
      user typed; it can only fail to be configured by running out of input. */
  lemma ConfigIntakeValid(replies: seq<string>, n: nat)
    ensures var c := ConfigIntake(replies, n);
      c.Some? ==> && c.value.value.questionsPerQuiz <= n
                  && (c.value.value.showAnswerImmediately == "y" || c.value.value.showAnswerImmediately == "n")
                  && c.value.consumed <= |replies|
    ensures ConfigIntake(replies + ["0", "n", "n", "n"], n).Some?
  {
    ExtraRepliesConfigure(replies, n);
    var a := CountIntake(replies, 0, n).consumed;
    match RangeIntake(replies, a)
    case None =>
    case Some(range) =>
      RevealIntakeCases(replies, a + range.consumed);
  }

  lemma ExtraRepliesConfigure(replies: seq<string>, n: nat)
    ensures ConfigIntake(replies + ["0", "n", "n", "n"], n).Some?
  {
    var all := replies + ["0", "n", "n", "n"];
    var count := CountIntake(all, 0, n);
    if count.consumed > |replies| {
      CountStopsAtZero(replies, n);
    }
    PromptsAfterCountSucceed(all, count.consumed);
    var range := RangeIntake(all, count.consumed).value;
    var at := count.consumed + range.consumed;
    var shown := RevealIntake(all, at).value;
    ConfigIntakeOf(all, n, count, range, shown, OrderIntake(all, at + shown.consumed).value);
  }

  /** Whatever comes first, replies that end in "n", "n", "n" leave enough
      for the range, reveal and order prompts, wherever the count prompt
      stopped before those three. */
  lemma PromptsAfterCountSucceed(replies: seq<string>, a: nat)
    requires a + 3 <= |replies|
    requires replies[|replies| - 3] == "n" && replies[|replies| - 2] == "n" && replies[|replies| - 1] == "n"
    ensures RangeIntake(replies, a).Some?
    ensures var b := RangeIntake(replies, a).value.consumed;
      && RevealIntake(replies, a + b).Some?
      && OrderIntake(replies, a + b + RevealIntake(replies, a + b).value.consumed).Some?
  {
    assert IsYesNo("n") by { assert Lower("n") == "n"; }
    RangeIntakeCases(replies, a);
    var b := RangeIntake(replies, a).value.consumed;
    RevealIntakeCases(replies, a + b);
  }

  lemma CountStopsAtZero(replies: seq<string>, n: nat)
    requires CountIntake(replies + ["0", "n", "n", "n"], 0, n).consumed > |replies|
    ensures CountIntake(replies + ["0", "n", "n", "n"], 0, n).consumed == |replies| + 1
  {
    var all := replies + ["0", "n", "n", "n"];
    CountIntakeCases(all, 0, n);
    assert IntToString(0) == "0";
    ParseIntOfIntToString(0);
    assert all[|replies|] == "0";
  }
}
