/** Which cards a quiz asks, and in what order: a Python slice of the card
    list chosen by the range setting, then, unless the questions stay in
    order, `random.shuffle` of that slice. */
module Selection {
  import opened Wrappers
  import opened Cards

  // ----- Python slices -----

  /** Where a slice bound `i` lands in a list of length `len`: a negative
      bound counts from the end, and bounds are clamped to the list. */
  function SliceIndex(i: int, len: nat): (k: nat)
    ensures k <= len
  {
    if i < 0 then (if len + i < 0 then 0 else len + i)
    else if i > len then len
    else i
  }

  /** `s[:i]` */
  function Take<T>(s: seq<T>, i: int): seq<T> {
    s[..SliceIndex(i, |s|)]
  }

  /** `s[i:]` */
  function From<T>(s: seq<T>, i: int): seq<T> {
    s[SliceIndex(i, |s|)..]
  }

  /** The cards a quiz of `n` questions draws: `cards[-n:]` for range "2",
      `cards[:n]` for range "1", for no range and for any other reply. */
  function Select(cards: seq<Card>, n: int, range: Option<string>): seq<Card> {
    if range == Some("2") then From(cards, -n) else Take(cards, n)
  }

  ghost predicate Distinct<T>(s: seq<T>) {
    forall i, j :: 0 <= i < j < |s| ==> s[i] != s[j]
  }

  /** For a count between 1 and the number of cards, range "2" takes the last
      `n` cards and every other range the first `n`, in their order. */
  lemma SelectWithinBounds(cards: seq<Card>, n: int, range: Option<string>)
    requires 1 <= n <= |cards|
    ensures |Select(cards, n, range)| == n
    ensures range == Some("2") ==> Select(cards, n, range) == cards[|cards| - n..]
    ensures range != Some("2") ==> Select(cards, n, range) == cards[..n]
  {
  }

  /** The number of cards selected for any count the intake lets through:
      `min(n, N)` for a non-negative count, except that a count of 0 from the
      end takes every card (`cards[-0:]` is `cards[0:]`); a negative count
      drops `-n` cards, from the end with range "1" or none, from the start
      with range "2". */
  lemma SelectLength(cards: seq<Card>, n: int, range: Option<string>)
    ensures var N := |cards|; var r := Select(cards, n, range);
      && (n == 0 && range == Some("2") ==> r == cards)
      && (n == 0 && range != Some("2") ==> r == [])
      && (n > 0 ==> |r| == if n <= N then n else N)
      && (n < 0 ==> |r| == if N + n < 0 then 0 else N + n)
      && (n < 0 && range == Some("2") ==> r == cards[N - |r|..])
      && (n < 0 && range != Some("2") ==> r == cards[..|r|])
  {
  }

  /** The selected cards are a stretch of the card list, so they are drawn
      from it without repetition: each card occurs in the selection at most
      as often as in the list, and a list without duplicates gives a
      selection without duplicates. */
  lemma SelectDrawsWithoutRepetition(cards: seq<Card>, n: int, range: Option<string>)
    ensures multiset(Select(cards, n, range)) <= multiset(cards)
    ensures Distinct(cards) ==> Distinct(Select(cards, n, range))
  {
    var lo := if range == Some("2") then SliceIndex(-n, |cards|) else 0;
    var hi := if range == Some("2") then |cards| else SliceIndex(n, |cards|);
    assert Select(cards, n, range) == cards[lo..hi];
    SliceDrawsWithoutRepetition(cards, lo, hi);
  }

  lemma SliceDrawsWithoutRepetition<T>(s: seq<T>, lo: nat, hi: nat)
    requires lo <= hi <= |s|
    ensures multiset(s[lo..hi]) <= multiset(s)
    ensures Distinct(s) ==> Distinct(s[lo..hi])
  {
    assert s == s[..lo] + s[lo..hi] + s[hi..];
    assert multiset(s) == multiset(s[..lo]) + multiset(s[lo..hi]) + multiset(s[hi..]);
  }

  // ----- random.shuffle -----

  function Swap<T>(s: seq<T>, i: nat, j: nat): (r: seq<T>)
    requires i < |s| && j < |s|
    ensures |r| == |s|
  {
    s[i := s[j]][j := s[i]]
  }

  lemma SwapPermutes<T>(s: seq<T>, i: nat, j: nat)
    requires i < |s| && j < |s|
    ensures multiset(Swap(s, i, j)) == multiset(s)
  {
  }

  /** The steps `i, i - 1, ..., 1` of `random.shuffle` on `s`: step `i` swaps
      position `i` with a position drawn below `i + 1`. `draw(k)` is the value
      behind the `k`-th draw, reduced into range. */
  function ShuffleSteps<T>(s: seq<T>, i: nat, draw: nat -> nat): seq<T>
    requires i < |s|
    decreases i
  {
    if i == 0 then s
    else ShuffleSteps(Swap(s, i, draw(|s| - 1 - i) % (i + 1)), i - 1, draw)
  }

  /** `random.shuffle(s)`, with the random draws given by `draw`. */
  function Shuffled<T>(s: seq<T>, draw: nat -> nat): seq<T> {
    if s == [] then s else ShuffleSteps(s, |s| - 1, draw)
  }

  lemma {:induction false} ShuffleStepsPermutes<T>(s: seq<T>, i: nat, draw: nat -> nat)
    requires i < |s|
    ensures |ShuffleSteps(s, i, draw)| == |s|
    ensures multiset(ShuffleSteps(s, i, draw)) == multiset(s)
    decreases i
  {
    if i > 0 {
      var j := draw(|s| - 1 - i) % (i + 1);
      SwapPermutes(s, i, j);
      ShuffleStepsPermutes(Swap(s, i, j), i - 1, draw);
    }
  }

  /** Shuffling only reorders: the same cards, each as often as before. */
  lemma ShuffledPermutes<T>(s: seq<T>, draw: nat -> nat)
    ensures |Shuffled(s, draw)| == |s|
    ensures multiset(Shuffled(s, draw)) == multiset(s)
  {
    if s != [] { ShuffleStepsPermutes(s, |s| - 1, draw); }
  }

  /** With a draw that always picks the top position, every step swaps a
      position with itself and the shuffle leaves the list as it is; so the
      identity is among the shuffles. */
  lemma {:induction false} ShuffleStepsTopDraws<T>(s: seq<T>, i: nat, draw: nat -> nat)
    requires i < |s|
    requires forall k :: 0 <= k < |s| ==> draw(k) % (|s| - k) == |s| - 1 - k
    ensures ShuffleSteps(s, i, draw) == s
    decreases i
  {
    if i > 0 {
      var k := |s| - 1 - i;
      assert draw(k) % (i + 1) == i by { assert |s| - k == i + 1; }
      assert Swap(s, i, i) == s;
      ShuffleStepsTopDraws(s, i - 1, draw);
    }
  }

  lemma ShuffleStepUnfolds<T>(s: seq<T>, i: nat, j: nat, draw: nat -> nat)
    requires 0 < i < |s| && j == draw(|s| - 1 - i) % (i + 1)
    ensures ShuffleSteps(s, i, draw) == ShuffleSteps(Swap(s, i, j), i - 1, draw)
  {
  }

  /** `a[i], a[j] = a[j], a[i]` */
  method SwapAt<T>(a: array<T>, i: nat, j: nat)
    requires i < a.Length && j < a.Length
    modifies a
    ensures a[..] == Swap(old(a[..]), i, j)
  {
    var t := a[i];
    a[i] := a[j];
    a[j] := t;
  }

  /** `random.shuffle` in place: the CPython loop over `i` from the last
      position down to 1, swapping `a[i]` with `a[j]` for a drawn `j <= i`.
      That the result is a permutation is `ShuffledPermutes`. */
  method Shuffle<T>(a: array<T>, draw: nat -> nat)
    modifies a
    ensures a[..] == Shuffled(old(a[..]), draw)
  {
    if a.Length == 0 {
      return;
    }
    var i := a.Length - 1;
    while i > 0
      invariant 0 <= i < a.Length
      invariant ShuffleSteps(a[..], i, draw) == Shuffled(old(a[..]), draw)
    {
      var j := draw(a.Length - 1 - i) % (i + 1);
      ghost var before := a[..];
      ShuffleStepUnfolds(before, i, j, draw);
      SwapAt(a, i, j);
      i := i - 1;
    }
  }

  /** The quiz's question list: the selection as it is when the questions
      stay in order, shuffled otherwise. */
  function Arrange(selected: seq<Card>, inOrder: bool, draw: nat -> nat): seq<Card> {
    if inOrder then selected else Shuffled(selected, draw)
  }

  /** Kept in order, the quiz asks exactly the selected cards in list order;
      shuffled, it asks the same cards in some order. */
  lemma ArrangePermutes(selected: seq<Card>, inOrder: bool, draw: nat -> nat)
    ensures inOrder ==> Arrange(selected, inOrder, draw) == selected
    ensures multiset(Arrange(selected, inOrder, draw)) == multiset(selected)
    ensures |Arrange(selected, inOrder, draw)| == |selected|
  {
    ShuffledPermutes(selected, draw);
  }
}
