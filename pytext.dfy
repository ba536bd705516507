/** The few Python string primitives the quiz engine relies on, written out:
    `str.lower`/`str.upper` (on ASCII letters), `int(str)` for base-10 text,
    `str(int)`, `"-" * 40`, `re.sub` of one character by another,
    `str.split(c)[0]` and POSIX `os.path.join` of two parts. */
module PyText {
  import opened Wrappers

  // ----- case mapping -----

  function LowerChar(c: char): char {
    if 'A' <= c <= 'Z' then (c as int + 32) as char else c
  }

  function UpperChar(c: char): char {
    if 'a' <= c <= 'z' then (c as int - 32) as char else c
  }

  /** `s.lower()`, on ASCII letters; every other character is kept. */
  function Lower(s: string): string {
    seq(|s|, i requires 0 <= i < |s| => LowerChar(s[i]))
  }

  /** `s.upper()`, on ASCII letters; every other character is kept. */
  function Upper(s: string): string {
    seq(|s|, i requires 0 <= i < |s| => UpperChar(s[i]))
  }

  /** The only replies whose lower-case form is the one-letter string [l]
      are [l] itself and its capital. */
  lemma LowerIsLetter(s: string, l: char)
    requires 'a' <= l <= 'z'
    ensures Lower(s) == [l] <==> s == [l] || s == [UpperChar(l)]
  {
    if Lower(s) == [l] {
      assert |s| == 1 && Lower(s)[0] == LowerChar(s[0]);
      assert s == [s[0]];
    }
    if s == [l] || s == [UpperChar(l)] {
      assert Lower(s) == [LowerChar(s[0])];
    }
  }

  /** The only replies whose upper-case form is the one-letter string [u]
      are [u] itself and its small letter. */
  lemma UpperIsLetter(s: string, u: char)
    requires 'A' <= u <= 'Z'
    ensures Upper(s) == [u] <==> s == [u] || s == [LowerChar(u)]
  {
    if Upper(s) == [u] {
      assert |s| == 1 && Upper(s)[0] == UpperChar(s[0]);
      assert s == [s[0]];
    }
    if s == [u] || s == [LowerChar(u)] {
      assert Upper(s) == [UpperChar(s[0])];
    }
  }

  // ----- int(str) -----

  /** The characters `int()` skips around the number in an ASCII string:
      space, tab, line feed, vertical tab, form feed and carriage return. */
  predicate IsSpace(c: char) {
    c == ' ' || c == '\t' || c == '\n' || c == '\r' || c == '\U{000B}' || c == '\U{000C}'
  }

  predicate IsDigit(c: char) { '0' <= c <= '9' }

  function StripLeft(s: string): string {
    if s != [] && IsSpace(s[0]) then StripLeft(s[1..]) else s
  }

  function StripRight(s: string): string {
    if s != [] && IsSpace(s[|s| - 1]) then StripRight(s[..|s| - 1]) else s
  }

  lemma {:induction false} StripLeftIsSuffix(s: string)
    ensures |StripLeft(s)| <= |s| && StripLeft(s) == s[|s| - |StripLeft(s)|..]
  {
    if s != [] && IsSpace(s[0]) {
      StripLeftIsSuffix(s[1..]);
    }
  }

  lemma {:induction false} StripRightIsPrefix(s: string)
    ensures |StripRight(s)| <= |s| && StripRight(s) == s[..|StripRight(s)|]
  {
    if s != [] && IsSpace(s[|s| - 1]) {
      StripRightIsPrefix(s[..|s| - 1]);
    }
  }

  /** The text between the white space `int()` skips at either end. */
  function Strip(s: string): string {
    StripRight(StripLeft(s))
  }

  /** Digits with single underscores between them (PEP 515 grouping), as
      `int()` accepts them in base 10. */
  predicate WellFormedDigits(b: string) {
    && |b| > 0
    && IsDigit(b[0])
    && (|b| == 1 || if b[1] == '_' then WellFormedDigits(b[2..]) else WellFormedDigits(b[1..]))
  }

  lemma {:induction false} AllDigitsWellFormed(b: string)
    requires |b| > 0 && forall i :: 0 <= i < |b| ==> IsDigit(b[i])
    ensures WellFormedDigits(b)
  {
    if |b| > 1 {
      AllDigitsWellFormed(b[1..]);
    }
  }

  /** The value of a run of digits, skipping grouping underscores. */
  function DigitsValue(b: string): nat {
    if b == [] then 0
    else
      var c := b[|b| - 1];
      if IsDigit(c) then DigitsValue(b[..|b| - 1]) * 10 + (c as int - '0' as int)
      else DigitsValue(b[..|b| - 1])
  }

  /** `int(s)` for a string `s`: `None` where Python raises ValueError. */
  function ParseInt(s: string): Option<int> {
    ParseSigned(Strip(s))
  }

  /** An optional sign followed by well-formed digits. */
  function ParseSigned(t: string): Option<int> {
    if |t| > 0 && (t[0] == '+' || t[0] == '-') then
      match ParseDigits(t[1..])
      case None => None
      case Some(m) => var v: int := m; Some(if t[0] == '-' then -v else v)
    else ParseDigits(t)
  }

  /** CPython's default limit on the digits of base-10 text converted by
      `int()` (`sys.get_int_max_str_digits()`), which the quiz does not
      change. */
  const MaxStrDigits: nat := 4300

  /** The number of digits in `b`, grouping underscores not counted. */
  function DigitCount(b: string): nat {
    if b == [] then 0
    else DigitCount(b[..|b| - 1]) + (if IsDigit(b[|b| - 1]) then 1 else 0)
  }

  /** The value of well-formed digits within the digit limit, `None` for
      anything else. */
  function ParseDigits(b: string): Option<nat> {
    if WellFormedDigits(b) && DigitCount(b) <= MaxStrDigits then Some(DigitsValue(b)) else None
  }

  function DigitChar(d: nat): char
    requires d < 10
  {
    ('0' as int + d) as char
  }

  /** `str(n)` for a natural number. */
  function NatToString(n: nat): (r: string)
    ensures |r| > 0 && forall i :: 0 <= i < |r| ==> IsDigit(r[i])
  {
    if n < 10 then [DigitChar(n)] else NatToString(n / 10) + [DigitChar(n % 10)]
  }

  /** `str(v)` for an integer. */
  function IntToString(v: int): string {
    if v < 0 then "-" + NatToString(-v) else NatToString(v)
  }

  lemma {:induction false} DigitsValueOfNatToString(n: nat)
    ensures DigitsValue(NatToString(n)) == n
  {
    if n >= 10 {
      var s := NatToString(n);
      assert s[..|s| - 1] == NatToString(n / 10);
      DigitsValueOfNatToString(n / 10);
    }
  }

  lemma StripNoSpaceEnds(s: string)
    requires s != [] && !IsSpace(s[0]) && !IsSpace(s[|s| - 1])
    ensures Strip(s) == s
  {
  }

  lemma {:induction false} WellFormedDigitsEnds(b: string)
    requires WellFormedDigits(b)
    ensures IsDigit(b[0]) && IsDigit(b[|b| - 1])
  {
    if |b| > 1 {
      var rest := if b[1] == '_' then b[2..] else b[1..];
      WellFormedDigitsEnds(rest);
      assert b[|b| - 1] == rest[|rest| - 1];
    }
  }

  lemma {:induction false} DigitCountOfDigits(b: string)
    requires forall i :: 0 <= i < |b| ==> IsDigit(b[i])
    ensures DigitCount(b) == |b|
  {
    if b != [] {
      DigitCountOfDigits(b[..|b| - 1]);
    }
  }

  lemma ParseIntOfDigits(d: string)
    requires WellFormedDigits(d)
    ensures ParseInt(d) == ParseDigits(d)
  {
    WellFormedDigitsEnds(d);
    StripNoSpaceEnds(d);
    assert Strip(d) == d;
    assert !(d[0] == '+' || d[0] == '-');
  }

  lemma ParseIntOfNegativeDigits(d: string)
    requires WellFormedDigits(d)
    ensures ParseInt("-" + d) == if ParseDigits(d).Some? then Some(-(DigitsValue(d) as int)) else None
  {
    var s := "-" + d;
    WellFormedDigitsEnds(d);
    assert s[0] == '-' && s[|s| - 1] == d[|d| - 1];
    StripNoSpaceEnds(s);
    assert s[1..] == d;
  }

  /** `int(str(v)) == v`: every number a user types the way Python prints
      it is read back as that number, unless it has more digits than the
      limit, in which case `int()` rejects it. */
  lemma ParseIntOfIntToString(v: int)
    ensures var digits := |NatToString(if v < 0 then -v else v)|;
      ParseInt(IntToString(v)) == if digits <= MaxStrDigits then Some(v) else None
  {
    var m: nat := if v < 0 then -v else v;
    DigitsValueOfNatToString(m);
    AllDigitsWellFormed(NatToString(m));
    DigitCountOfDigits(NatToString(m));
    if v < 0 {
      ParseIntOfNegativeDigits(NatToString(m));
    } else {
      ParseIntOfDigits(NatToString(m));
    }
  }

  /** What a reply must look like for `int()` to reject it. */
  lemma ParseIntRejects(s: string)
    ensures ParseInt("") == None
    ensures (forall i :: 0 <= i < |s| ==> !IsDigit(s[i])) ==> ParseInt(s) == None
  {
    var t := Strip(s);
    if forall i :: 0 <= i < |s| ==> !IsDigit(s[i]) {
      StripLeftIsSuffix(s);
      StripRightIsPrefix(StripLeft(s));
      assert forall i :: 0 <= i < |t| ==> t[i] == StripLeft(s)[i];
      assert forall i :: 0 <= i < |t| ==> !IsDigit(t[i]);
      if |t| > 0 && (t[0] == '+' || t[0] == '-') {
        assert !WellFormedDigits(t[1..]) by {
          if |t[1..]| > 0 { assert !IsDigit(t[1..][0]) by { assert t[1..][0] == t[1]; } }
        }
      }
    }
  }

  // ----- other string helpers -----

  /** `c * n` for a one-character string `c`. */
  function Repeat(c: char, n: nat): string {
    seq(n, _ => c)
  }

  /** `re.sub(from, to, s)` for single, non-special characters. */
  function ReplaceChar(s: string, from: char, to: char): string {
    seq(|s|, i requires 0 <= i < |s| => if s[i] == from then to else s[i])
  }

  /** `s.split(c)[0]`: the text before the first `c`, or all of `s`. */
  function BeforeFirst(s: string, c: char): (r: string)
    ensures |r| <= |s| && r == s[..|r|]
    ensures c !in r
    ensures |r| < |s| ==> s[|r|] == c
  {
    if s == [] then []
    else if s[0] == c then []
    else [s[0]] + BeforeFirst(s[1..], c)
  }

  /** POSIX `os.path.join(a, b)`: an absolute `b` replaces `a`; otherwise
      one slash separates them unless `a` is empty or already ends in one. */
  function PathJoin(a: string, b: string): (r: string)
    ensures |b| > 0 && b[0] == '/' ==> r == b
    ensures !(|b| > 0 && b[0] == '/') ==> r == a + b || r == a + "/" + b
  {
    if |b| > 0 && b[0] == '/' then b
    else if a == [] || a[|a| - 1] == '/' then a + b
    else a + "/" + b
  }
}
