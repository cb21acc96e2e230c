/**
  The two integer conversions the pipelines rely on: Python's `int(x)`, applied
  to the movie ids an item carries (which arrive either as integers or as
  text), and `'{:d}'.format(n)`, which renders an id in the duplicate-key
  message.
 */
module PyInt {
  import opened Wrappers

  /** An id as a crawl item carries it: already an integer, or text. */
  datatype RawId = IntVal(n: int) | StrVal(s: string)

  /** The ASCII whitespace that `int()` ignores around its text argument. */
  predicate IsSpace(c: char) {
    c == ' ' || c == '\t' || c == '\n' || c == '\r' || c == '\U{0B}' || c == '\U{0C}'
  }

  predicate IsDigit(c: char) {
    '0' <= c <= '9'
  }

  predicate AllDigits(s: string) {
    forall i | 0 <= i < |s| :: IsDigit(s[i])
  }

  function DigitValue(c: char): (d: nat)
    requires IsDigit(c)
    ensures d < 10
  {
    c as int - '0' as int
  }

  function DigitChar(d: nat): (c: char)
    requires d < 10
    ensures IsDigit(c) && DigitValue(c) == d
  {
    ('0' as int + d) as char
  }

  /** Drops leading whitespace. */
  function TrimLeft(s: string): string {
    if s != [] && IsSpace(s[0]) then TrimLeft(s[1..]) else s
  }

  /** Drops trailing whitespace. */
  function TrimRight(s: string): string {
    if s != [] && IsSpace(s[|s| - 1]) then TrimRight(s[..|s| - 1]) else s
  }

  /** What `TrimLeft` keeps is a suffix that starts with no blank, and all it drops is blank. */
  lemma {:induction false} TrimLeftSpec(s: string)
    ensures var r := TrimLeft(s);
            && |r| <= |s| && r == s[|s| - |r|..]
            && (r == [] || !IsSpace(r[0]))
            && forall i | 0 <= i < |s| - |r| :: IsSpace(s[i])
  {
    if s != [] && IsSpace(s[0]) {
      var t, r := s[1..], TrimLeft(s[1..]);
      TrimLeftSpec(t);
      assert t[|t| - |r|..] == s[|s| - |r|..];
      forall i | 0 <= i < |s| - |r| ensures IsSpace(s[i]) {
        if i > 0 {
          assert s[i] == t[i - 1];
        }
      }
    }
  }

  /** What `TrimRight` keeps is a prefix that ends with no blank, and all it drops is blank. */
  lemma {:induction false} TrimRightSpec(s: string)
    ensures var r := TrimRight(s);
            && |r| <= |s| && r == s[..|r|]
            && (r == [] || !IsSpace(r[|r| - 1]))
            && forall i | |r| <= i < |s| :: IsSpace(s[i])
  {
    if s != [] && IsSpace(s[|s| - 1]) {
      var t, r := s[..|s| - 1], TrimRight(s[..|s| - 1]);
      TrimRightSpec(t);
      assert t[..|r|] == s[..|r|];
      forall i | |r| <= i < |s| ensures IsSpace(s[i]) {
        if i < |s| - 1 {
          assert s[i] == t[i];
        }
      }
    }
  }

  function Trim(s: string): string {
    TrimRight(TrimLeft(s))
  }

  /** The value of a string of decimal digits, most significant first. */
  function DigitsValue(s: string): nat
    requires AllDigits(s)
  {
    if s == [] then 0 else DigitsValue(s[..|s| - 1]) * 10 + DigitValue(s[|s| - 1])
  }

  /**
    `int(s)` for a text argument: surrounding whitespace is ignored, then an
    optional sign and at least one decimal digit; anything else is the
    ValueError case, `None` here.
   */
  function ParseInt(s: string): Option<int> {
    ParseTrimmed(Trim(s))
  }

  /** An optional sign followed by at least one digit, nothing else. */
  function ParseTrimmed(t: string): Option<int> {
    if t != [] && (t[0] == '+' || t[0] == '-') then
      var d := t[1..];
      if d != [] && AllDigits(d) then
        var v: int := DigitsValue(d);
        Some(if t[0] == '-' then -v else v)
      else None
    else if t != [] && AllDigits(t) then
      Some(DigitsValue(t))
    else None
  }

  /** Python's `int(x)` on an id: the identity on integers, parsing on text. */
  function ToInt(x: RawId): Option<int> {
    match x
    case IntVal(n) => Some(n)
    case StrVal(s) => ParseInt(s)
  }

  /** The decimal digits of a natural number, without leading zeros. */
  function ShowNat(n: nat): (r: string)
    ensures r != [] && AllDigits(r)
    ensures r[0] == '0' ==> n == 0
  {
    if n < 10 then [DigitChar(n)] else ShowNat(n / 10) + [DigitChar(n % 10)]
  }

  /** `'{:d}'.format(n)`: a minus sign for negative numbers, then the digits. */
  function ShowInt(n: int): string {
    if n < 0 then "-" + ShowNat(-n) else ShowNat(n)
  }

  lemma {:induction false} ShowNatValue(n: nat)
    ensures DigitsValue(ShowNat(n)) == n
  {
    if n >= 10 {
      var s := ShowNat(n);
      assert s[..|s| - 1] == ShowNat(n / 10);
      ShowNatValue(n / 10);
    }
  }

  lemma TrimOfUnpadded(s: string)
    requires s != [] && !IsSpace(s[0]) && !IsSpace(s[|s| - 1])
    ensures Trim(s) == s
  {
  }

  /** Reading back a rendered number gives the number: `int('{:d}'.format(n)) == n`. */
  lemma ShowIntRoundTrip(n: int)
    ensures ToInt(StrVal(ShowInt(n))) == Some(n)
  {
    var s := ShowInt(n);
    assert !IsSpace(s[0]) && !IsSpace(s[|s| - 1]);
    TrimOfUnpadded(s);
    ShowIntParses(n);
  }

  /** A rendered number needs no trimming to be read back. */
  lemma ShowIntParses(n: int)
    ensures ParseTrimmed(ShowInt(n)) == Some(n)
  {
    var s := ShowInt(n);
    if n < 0 {
      var d := ShowNat(-n);
      assert s == "-" + d && s[1..] == d && s[0] == '-';
      ShowNatValue(-n);
    } else {
      assert s[0] != '+' && s[0] != '-';
      ShowNatValue(n);
    }
  }

  /** Whitespace around a rendered number does not change what `int()` reads. */
  lemma PaddedRoundTrip(n: int, pre: string, post: string)
    requires forall i | 0 <= i < |pre| :: IsSpace(pre[i])
    requires forall i | 0 <= i < |post| :: IsSpace(post[i])
    ensures ToInt(StrVal(pre + ShowInt(n) + post)) == Some(n)
  {
    var core := ShowInt(n);
    var s := pre + core + post;
    TrimLeftPadded(pre, core + post);
    assert pre + (core + post) == s;
    TrimRightPadded(core, post);
    ShowIntRoundTrip(n);
    TrimOfUnpadded(core);
  }

  lemma {:induction false} TrimLeftPadded(pre: string, rest: string)
    requires forall i | 0 <= i < |pre| :: IsSpace(pre[i])
    requires rest != [] && !IsSpace(rest[0])
    ensures TrimLeft(pre + rest) == rest
  {
    if pre != [] {
      assert (pre + rest)[1..] == pre[1..] + rest;
      TrimLeftPadded(pre[1..], rest);
    } else {
      assert pre + rest == rest;
    }
  }

  lemma {:induction false} TrimRightPadded(core: string, post: string)
    requires forall i | 0 <= i < |post| :: IsSpace(post[i])
    requires core != [] && !IsSpace(core[|core| - 1])
    ensures TrimRight(core + post) == core
  {
    if post != [] {
      assert (core + post)[..|core + post| - 1] == core + post[..|post| - 1];
      TrimRightPadded(core, post[..|post| - 1]);
    } else {
      assert core + post == core;
    }
  }

  /** Text without any digit is refused by `int()`: the empty text, blanks, a bare sign. */
  lemma RejectsNoDigits(s: string)
    requires forall i | 0 <= i < |s| :: !IsDigit(s[i])
    ensures ToInt(StrVal(s)) == None
  {
    var l := TrimLeft(s);
    var t := TrimRight(l);
    TrimLeftSpec(s);
    TrimRightSpec(l);
    assert forall i | 0 <= i < |t| :: t[i] == s[|s| - |l| + i];
    if t != [] && (t[0] == '+' || t[0] == '-') && t[1..] != [] {
      assert !IsDigit(t[1..][0]);
    }
  }

  /** A trailing character that is neither a digit nor whitespace is refused, not ignored. */
  lemma RejectsTrailingJunk(s: string, c: char)
    requires !IsDigit(c) && !IsSpace(c)
    ensures ToInt(StrVal(s + [c])) == None
  {
    var w := s + [c];
    var l := TrimLeft(w);
    TrimLeftSpec(w);
    assert !IsSpace(w[|w| - 1]);
    assert l[|l| - 1] == w[|w| - 1] == c;
    var t := TrimRight(l);
    assert t == l;
    if t[0] == '+' || t[0] == '-' {
      var d := t[1..];
      assert d != [] ==> !IsDigit(d[|d| - 1]);
    } else {
      assert !IsDigit(t[|t| - 1]);
    }
  }
}
