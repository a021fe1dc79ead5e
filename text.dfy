/** Small string helpers the two front-ends rely on: Python's `in` on strings,
    `str(n)` for a natural number and `int(s)` for a decimal string. */
module Text {

  datatype Option<+T> = None | Some(value: T)

  /** `t` occurs in `s` starting at position `i`. */
  predicate OccursAt(s: string, t: string, i: int) {
    0 <= i <= |s| - |t| && s[i..i + |t|] == t
  }

  /** Python's `t in s` for two strings: `t` occurs somewhere in `s`. */
  function Contains(s: string, t: string): (b: bool)
    ensures b <==> exists i :: OccursAt(s, t, i)
    decreases |s|
  {
    if |t| <= |s| && s[..|t|] == t then
      assert OccursAt(s, t, 0);
      true
    else if |s| == 0 then
      assert forall i :: OccursAt(s, t, i) ==> i == 0;
      false
    else
      var b := Contains(s[1..], t);
      if b then
        var i :| OccursAt(s[1..], t, i);
        assert OccursAt(s, t, i + 1);
        true
      else
        assert forall i :: OccursAt(s, t, i) ==> i == 0 || OccursAt(s[1..], t, i - 1);
        false
  }

  predicate IsDigit(c: char) {
    '0' <= c <= '9'
  }

  predicate AllDigits(s: string) {
    forall i :: 0 <= i < |s| ==> IsDigit(s[i])
  }

  function DigitChar(d: nat): (c: char)
    requires d < 10
    ensures IsDigit(c) && c as int - '0' as int == d
  {
    ('0' as int + d) as char
  }

  function DigitValue(c: char): (d: nat)
    requires IsDigit(c)
    ensures d < 10
  {
    c as int - '0' as int
  }

  /** The number a string of decimal digits denotes (most significant first). */
  function DigitsValue(s: string): nat
    requires AllDigits(s)
    decreases |s|
  {
    if s == [] then 0 else DigitsValue(s[..|s| - 1]) * 10 + DigitValue(s[|s| - 1])
  }

  /** Python's `str(n)` for a natural number. */
  function NatToString(n: nat): (s: string)
    ensures |s| > 0 && AllDigits(s)
    ensures |s| > 1 ==> s[0] != '0'
    decreases n
  {
    if n < 10 then [DigitChar(n)] else NatToString(n / 10) + [DigitChar(n % 10)]
  }

  /** Reading back what `str(n)` wrote gives `n`. */
  lemma {:induction false} NatToStringValue(n: nat)
    ensures DigitsValue(NatToString(n)) == n
    decreases n
  {
    var s := NatToString(n);
    if n >= 10 {
      var p := NatToString(n / 10);
      assert s == p + [DigitChar(n % 10)];
      assert s[..|s| - 1] == p;
      NatToStringValue(n / 10);
    }
  }

  /** Python's `int(s)` on a string: an optional sign followed by one or more
      decimal digits; anything else is a ValueError, modelled as None. */
  function ParseInt(s: string): (r: Option<int>)
    ensures AllDigits(s) && s != [] ==> r == Some(DigitsValue(s))
    ensures r.Some? ==> s != [] && (AllDigits(s) || (s[0] in "+-" && AllDigits(s[1..])))
    ensures s == [] ==> r.None?
    ensures s != [] && s[0] !in "+-" ==> (r.Some? <==> AllDigits(s))
    ensures s != [] && s[0] in "+-" ==> (r.Some? <==> |s| > 1 && AllDigits(s[1..]))
    ensures |s| > 1 && s[0] in "+-" && AllDigits(s[1..]) ==>
      r == Some(if s[0] == '-' then -(DigitsValue(s[1..]) as int) else DigitsValue(s[1..]) as int)
  {
    if s == [] then None
    else if s[0] == '+' || s[0] == '-' then
      var rest := s[1..];
      if rest != [] && AllDigits(rest) then
        var v: int := DigitsValue(rest);
        Some(if s[0] == '-' then -v else v)
      else None
    else if AllDigits(s) then Some(DigitsValue(s))
    else None
  }

  /** `int(str(n)) == n`. */
  lemma ParseNatToString(n: nat)
    ensures ParseInt(NatToString(n)) == Some(n)
  {
    NatToStringValue(n);
  }

  /** A bare sign is a ValueError; a signed digit string gives its signed value. */
  lemma ParseIntSigned()
    ensures ParseInt("+") == None && ParseInt("-") == None
    ensures ParseInt("-5") == Some(-5) && ParseInt("+1030") == Some(1030)
  {
    assert "-5"[1..] == "5";
    assert "+1030"[1..] == "1030";
    assert DigitsValue("1030") == 1030 by {
      assert "1030"[..3] == "103" && "103"[..2] == "10" && "10"[..1] == "1";
    }
  }
}
