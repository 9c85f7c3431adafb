/** Models of the Go standard-library string operations that the search engine and the
    interactive view rely on: strings.Contains, strings.ToLower (ASCII letters only) and the
    decimal formatting of fmt's %d verb. */
module Text {

  /** strings.Contains(s, p): `p` occurs in `s` as a contiguous piece. */
  predicate Contains(s: string, p: string)
    decreases |s|
  {
    p <= s || (s != [] && Contains(s[1..], p))
  }

  /** `p` occurs in `s` starting at index `i`. */
  predicate OccursAt(s: string, p: string, i: int)
  {
    0 <= i && i + |p| <= |s| && s[i..i + |p|] == p
  }

  /** The recursive Contains agrees with the index-based reading of substring containment. */
  lemma {:induction false} ContainsIffOccurs(s: string, p: string)
    ensures Contains(s, p) <==> exists i :: OccursAt(s, p, i)
    decreases |s|
  {
    if p <= s {
      assert s[0..|p|] == p;
      assert OccursAt(s, p, 0);
    } else if s != [] {
      ContainsIffOccurs(s[1..], p);
      if exists i :: OccursAt(s[1..], p, i) {
        var i :| OccursAt(s[1..], p, i);
        assert s[i + 1..i + 1 + |p|] == s[1..][i..i + |p|];
        assert OccursAt(s, p, i + 1);
      }
      forall i | OccursAt(s, p, i)
        ensures OccursAt(s[1..], p, i - 1)
      {
        assert i != 0;
        assert s[1..][i - 1..i - 1 + |p|] == s[i..i + |p|];
      }
    }
  }

  /** Lower-cases an ASCII capital letter and leaves every other character alone. */
  function LowerChar(c: char): (r: char)
    ensures 'A' <= c <= 'Z' ==> 'a' <= r <= 'z' && r as int - c as int == 32
    ensures !('A' <= c <= 'Z') ==> r == c
  {
    if 'A' <= c <= 'Z' then (c as int + 32) as char else c
  }

  /** strings.ToLower restricted to ASCII letters. */
  function ToLower(s: string): string
    decreases |s|
  {
    if s == [] then [] else [LowerChar(s[0])] + ToLower(s[1..])
  }

  /** ToLower keeps the length and lower-cases each character in place. */
  lemma {:induction false} ToLowerAt(s: string)
    ensures |ToLower(s)| == |s|
    ensures forall i :: 0 <= i < |s| ==> ToLower(s)[i] == LowerChar(s[i])
    decreases |s|
  {
    if s != [] {
      ToLowerAt(s[1..]);
    }
  }

  /** The decimal digit character for `d`. */
  function Digit(d: int): (c: char)
    requires 0 <= d < 10
    ensures '0' <= c <= '9' && c as int - '0' as int == d
  {
    ('0' as int + d) as char
  }

  predicate IsDigits(s: string)
  {
    forall i :: 0 <= i < |s| ==> '0' <= s[i] <= '9'
  }

  /** The number a string of decimal digits denotes, most significant digit first. */
  function DigitsValue(s: string): nat
    requires IsDigits(s)
    decreases |s|
  {
    if s == [] then 0 else DigitsValue(s[..|s| - 1]) * 10 + (s[|s| - 1] as int - '0' as int)
  }

  /** The decimal digits of `n`, most significant first, without leading zeros. */
  function FormatNat(n: nat): (r: string)
    ensures r != [] && IsDigits(r)
    decreases n
  {
    if n < 10 then [Digit(n)] else FormatNat(n / 10) + [Digit(n % 10)]
  }

  /** fmt's %d: a minus sign before the digits of a negative number. */
  function FormatInt(n: int): (r: string)
    ensures r != []
  {
    if n < 0 then "-" + FormatNat(-n) else FormatNat(n)
  }

  /** The digits FormatNat prints denote `n`, and only 0 itself is printed with a leading zero. */
  lemma {:induction false} FormatNatValue(n: nat)
    ensures DigitsValue(FormatNat(n)) == n
    ensures FormatNat(n)[0] == '0' <==> n == 0
    decreases n
  {
    if n >= 10 {
      var front := FormatNat(n / 10);
      var r := FormatNat(n);
      FormatNatValue(n / 10);
      assert r == front + [Digit(n % 10)];
      assert r[..|r| - 1] == front;
      assert r[0] == front[0];
    }
  }

  /** %d prints a number as its digits, after a minus sign exactly when it is negative. */
  lemma FormatIntValue(n: int)
    ensures n >= 0 ==> IsDigits(FormatInt(n)) && DigitsValue(FormatInt(n)) == n
    ensures n < 0 ==> FormatInt(n)[0] == '-' && IsDigits(FormatInt(n)[1..]) && DigitsValue(FormatInt(n)[1..]) == -n
  {
    if n < 0 {
      assert FormatInt(n)[1..] == FormatNat(-n);
      FormatNatValue(-n);
    } else {
      FormatNatValue(n);
    }
  }
}
