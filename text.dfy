/**
 * The pieces of Java string building the simulator and the clock rely on:
 * the decimal text of a non-negative `int` (`"" + n`), the zero padding of
 * `n < 10 ? "0" + n : n`, and the character-by-character reversal of a
 * string.  Each conversion comes with the parse that undoes it.
 */
module Text {

  /** The character of decimal digit `d`. */
  function Digit(d: nat): (c: char)
    requires d < 10
    ensures '0' <= c <= '9'
  {
    ('0' as int + d) as char
  }

  predicate IsDigits(s: string)
  {
    forall i :: 0 <= i < |s| ==> '0' <= s[i] <= '9'
  }

  /** `"" + n` for a non-negative `int`: its decimal digits, without leading zeros. */
  function NatToString(n: nat): (s: string)
    ensures |s| > 0 && IsDigits(s)
    ensures |s| > 1 ==> s[0] != '0'
    ensures n < 10 <==> |s| == 1
  {
    if n < 10 then [Digit(n)] else NatToString(n / 10) + [Digit(n % 10)]
  }

  /** `"" + x` for any `int`: a minus sign before the digits of a negative number. */
  function IntToString(x: int): (s: string)
    ensures x >= 0 ==> s == NatToString(x)
    ensures x < 0 ==> |s| > 1 && s[0] == '-' && IsDigits(s[1..]) && ParseNat(s[1..]) == -x
  {
    if x >= 0 then NatToString(x)
    else
      var digits := NatToString(-x);
      ParseNatToString(-x);
      assert ("-" + digits)[1..] == digits;
      "-" + digits
  }

  /** The value of a string of decimal digits, most significant first. */
  function ParseNat(s: string): nat
    requires IsDigits(s)
  {
    if s == [] then 0 else ParseNat(s[..|s| - 1]) * 10 + (s[|s| - 1] as int - '0' as int)
  }

  /** Reading the decimal text back gives the number. */
  lemma {:induction false} ParseNatToString(n: nat)
    ensures ParseNat(NatToString(n)) == n
  {
    if n >= 10 {
      var s := NatToString(n);
      ParseNatToString(n / 10);
      assert s[..|s| - 1] == NatToString(n / 10);
    }
  }

  /** Numbers with the same decimal text are equal. */
  lemma NatToStringInjective(a: nat, b: nat)
    requires NatToString(a) == NatToString(b)
    ensures a == b
  {
    ParseNatToString(a);
    ParseNatToString(b);
  }

  /** `n < 10 ? "0" + n : n`: a zero before every number below 10. */
  function Padded(n: int): (s: string)
    ensures 0 <= n < 100 ==> |s| == 2 && IsDigits(s)
  {
    if n < 10 then "0" + IntToString(n) else IntToString(n)
  }

  /** Between 0 and 99 the two digits read back as the number, padding and all. */
  lemma ParsePadded(n: int)
    requires 0 <= n < 100
    ensures ParseNat(Padded(n)) == n
  {
    var s := Padded(n);
    ParseNatToString(n);
    if n < 10 {
      assert s[..1] == "0";
      assert ParseNat("0") == 0;
      assert s[1..] == NatToString(n);
      assert ParseNat(s) == ParseNat(s[..1]) * 10 + (s[1] as int - '0' as int);
    }
  }

  /** A number from 1000 to 9999 has four digits. */
  lemma FourDigits(n: int)
    ensures 1000 <= n < 10000 ==> |IntToString(n)| == 4
  {
    if 1000 <= n < 10000 {
      assert |NatToString(n / 1000)| == 1;
      assert |NatToString(n / 100)| == 2;
      assert |NatToString(n / 10)| == 3;
    }
  }

  /** The elements of `s`, last first. */
  function Reverse<T>(s: seq<T>): (r: seq<T>)
    ensures |r| == |s|
  {
    if s == [] then [] else Reverse(s[1..]) + [s[0]]
  }

  /** Element `i` of the reversal is element `|s| - 1 - i` of `s`. */
  lemma {:induction false} ReverseAt<T>(s: seq<T>)
    ensures forall i :: 0 <= i < |s| ==> Reverse(s)[i] == s[|s| - 1 - i]
  {
    if s != [] {
      ReverseAt(s[1..]);
    }
  }

  /** Reversing twice gives the sequence back. */
  lemma ReverseReverse<T>(s: seq<T>)
    ensures Reverse(Reverse(s)) == s
  {
    ReverseAt(s);
    ReverseAt(Reverse(s));
  }

  lemma AppendAssoc<T>(a: seq<T>, b: seq<T>, c: seq<T>)
    ensures a + (b + c) == (a + b) + c
  {
  }

  /** Reversal turns a concatenation around. */
  lemma ReverseAppend<T>(a: seq<T>, b: seq<T>)
    ensures Reverse(a + b) == Reverse(b) + Reverse(a)
  {
    ReverseAt(a + b);
    ReverseAt(a);
    ReverseAt(b);
    assert forall i :: 0 <= i < |a + b| ==> Reverse(a + b)[i] == (Reverse(b) + Reverse(a))[i];
  }
}
