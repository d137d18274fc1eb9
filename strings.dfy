/**
 * Text helpers shared by the converter: concatenation of rendered pieces,
 * Python's `str.replace` for a one-character needle, and the decimal
 * rendering of integers that Python's `str(int)` and the `%02d`/`%04d`
 * fields of `strftime` produce, each with the parser that undoes it.
 */
module Strings {

  /** Concatenation of pieces, defined from the last piece so that a loop
      that appends one piece at a time follows it step by step. */
  function Concat(pieces: seq<string>): string
  {
    if pieces == [] then "" else Concat(pieces[..|pieces| - 1]) + pieces[|pieces| - 1]
  }

  lemma {:induction false} ConcatCons(pieces: seq<string>)
    requires pieces != []
    ensures Concat(pieces) == pieces[0] + Concat(pieces[1..])
  {
    if |pieces| > 1 {
      var init, last, tail := pieces[..|pieces| - 1], pieces[|pieces| - 1], pieces[1..];
      ConcatCons(init);
      assert init[0] == pieces[0];
      assert init[1..] == tail[..|tail| - 1];
      assert tail[|tail| - 1] == last;
      calc {
        Concat(pieces);
        Concat(init) + last;
        (pieces[0] + Concat(tail[..|tail| - 1])) + last;
        pieces[0] + (Concat(tail[..|tail| - 1]) + last);
        pieces[0] + Concat(tail);
      }
    } else {
      assert pieces[1..] == [];
    }
  }

  lemma {:induction false} ConcatPrefix(pieces: seq<string>, k: nat)
    requires k < |pieces|
    ensures Concat(pieces[..k + 1]) == Concat(pieces[..k]) + pieces[k]
  {
    assert pieces[..k + 1][..k] == pieces[..k];
  }

  /** `s.replace(c, sub)` for a one-character needle: every occurrence of `c`,
      scanned left to right, is replaced by `sub`. */
  function Replace(s: string, c: char, sub: string): (r: string)
    ensures c !in sub ==> c !in r
  {
    if s == [] then "" else (if s[0] == c then sub else [s[0]]) + Replace(s[1..], c, sub)
  }

  /** Replacing a character that does not occur changes nothing. */
  lemma {:induction false} ReplaceAbsent(s: string, c: char, sub: string)
    requires c !in s
    ensures Replace(s, c, sub) == s
  {
    if s != [] {
      ReplaceAbsent(s[1..], c, sub);
    }
  }

  /** Replacement works character by character, so it distributes over `+`. */
  lemma {:induction false} ReplaceAppend(a: string, b: string, c: char, sub: string)
    ensures Replace(a + b, c, sub) == Replace(a, c, sub) + Replace(b, c, sub)
  {
    if a != [] {
      assert (a + b)[1..] == a[1..] + b;
      ReplaceAppend(a[1..], b, c, sub);
    } else {
      assert a + b == b;
    }
  }

  // ----- decimal digits -----

  predicate IsDigit(c: char) { '0' <= c <= '9' }

  function DigitChar(d: nat): (c: char)
    requires d < 10
    ensures IsDigit(c) && DigitValue(c) == d
  {
    ('0' as int + d) as char
  }

  function DigitValue(c: char): int
  {
    c as int - '0' as int
  }

  predicate AllDigits(s: string)
  {
    forall i :: 0 <= i < |s| ==> IsDigit(s[i])
  }

  function Pow10(w: nat): (p: nat)
    ensures p >= 1
  {
    if w == 0 then 1 else 10 * Pow10(w - 1)
  }

  /** The value of a string of decimal digits (empty string: 0), read from
      the last digit as the positional value. */
  function ParseNat(s: string): int
  {
    if s == [] then 0 else ParseNat(s[..|s| - 1]) * 10 + DigitValue(s[|s| - 1])
  }

  /** Python's `str(n)` for a natural number: shortest decimal form. */
  function NatToString(n: nat): (s: string)
    ensures s != [] && AllDigits(s)
    ensures |s| > 1 ==> s[0] != '0'
  {
    if n < 10 then [DigitChar(n)] else NatToString(n / 10) + [DigitChar(n % 10)]
  }

  /** Python's `str(i)` for any integer: a minus sign before the digits of
      a negative number. */
  function IntToString(i: int): (s: string)
    ensures s != []
    ensures i >= 0 <==> IsDigit(s[0])
  {
    if i < 0 then "-" + NatToString(-i) else NatToString(i)
  }

  function ParseInt(s: string): int
  {
    if s != [] && s[0] == '-' then -ParseNat(s[1..]) else ParseNat(s)
  }

  /** `%0<w>d`: exactly `w` digits, zero-padded on the left. */
  function Fixed(n: nat, w: nat): (s: string)
    ensures |s| == w && AllDigits(s)
  {
    if w == 0 then "" else Fixed(n / 10, w - 1) + [DigitChar(n % 10)]
  }

  lemma {:induction false} NatToStringRoundTrip(n: nat)
    ensures ParseNat(NatToString(n)) == n
  {
    var s := NatToString(n);
    if n >= 10 {
      NatToStringRoundTrip(n / 10);
      assert s[..|s| - 1] == NatToString(n / 10);
    } else {
      assert s[..0] == [];
    }
  }

  /** The integer rendering is undone by the integer parser. */
  lemma IntToStringRoundTrip(i: int)
    ensures ParseInt(IntToString(i)) == i
  {
    if i < 0 {
      NatToStringRoundTrip(-i);
      assert IntToString(i)[1..] == NatToString(-i);
    } else {
      NatToStringRoundTrip(i);
    }
  }

  /** Different integers never render the same (a consequence of the round trip). */
  lemma IntToStringInjective(i: int, j: int)
    requires IntToString(i) == IntToString(j)
    ensures i == j
  {
    IntToStringRoundTrip(i);
    IntToStringRoundTrip(j);
  }

  /** A fixed-width field holds every value below 10^w exactly. */
  lemma {:induction false} FixedRoundTrip(n: nat, w: nat)
    requires n < Pow10(w)
    ensures ParseNat(Fixed(n, w)) == n
  {
    var s := Fixed(n, w);
    if w == 0 {
    } else {
      assert n / 10 < Pow10(w - 1);
      FixedRoundTrip(n / 10, w - 1);
      assert s[..|s| - 1] == Fixed(n / 10, w - 1);
    }
  }
}
