/**
 * Zero-padded positional numerals over an alphabet of digits: the `%032x`
 * rendering of a UUID's 128-bit integer and the `%Y`, `%m`, `%d` fields of
 * `strftime` are both instances.
 */
module Numerals {

  const DecimalDigits: string := "0123456789"
  const LowerHexDigits: string := "0123456789abcdef"

  function Pow(base: nat, n: nat): (r: nat)
    ensures base >= 1 ==> r >= 1
  {
    if n == 0 then 1 else base * Pow(base, n - 1)
  }

  /** No digit occurs twice in the alphabet. */
  predicate Distinct(alphabet: string)
  {
    forall i, j :: 0 <= i < j < |alphabet| ==> alphabet[i] != alphabet[j]
  }

  /** Each digit sorts strictly before the next one. */
  predicate Ascending(alphabet: string)
  {
    forall i :: 0 <= i < |alphabet| - 1 ==> alphabet[i] < alphabet[i + 1]
  }

  lemma {:induction false} AscendingIsDistinct(alphabet: string)
    requires Ascending(alphabet)
    ensures Distinct(alphabet)
    ensures forall i, j :: 0 <= i < j < |alphabet| ==> alphabet[i] < alphabet[j]
  {
    if |alphabet| > 1 {
      var tail := alphabet[1..];
      assert Ascending(tail) by {
        forall i | 0 <= i < |tail| - 1 ensures tail[i] < tail[i + 1] {
          assert tail[i] == alphabet[i + 1] && tail[i + 1] == alphabet[i + 2];
        }
      }
      AscendingIsDistinct(tail);
      forall i, j | 0 <= i < j < |alphabet|
        ensures alphabet[i] < alphabet[j]
      {
        if i > 0 {
          assert alphabet[i] == tail[i - 1] && alphabet[j] == tail[j - 1];
        } else if j > 1 {
          assert alphabet[1] == tail[0] && alphabet[j] == tail[j - 1];
        }
      }
    }
  }

  /** The decimal and the lower-case hexadecimal alphabets have no repeated digit. */
  lemma StandardAlphabetsDistinct()
    ensures Distinct(DecimalDigits) && Distinct(LowerHexDigits)
  {
    assert Ascending(DecimalDigits);
    assert Ascending(LowerHexDigits);
    AscendingIsDistinct(DecimalDigits);
    AscendingIsDistinct(LowerHexDigits);
  }

  /** The lowest `width` digits of `v` in base |alphabet|, most significant first. */
  function Numeral(v: nat, width: nat, alphabet: string): (s: string)
    requires |alphabet| >= 2
    ensures |s| == width
    ensures forall i :: 0 <= i < width ==> s[i] in alphabet
  {
    if width == 0 then []
    else Numeral(v / |alphabet|, width - 1, alphabet) + [alphabet[v % |alphabet|]]
  }

  /** Position of the first occurrence of `c` in the alphabet. */
  function DigitValue(c: char, alphabet: string): (d: nat)
    ensures c in alphabet ==> d < |alphabet| && alphabet[d] == c
    ensures forall j :: 0 <= j < d && j < |alphabet| ==> alphabet[j] != c
  {
    if alphabet == [] || alphabet[0] == c then 0 else 1 + DigitValue(c, alphabet[1..])
  }

  /** The number a string of digits denotes, most significant first. */
  function NumeralValue(s: string, alphabet: string): nat
  {
    if s == [] then 0
    else NumeralValue(s[..|s| - 1], alphabet) * |alphabet| + DigitValue(s[|s| - 1], alphabet)
  }

  lemma DigitValueOfDigit(alphabet: string, k: nat)
    requires Distinct(alphabet) && k < |alphabet|
    ensures DigitValue(alphabet[k], alphabet) == k
  {
  }

  lemma Euclid(v: nat, base: nat)
    requires base >= 1
    ensures v == (v / base) * base + v % base && v % base < base
  {
  }

  lemma QuotientBound(v: nat, base: nat, n: nat)
    requires base >= 1 && n >= 1 && v < Pow(base, n)
    ensures v / base < Pow(base, n - 1)
  {
    var q, p := v / base, Pow(base, n - 1);
    assert q * base <= v;
    assert v < p * base;
    assert q * base < p * base;
  }

  lemma NumeralValueSnoc(t: string, c: char, alphabet: string)
    ensures NumeralValue(t + [c], alphabet) == NumeralValue(t, alphabet) * |alphabet| + DigitValue(c, alphabet)
  {
    assert (t + [c])[..|t|] == t;
  }

  /** Reading a numeral back gives the number it was written from. */
  lemma {:induction false} NumeralRoundTrip(v: nat, width: nat, alphabet: string)
    requires |alphabet| >= 2 && Distinct(alphabet)
    requires v < Pow(|alphabet|, width)
    ensures NumeralValue(Numeral(v, width, alphabet), alphabet) == v
    decreases width
  {
    if width > 0 {
      var b := |alphabet|;
      var q, r := v / b, v % b;
      var t := Numeral(q, width - 1, alphabet);
      QuotientBound(v, b, width);
      NumeralRoundTrip(q, width - 1, alphabet);
      NumeralValueSnoc(t, alphabet[r], alphabet);
      DigitValueOfDigit(alphabet, r);
      Euclid(v, b);
      assert Numeral(v, width, alphabet) == t + [alphabet[r]];
    }
  }

  /** A remainder below the base, added to a multiple of the base, is what division splits off again. */
  lemma DivModOf(q: nat, b: nat, d: nat)
    requires d < b
    ensures (q * b + d) / b == q && (q * b + d) % b == d
  {
    var v := q * b + d;
    Euclid(v, b);
    var q', d' := v / b, v % b;
    assert (q + 1) * b == q * b + b && (q' + 1) * b == q' * b + b;
    MulMonotone(q + 1, q', b);
    MulMonotone(q' + 1, q, b);
  }

  lemma MulMonotone(x: int, y: int, b: nat)
    ensures x <= y ==> x * b <= y * b
  {
    assert y * b == x * b + (y - x) * b;
  }

  lemma SnocBound(q: nat, d: nat, b: nat, p: nat)
    requires q < p && d < b
    ensures q * b + d < b * p
  {
    assert (q + 1) * b == q * b + b;
    MulMonotone(q + 1, p, b);
  }

  /**
   * Every string over the alphabet is the numeral, of its own length, of the
   * number it denotes, and that number is in range.
   */
  lemma {:induction false} ValueRoundTrip(s: string, alphabet: string)
    requires |alphabet| >= 2
    requires forall i :: 0 <= i < |s| ==> s[i] in alphabet
    ensures NumeralValue(s, alphabet) < Pow(|alphabet|, |s|)
    ensures Numeral(NumeralValue(s, alphabet), |s|, alphabet) == s
    decreases |s|
  {
    if |s| > 0 {
      var b := |alphabet|;
      var t, c := s[..|s| - 1], s[|s| - 1];
      assert forall i :: 0 <= i < |t| ==> t[i] == s[i];
      ValueRoundTrip(t, alphabet);
      var q, d := NumeralValue(t, alphabet), DigitValue(c, alphabet);
      assert NumeralValue(s, alphabet) == q * b + d;
      DivModOf(q, b, d);
      assert Numeral(q * b + d, |s|, alphabet) == Numeral(q, |t|, alphabet) + [alphabet[d]];
      assert s == t + [c];
      SnocBound(q, d, b, Pow(b, |t|));
    }
  }
}
