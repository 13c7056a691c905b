/**
 * The pieces of `java.lang` the handlers lean on: 32-bit `int`, `String.equalsIgnoreCase`
 * and the `%d` conversion of `String.format`.
 */
module JavaText {

  import opened Wrappers

  /** Java's `int`. */
  newtype int32 = x: int | -0x8000_0000 <= x < 0x8000_0000

  // ---------------------------------------------------------------------------
  // Case folding, as `Character.toUpperCase` / `Character.toLowerCase` see it.
  // Every ASCII letter is folded; of the non-ASCII characters only the four whose
  // simple case mapping lands on an ASCII letter are listed, the others map to
  // themselves (see README, "Left out").
  // ---------------------------------------------------------------------------

  const LongS: char := '\U{017F}'         // LATIN SMALL LETTER LONG S, upper case 'S'
  const DotlessI: char := '\U{0131}'      // LATIN SMALL LETTER DOTLESS I, upper case 'I'
  const DottedCapitalI: char := '\U{0130}' // LATIN CAPITAL LETTER I WITH DOT ABOVE, lower case 'i'
  const KelvinSign: char := '\U{212A}'    // KELVIN SIGN, lower case 'k'

  function ToUpperCase(c: char): (u: char)
    ensures 'a' <= c <= 'z' ==> 'A' <= u <= 'Z' && u as int - c as int == 'A' as int - 'a' as int
    ensures c < 128 as char ==> (u == c <==> !('a' <= c <= 'z'))
  {
    if 'a' <= c <= 'z' then (c as int - 32) as char
    else if c == LongS then 'S'
    else if c == DotlessI then 'I'
    else c
  }

  function ToLowerCase(c: char): (l: char)
    ensures 'A' <= c <= 'Z' ==> 'a' <= l <= 'z' && l as int - c as int == 'a' as int - 'A' as int
    ensures c < 128 as char ==> (l == c <==> !('A' <= c <= 'Z'))
  {
    if 'A' <= c <= 'Z' then (c as int + 32) as char
    else if c == DottedCapitalI then 'i'
    else if c == KelvinSign then 'k'
    else c
  }

  /** One step of `String.regionMatches(true, ...)`: equal, equal upper cases, or equal lower cases of those. */
  predicate CharsMatchIgnoreCase(c1: char, c2: char)
  {
    c1 == c2
    || ToUpperCase(c1) == ToUpperCase(c2)
    || ToLowerCase(ToUpperCase(c1)) == ToLowerCase(ToUpperCase(c2))
  }

  /** `s.equalsIgnoreCase(other)`; `None` is Java's `null`, which never matches. */
  predicate EqualsIgnoreCase(s: string, other: Option<string>)
  {
    other.Some? && |other.value| == |s|
    && forall i :: 0 <= i < |s| ==> CharsMatchIgnoreCase(s[i], other.value[i])
  }

  /** The canonical case of a character under the comparison above. */
  function Fold(c: char): char
  {
    ToLowerCase(ToUpperCase(c))
  }

  /** `s` with every character folded. */
  function FoldCase(s: string): (f: string)
    ensures |f| == |s|
    ensures forall i :: 0 <= i < |s| ==> f[i] == Fold(s[i])
  {
    seq(|s|, i requires 0 <= i < |s| => Fold(s[i]))
  }

  /** Characters match exactly when they fold to the same character. */
  lemma CharsMatchIffSameFold(c1: char, c2: char)
    ensures CharsMatchIgnoreCase(c1, c2) <==> Fold(c1) == Fold(c2)
  {
  }

  /** `equalsIgnoreCase` is equality of folded strings, length included. */
  lemma EqualsIgnoreCaseIffSameFold(s: string, t: string)
    ensures EqualsIgnoreCase(s, Some(t)) <==> FoldCase(s) == FoldCase(t)
  {
  }

  // ---------------------------------------------------------------------------
  // `%d`: optional minus sign, then decimal digits without grouping or leading zeros.
  // ---------------------------------------------------------------------------

  predicate IsDigit(c: char) { '0' <= c <= '9' }

  function NatToDecimal(n: nat): (s: string)
    ensures |s| > 0
    ensures forall i :: 0 <= i < |s| ==> IsDigit(s[i])
    ensures s[0] == '0' <==> n == 0
    ensures n == 0 ==> s == "0"
    decreases n
  {
    var d := ['0' + (n % 10) as char];
    if n < 10 then d else NatToDecimal(n / 10) + d
  }

  function FormatDecimal(n: int32): (s: string)
    ensures |s| > 0
    ensures s[0] == '-' <==> n < 0
    ensures forall i :: 0 < i < |s| ==> IsDigit(s[i])
    ensures n < 0 ==> |s| >= 2 && s[1] != '0'
    ensures n >= 0 ==> (s[0] == '0' <==> n == 0)
    ensures n == 0 ==> s == "0"
  {
    if n < 0 then "-" + NatToDecimal(-(n as int)) else NatToDecimal(n as int)
  }

  /** Value of a string of decimal digits, most significant first. */
  function DecimalValue(s: string): nat
    requires forall i :: 0 <= i < |s| ==> IsDigit(s[i])
  {
    if s == [] then 0
    else
      assert IsDigit(s[|s| - 1]);
      10 * DecimalValue(s[..|s| - 1]) + (s[|s| - 1] as int - '0' as int)
  }

  /** Reads back what `FormatDecimal` writes; `None` for anything else that is not an `int`. */
  function ParseDecimal(s: string): (r: Option<int32>)
  {
    var neg := |s| > 0 && s[0] == '-';
    var digits := if neg then s[1..] else s;
    if |digits| == 0 || exists i :: 0 <= i < |digits| && !IsDigit(digits[i]) then None
    else
      var v: int := if neg then 0 - DecimalValue(digits) as int else DecimalValue(digits);
      if -0x8000_0000 <= v < 0x8000_0000 then Some(v as int32) else None
  }

  lemma {:induction false} DecimalValueOfNat(n: nat)
    ensures DecimalValue(NatToDecimal(n)) == n
    decreases n
  {
    var s := NatToDecimal(n);
    if n >= 10 {
      DecimalValueOfNat(n / 10);
      assert s[..|s| - 1] == NatToDecimal(n / 10);
    }
  }

  /** `%d` is read back exactly. */
  lemma FormatDecimalRoundTrip(n: int32)
    ensures ParseDecimal(FormatDecimal(n)) == Some(n)
  {
    var s := FormatDecimal(n);
    if n < 0 {
      DecimalValueOfNat(-(n as int));
      assert s[1..] == NatToDecimal(-(n as int));
    } else {
      DecimalValueOfNat(n as int);
    }
  }
}
