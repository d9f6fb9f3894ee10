/**
 * Lengths of Unicode text in UTF-8 bytes and UTF-16 code units, byte offsets
 * that fall on character boundaries, and the two prefix-length helpers of the
 * text-input engine (`len_of_first_n_chars`, `len_of_first_n_code_units`).
 * A Dafny `char` is a Unicode scalar value, like a Rust `char`.
 */
module Unicode {

  /** Bytes in the UTF-8 encoding of `c` (section 3 of RFC 3629). */
  function Utf8Len(c: char): (n: nat)
    ensures 1 <= n <= 4
    ensures n == 1 <==> (c as int) < 0x80
  {
    if (c as int) < 0x80 then 1
    else if (c as int) < 0x800 then 2
    else if (c as int) < 0x10000 then 3
    else 4
  }

  /** Code units in the UTF-16 encoding of `c` (section 2.1 of RFC 2781). */
  function Utf16Len(c: char): (n: nat)
    ensures n == 1 || n == 2
    ensures n == 2 <==> Utf8Len(c) == 4
  {
    if (c as int) < 0x10000 then 1 else 2
  }

  /** `str::len`: the UTF-8 length of a string in bytes. */
  function ByteLen(s: string): (n: nat)
    ensures |s| <= n <= 4 * |s|
  {
    if s == [] then 0 else Utf8Len(s[0]) + ByteLen(s[1..])
  }

  /** The UTF-16 length of a string in code units. */
  function CodeUnits(s: string): (n: nat)
    ensures |s| <= n <= 2 * |s|
  {
    if s == [] then 0 else Utf16Len(s[0]) + CodeUnits(s[1..])
  }

  lemma {:induction false} ByteLenConcat(a: string, b: string)
    ensures ByteLen(a + b) == ByteLen(a) + ByteLen(b)
  {
    if a != [] {
      assert (a + b)[1..] == a[1..] + b;
      ByteLenConcat(a[1..], b);
    } else {
      assert a + b == b;
    }
  }

  lemma {:induction false} CodeUnitsConcat(a: string, b: string)
    ensures CodeUnits(a + b) == CodeUnits(a) + CodeUnits(b)
  {
    if a != [] {
      assert (a + b)[1..] == a[1..] + b;
      CodeUnitsConcat(a[1..], b);
    } else {
      assert a + b == b;
    }
  }

  /** A string of ASCII characters has as many bytes as characters. */
  lemma {:induction false} ByteLenAscii(s: string)
    requires forall i :: 0 <= i < |s| ==> (s[i] as int) < 0x80
    ensures ByteLen(s) == |s|
  {
    if s != [] {
      ByteLenAscii(s[1..]);
    }
  }

  /** Extending a prefix by one character adds that character's bytes. */
  lemma ByteLenStep(s: string, k: nat)
    requires k < |s|
    ensures ByteLen(s[..k + 1]) == ByteLen(s[..k]) + Utf8Len(s[k])
  {
    assert s[..k + 1] == s[..k] + [s[k]];
    ByteLenConcat(s[..k], [s[k]]);
  }

  lemma CodeUnitsStep(s: string, k: nat)
    requires k < |s|
    ensures CodeUnits(s[..k + 1]) == CodeUnits(s[..k]) + Utf16Len(s[k])
  {
    assert s[..k + 1] == s[..k] + [s[k]];
    CodeUnitsConcat(s[..k], [s[k]]);
  }

  /**
   * `str::is_char_boundary`: byte offset `b` of `s` is the start of a
   * character or the end of the string.
   */
  predicate IsCharBoundary(s: string, b: nat)
    decreases |s|
  {
    b == 0 || (s != [] && Utf8Len(s[0]) <= b && IsCharBoundary(s[1..], b - Utf8Len(s[0])))
  }

  /** The number of characters that make up the first `b` bytes of `s`. */
  function CharsBefore(s: string, b: nat): (k: nat)
    requires IsCharBoundary(s, b)
    ensures k <= |s| && ByteLen(s[..k]) == b
    ensures b <= ByteLen(s)
    decreases |s|
  {
    if b == 0 then 0
    else
      var k := 1 + CharsBefore(s[1..], b - Utf8Len(s[0]));
      assert s[..k][1..] == s[1..][..k - 1];
      k
  }

  /** Every prefix of whole characters ends on a boundary, and it is the only prefix of that byte length. */
  lemma {:induction false} PrefixBoundary(s: string, k: nat)
    requires k <= |s|
    ensures IsCharBoundary(s, ByteLen(s[..k]))
    ensures CharsBefore(s, ByteLen(s[..k])) == k
  {
    if k > 0 {
      assert s[..k][1..] == s[1..][..k - 1];
      PrefixBoundary(s[1..], k - 1);
    }
  }

  lemma EndIsBoundary(s: string)
    ensures IsCharBoundary(s, ByteLen(s))
    ensures CharsBefore(s, ByteLen(s)) == |s|
  {
    PrefixBoundary(s, |s|);
    assert s[..|s|] == s;
  }

  /** Longer prefixes have strictly more bytes. */
  lemma {:induction false} ByteLenPrefixStrict(s: string, i: nat, j: nat)
    requires i < j <= |s|
    ensures ByteLen(s[..i]) < ByteLen(s[..j])
    decreases j - i
  {
    ByteLenStep(s, i);
    if i + 1 < j {
      ByteLenPrefixStrict(s, i + 1, j);
    }
  }

  /** A later boundary has at least as many characters before it. */
  lemma CharsBeforeMono(s: string, a: nat, b: nat)
    requires IsCharBoundary(s, a) && IsCharBoundary(s, b) && a <= b
    ensures CharsBefore(s, a) <= CharsBefore(s, b)
  {
    if CharsBefore(s, a) > CharsBefore(s, b) {
      ByteLenPrefixStrict(s, CharsBefore(s, b), CharsBefore(s, a));
    }
  }

  /** `&s[..b]` for a byte offset on a character boundary. */
  function SliceTo(s: string, b: nat): (r: string)
    requires IsCharBoundary(s, b)
    ensures ByteLen(r) == b && r <= s
  {
    s[..CharsBefore(s, b)]
  }

  /** `&s[b..]` for a byte offset on a character boundary. */
  function SliceFrom(s: string, b: nat): (r: string)
    requires IsCharBoundary(s, b)
    ensures ByteLen(r) == ByteLen(s) - b
  {
    var k := CharsBefore(s, b);
    assert s[..k] + s[k..] == s;
    ByteLenConcat(s[..k], s[k..]);
    s[k..]
  }

  /** Slicing at the end of a prefix of whole characters gives that prefix and the rest. */
  lemma SlicesAtPrefix(s: string, k: nat)
    requires k <= |s|
    ensures IsCharBoundary(s, ByteLen(s[..k]))
    ensures SliceTo(s, ByteLen(s[..k])) == s[..k] && SliceFrom(s, ByteLen(s[..k])) == s[k..]
  {
    PrefixBoundary(s, k);
  }

  /** The two slices at a boundary make up the string. */
  lemma SliceSplit(s: string, b: nat)
    requires IsCharBoundary(s, b)
    ensures SliceTo(s, b) + SliceFrom(s, b) == s
  {
    assert s[..CharsBefore(s, b)] + s[CharsBefore(s, b)..] == s;
  }

  /** Slicing a concatenation where its first part ends gives back the two parts. */
  lemma SliceAtJoint(x: string, y: string)
    ensures IsCharBoundary(x + y, ByteLen(x))
    ensures SliceTo(x + y, ByteLen(x)) == x && SliceFrom(x + y, ByteLen(x)) == y
  {
    PrefixBoundary(x + y, |x|);
    assert (x + y)[..|x|] == x;
    assert (x + y)[|x|..] == y;
  }

  /** Slicing at either end of a string. */
  lemma SliceEnds(s: string)
    ensures IsCharBoundary(s, 0) && SliceTo(s, 0) == "" && SliceFrom(s, 0) == s
    ensures IsCharBoundary(s, ByteLen(s)) && SliceTo(s, ByteLen(s)) == s && SliceFrom(s, ByteLen(s)) == ""
  {
    EndIsBoundary(s);
    assert s[..|s|] == s;
  }

  /**
   * Moving forward over the character that starts at boundary `b` reaches the
   * next boundary, and the prefix grows by exactly that character.
   */
  lemma NextBoundary(s: string, b: nat)
    requires IsCharBoundary(s, b) && b < ByteLen(s)
    ensures CharsBefore(s, b) < |s|
    ensures IsCharBoundary(s, b + Utf8Len(s[CharsBefore(s, b)]))
    ensures SliceTo(s, b + Utf8Len(s[CharsBefore(s, b)])) == SliceTo(s, b) + [s[CharsBefore(s, b)]]
  {
    var k := CharsBefore(s, b);
    assert s[..|s|] == s;
    ByteLenStep(s, k);
    PrefixBoundary(s, k + 1);
    assert s[..k + 1] == s[..k] + [s[k]];
  }

  /**
   * Moving backward over the character that ends at boundary `b > 0` reaches
   * the previous boundary, and the prefix loses exactly that character.
   */
  lemma PrevBoundary(s: string, b: nat)
    requires IsCharBoundary(s, b) && b > 0
    ensures CharsBefore(s, b) > 0
    ensures Utf8Len(s[CharsBefore(s, b) - 1]) <= b
    ensures IsCharBoundary(s, b - Utf8Len(s[CharsBefore(s, b) - 1]))
    ensures SliceTo(s, b - Utf8Len(s[CharsBefore(s, b) - 1])) + [s[CharsBefore(s, b) - 1]] == SliceTo(s, b)
  {
    var k := CharsBefore(s, b);
    ByteLenStep(s, k - 1);
    PrefixBoundary(s, k - 1);
    assert s[..k - 1] + [s[k - 1]] == s[..k];
  }

  function Min(a: nat, b: nat): nat { if a <= b then a else b }

  /**
   * `len_of_first_n_chars`: the byte length of the first `n` characters of
   * `text`, or of all of it when it is shorter. The source takes the last of
   * the first `n` `char_indices` and adds that character's length.
   */
  function LenOfFirstNChars(text: string, n: nat): (r: nat)
    ensures r == ByteLen(text[..Min(n, |text|)])
    ensures IsCharBoundary(text, r) && CharsBefore(text, r) == Min(n, |text|)
  {
    var k := Min(n, |text|);
    PrefixBoundary(text, k);
    if k == 0 then 0
    else
      ByteLenStep(text, k - 1);
      ByteLen(text[..k - 1]) + Utf8Len(text[k - 1])
  }

  /**
   * The number of leading characters of `s` whose UTF-16 length fits in `n`
   * code units: the longest prefix that does not split a character.
   */
  function FitCount(s: string, n: nat): (k: nat)
    ensures k <= |s| && CodeUnits(s[..k]) <= n
    ensures k < |s| ==> CodeUnits(s[..k + 1]) > n
    decreases |s|
  {
    if s == [] || Utf16Len(s[0]) > n then
      assert s != [] ==> s[..1] == [s[0]];
      0
    else
      var k := 1 + FitCount(s[1..], n - Utf16Len(s[0]));
      assert s[..k][1..] == s[1..][..k - 1];
      assert k < |s| ==> s[..k + 1][1..] == s[1..][..k];
      k
  }

  /** Prefix code-unit counts grow with the prefix. */
  lemma {:induction false} CodeUnitsPrefixMono(s: string, i: nat, j: nat)
    requires i <= j <= |s|
    ensures CodeUnits(s[..i]) <= CodeUnits(s[..j])
    decreases j - i
  {
    if i < j {
      CodeUnitsStep(s, i);
      CodeUnitsPrefixMono(s, i + 1, j);
    }
  }

  /** The longest fitting prefix is unique. */
  lemma FitCountUnique(s: string, n: nat, k: nat)
    requires k <= |s| && CodeUnits(s[..k]) <= n
    requires k < |s| ==> CodeUnits(s[..k + 1]) > n
    ensures FitCount(s, n) == k
  {
    var f := FitCount(s, n);
    if f < k {
      CodeUnitsPrefixMono(s, f + 1, k);
    } else if k < f {
      CodeUnitsPrefixMono(s, k + 1, f);
    }
  }

  /**
   * `len_of_first_n_code_units`: the byte length of the longest prefix of
   * `text` that fits in `n` UTF-16 code units.
   */
  method LenOfFirstNCodeUnits(text: string, n: nat) returns (r: nat)
    ensures r == ByteLen(text[..FitCount(text, n)])
    ensures IsCharBoundary(text, r) && CharsBefore(text, r) == FitCount(text, n)
  {
    var utf16Val := 0;
    var utf8Val := 0;
    var i := 0;
    while i < |text|
      invariant i <= |text|
      invariant utf16Val == CodeUnits(text[..i]) <= n
      invariant utf8Val == ByteLen(text[..i])
    {
      utf16Val := utf16Val + Utf16Len(text[i]);
      if utf16Val > n {
        CodeUnitsStep(text, i);
        break;
      }
      CodeUnitsStep(text, i);
      ByteLenStep(text, i);
      utf8Val := utf8Val + Utf8Len(text[i]);
      i := i + 1;
    }
    FitCountUnique(text, n, i);
    PrefixBoundary(text, i);
    r := utf8Val;
  }

  /** `saturating_sub` on byte and code-unit counts: subtraction clamped at zero. */
  function SaturatingSub(a: nat, b: nat): (r: nat)
    ensures r <= a
    ensures r == 0 <==> a <= b
    ensures a > b ==> r + b == a
  {
    if a > b then a - b else 0
  }
}
