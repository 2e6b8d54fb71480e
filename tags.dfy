/**
 * Data element tags and their textual keys.
 *
 * A tag is the (group, element) pair of section 7.1.1 of DICOM PS3.5, each
 * half an unsigned 16-bit number. The database names tags by keys of the
 * form "GGGG,EEEE": two zero-filled hexadecimal numbers separated by a comma.
 * `TagToGroupElement` reads such a key back into a tag.
 */
module Tags {
  import opened Wrappers

  /** The C++ `unsigned short`. */
  newtype uint16 = x: int | 0 <= x < 0x1_0000

  datatype Tag = Tag(group: uint16, element: uint16)

  /** Tags of the DICOM data dictionary that identify the four hierarchy levels. */
  const PatientId := Tag(0x0010, 0x0020)
  const StudyInstanceUid := Tag(0x0020, 0x000D)
  const SeriesInstanceUid := Tag(0x0020, 0x000E)
  const SopInstanceUid := Tag(0x0008, 0x0018)

  predicate IsHexDigit(c: char) {
    '0' <= c <= '9' || 'a' <= c <= 'f' || 'A' <= c <= 'F'
  }

  /** The digits the formatter writes: no upper-case letters. */
  predicate IsLowerHexDigit(c: char) {
    '0' <= c <= '9' || 'a' <= c <= 'f'
  }

  predicate IsHexString(s: string) {
    forall i | 0 <= i < |s| :: IsHexDigit(s[i])
  }

  predicate IsLowerHexString(s: string) {
    forall i | 0 <= i < |s| :: IsLowerHexDigit(s[i])
  }

  function DigitValue(c: char): (d: nat)
    requires IsHexDigit(c)
    ensures d < 16
  {
    if c <= '9' then c as int - '0' as int
    else if c <= 'F' then c as int - 'A' as int + 10
    else c as int - 'a' as int + 10
  }

  function HexDigit(d: nat): (c: char)
    requires d < 16
    ensures IsLowerHexDigit(c) && DigitValue(c) == d
  {
    if d < 10 then ('0' as int + d) as char else ('a' as int + d - 10) as char
  }

  lemma HexDigitOfValue(c: char)
    requires IsLowerHexDigit(c)
    ensures HexDigit(DigitValue(c)) == c
  {
  }

  /** The number a string of hex digits denotes, most significant digit first. */
  function HexValue(s: string): nat
    requires IsHexString(s)
  {
    if s == [] then 0 else HexValue(s[..|s| - 1]) * 16 + DigitValue(s[|s| - 1])
  }

  function Pow16(width: nat): (p: nat)
    ensures p >= 1
  {
    if width == 0 then 1 else 16 * Pow16(width - 1)
  }

  /** `n` written with exactly `width` zero-filled lower-case hex digits (the low digits of `n`). */
  function HexDigits(n: nat, width: nat): (s: string)
    ensures |s| == width && IsLowerHexString(s)
  {
    if width == 0 then [] else HexDigits(n / 16, width - 1) + [HexDigit(n % 16)]
  }

  /** Writing a number that fits in `width` digits and reading it back gives the number. */
  lemma {:induction false} HexDigitsValue(n: nat, width: nat)
    requires n < Pow16(width)
    ensures IsHexString(HexDigits(n, width)) && HexValue(HexDigits(n, width)) == n
  {
    if width > 0 {
      var s := HexDigits(n, width);
      assert s[..|s| - 1] == HexDigits(n / 16, width - 1);
      HexDigitsValue(n / 16, width - 1);
    }
  }

  /** Reading a lower-case digit string and writing it back at its own width gives the string. */
  lemma {:induction false} ValueHexDigits(s: string)
    requires IsLowerHexString(s)
    ensures IsHexString(s) && HexValue(s) < Pow16(|s|) && HexDigits(HexValue(s), |s|) == s
  {
    if s != [] {
      var init, last := s[..|s| - 1], s[|s| - 1];
      assert IsLowerHexString(init);
      ValueHexDigits(init);
      var v := HexValue(s);
      assert v == HexValue(init) * 16 + DigitValue(last);
      assert v / 16 == HexValue(init) && v % 16 == DigitValue(last);
      HexDigitOfValue(last);
      assert s == init + [last];
    }
  }

  /** The key of a tag: "GGGG,EEEE" in zero-filled hex. */
  function FormatTag(t: Tag): (key: string)
    ensures IsCanonicalKey(key)
  {
    HexDigits(t.group as nat, 4) + "," + HexDigits(t.element as nat, 4)
  }

  /** The keys `FormatTag` writes: four lower-case hex digits, a comma, four more. */
  predicate IsCanonicalKey(key: string) {
    |key| == 9 && key[4] == ',' && IsLowerHexString(key[..4]) && IsLowerHexString(key[5..])
  }

  /** A hex number that fits in an `unsigned short`; empty or non-hex text does not. */
  function ParseHex16(s: string): Option<uint16> {
    if s != [] && IsHexString(s) && HexValue(s) < 0x1_0000 then Some(HexValue(s) as uint16) else None
  }

  function IndexOf(s: string, c: char): (i: nat)
    requires c in s
    ensures i < |s| && s[i] == c && c !in s[..i]
  {
    if s[0] == c then 0 else 1 + IndexOf(s[1..], c)
  }

  /**
   * tagToGroupElement: the key must split at a comma into exactly two parts,
   * each a hexadecimal number within the `unsigned short` range.
   */
  function TagToGroupElement(key: string): Option<Tag> {
    if ',' !in key then None
    else
      var i := IndexOf(key, ',');
      var g, e := key[..i], key[i + 1..];
      if ',' in e then None
      else
        match (ParseHex16(g), ParseHex16(e))
        case (Some(group), Some(element)) => Some(Tag(group, element))
        case _ => None
  }

  /** `s` is non-empty hex text denoting `v`. */
  predicate HexField(s: string, v: uint16) {
    s != [] && IsHexString(s) && HexValue(s) == v as nat
  }

  /** An independent description of the keys that name `t`: hex, comma, hex. */
  ghost predicate SplitsAs(key: string, t: Tag) {
    exists i | 0 <= i < |key| :: key[i] == ',' && HexField(key[..i], t.group) && HexField(key[i + 1..], t.element)
  }

  lemma HexHasNoComma(s: string)
    requires IsHexString(s)
    ensures ',' !in s
  {
  }

  /** The parser accepts exactly the keys that split as hex, comma, hex, and yields their values. */
  lemma TagToGroupElementMeaning(key: string, t: Tag)
    ensures TagToGroupElement(key) == Some(t) <==> SplitsAs(key, t)
  {
    if TagToGroupElement(key) == Some(t) {
      var i := IndexOf(key, ',');
      assert key[i] == ',' && HexField(key[..i], t.group) && HexField(key[i + 1..], t.element);
    }
    if SplitsAs(key, t) {
      var i :| 0 <= i < |key| && key[i] == ',' && HexField(key[..i], t.group) && HexField(key[i + 1..], t.element);
      HexHasNoComma(key[..i]);
      HexHasNoComma(key[i + 1..]);
      var j := IndexOf(key, ',');
      assert j == i;
    }
  }

  /** Round trip: the key of any tag parses back to that tag. */
  lemma TagRoundTrip(t: Tag)
    ensures TagToGroupElement(FormatTag(t)) == Some(t)
  {
    var g, e := HexDigits(t.group as nat, 4), HexDigits(t.element as nat, 4);
    HexDigitsValue(t.group as nat, 4);
    HexDigitsValue(t.element as nat, 4);
    var key := FormatTag(t);
    assert key[..4] == g && key[4] == ',' && key[5..] == e;
    assert SplitsAs(key, t);
    TagToGroupElementMeaning(key, t);
  }

  /** Round trip the other way: a canonical key is the key of the tag it parses to. */
  lemma CanonicalKeyRoundTrip(key: string)
    requires IsCanonicalKey(key)
    ensures TagToGroupElement(key).Some? && FormatTag(TagToGroupElement(key).value) == key
  {
    var g, e := key[..4], key[5..];
    ValueHexDigits(g);
    ValueHexDigits(e);
    var t := Tag(HexValue(g) as uint16, HexValue(e) as uint16);
    assert key[..4] == g && key[4 + 1..] == e;
    assert SplitsAs(key, t);
    TagToGroupElementMeaning(key, t);
    assert key == g + "," + e;
  }

  /** Distinct tags have distinct keys. */
  lemma FormatTagInjective(t1: Tag, t2: Tag)
    ensures FormatTag(t1) == FormatTag(t2) <==> t1 == t2
  {
    TagRoundTrip(t1);
    TagRoundTrip(t2);
  }
}
