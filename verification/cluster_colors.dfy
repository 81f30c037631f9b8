/** The cluster palette of src/utils/clusterColors.js: twenty fixed
    `#rrggbb` colours looked up by cluster id, optionally rendered as a
    75%-opaque `rgba(...)` string. */
module ClusterColors {
  import opened Seqs
  import opened Text

  const Palette: seq<string> := [
    "#e45756", "#4e79a7", "#76b7b2", "#f28e2c", "#59a14f",
    "#edc948", "#b07aa1", "#ff9da7", "#9c755f", "#bab0ab",
    "#6a3d9a", "#1f78b4", "#33a02c", "#fb9a99", "#e31a1c",
    "#fdbf6f", "#cab2d6", "#b15928", "#a6cee3", "#b2df8a"
  ]

  const PaletteSize: nat := 20

  predicate IsHexDigit(c: char) {
    ('0' <= c <= '9') || ('a' <= c <= 'f') || ('A' <= c <= 'F')
  }

  predicate IsLowerHexDigit(c: char) {
    ('0' <= c <= '9') || ('a' <= c <= 'f')
  }

  /** '#' followed by exactly six lower-case hexadecimal digits. */
  predicate IsHexColor(s: string) {
    |s| == 7 && s[0] == '#' && forall i :: 1 <= i < 7 ==> IsLowerHexDigit(s[i])
  }

  function HexDigitValue(c: char): (v: nat)
    requires IsHexDigit(c)
    ensures v < 16
  {
    if '0' <= c <= '9' then c as int - '0' as int
    else if 'a' <= c <= 'f' then c as int - 'a' as int + 10
    else c as int - 'A' as int + 10
  }

  function LowerHexDigit(v: nat): (c: char)
    requires v < 16
    ensures IsLowerHexDigit(c)
  {
    if v < 10 then ('0' as int + v) as char else ('a' as int + v - 10) as char
  }

  /** `parseInt(s, 16)` on two hexadecimal digits. */
  function ParseHexPair(s: string): (v: nat)
    requires |s| == 2 && IsHexDigit(s[0]) && IsHexDigit(s[1])
    ensures v < 256
  {
    HexDigitValue(s[0]) * 16 + HexDigitValue(s[1])
  }

  /** Two lower-case hexadecimal digits for a byte. */
  function HexPair(v: nat): (s: string)
    requires v < 256
    ensures |s| == 2 && IsLowerHexDigit(s[0]) && IsLowerHexDigit(s[1])
  {
    [LowerHexDigit(v / 16), LowerHexDigit(v % 16)]
  }

  /** Parsing a printed byte gives the byte back. */
  lemma ParseHexPairOfHexPair(v: nat)
    requires v < 256
    ensures ParseHexPair(HexPair(v)) == v
  {
  }

  /** Printing a parsed lower-case pair gives the pair back. */
  lemma HexPairOfParseHexPair(s: string)
    requires |s| == 2 && IsLowerHexDigit(s[0]) && IsLowerHexDigit(s[1])
    ensures HexPair(ParseHexPair(s)) == s
  {
    var v := ParseHexPair(s);
    assert v / 16 == HexDigitValue(s[0]) && v % 16 == HexDigitValue(s[1]);
  }

  lemma PaletteWellFormed()
    ensures |Palette| == PaletteSize
    ensures forall i :: 0 <= i < |Palette| ==> IsHexColor(Palette[i])
  {
  }

  /** The twenty colours are pairwise different, so ids 0..19 get twenty
      different colours. */
  lemma PaletteDistinct()
    ensures Distinct(Palette)
  {
    PaletteWellFormed();
    PaletteTags();
    TagsDistinct();
    forall i, j | 0 <= i < j < |Palette| ensures Palette[i] != Palette[j] {
      assert Tag(Palette[i]) != Tag(Palette[j]);
    }
  }

  /** The byte formed by the first two hex digits of a colour. */
  function Tag(s: string): nat
    requires IsHexColor(s)
  {
    HexDigitValue(s[1]) * 16 + HexDigitValue(s[2])
  }

  const PaletteTagValues: seq<nat> := [0xe4, 0x4e, 0x76, 0xf2, 0x59, 0xed, 0xb0, 0xff, 0x9c, 0xba,
                                        0x6a, 0x1f, 0x33, 0xfb, 0xe3, 0xfd, 0xca, 0xb1, 0xa6, 0xb2]

  lemma PaletteTags()
    ensures forall i :: 0 <= i < |Palette| ==> IsHexColor(Palette[i]) && Tag(Palette[i]) == PaletteTagValues[i]
  {
    PaletteWellFormed();
  }

  /** Where each tag sits in `PaletteTagValues`: a left inverse, so no tag
      occurs twice. */
  const TagPosition: map<nat, nat> := map[
    0xe4 := 0, 0x4e := 1, 0x76 := 2, 0xf2 := 3, 0x59 := 4, 0xed := 5, 0xb0 := 6,
    0xff := 7, 0x9c := 8, 0xba := 9, 0x6a := 10, 0x1f := 11, 0x33 := 12, 0xfb := 13,
    0xe3 := 14, 0xfd := 15, 0xca := 16, 0xb1 := 17, 0xa6 := 18, 0xb2 := 19]

  lemma TagsDistinct()
    ensures Distinct(PaletteTagValues)
  {
    var t := PaletteTagValues;
    assert forall i :: 0 <= i < |t| ==> t[i] in TagPosition && TagPosition[t[i]] == i;
  }

  /** The red, green and blue bytes of a `#rrggbb` colour. */
  datatype Rgb = Rgb(r: nat, g: nat, b: nat)

  function Channels(hex: string): (c: Rgb)
    requires IsHexColor(hex)
    ensures c.r < 256 && c.g < 256 && c.b < 256
    ensures "#" + HexPair(c.r) + HexPair(c.g) + HexPair(c.b) == hex
  {
    var c := Rgb(ParseHexPair(hex[1..3]), ParseHexPair(hex[3..5]), ParseHexPair(hex[5..7]));
    HexPairOfParseHexPair(hex[1..3]);
    HexPairOfParseHexPair(hex[3..5]);
    HexPairOfParseHexPair(hex[5..7]);
    assert hex == [hex[0]] + hex[1..3] + hex[3..5] + hex[5..7];
    c
  }

  /** `rgba(${r},${g},${b},.75)`. */
  function RgbaString(c: Rgb): string {
    "rgba(" + NatToString(c.r) + "," + NatToString(c.g) + "," + NatToString(c.b) + ",.75)"
  }

  /** `colorForCluster(id, { transparent })` for a non-negative id: the
      palette entry at `id % 20`, or that colour's bytes as rgba when
      `transparent` is set. */
  function ColorForCluster(id: nat, transparent: bool): (color: string)
    ensures !transparent ==> color == Palette[id % PaletteSize] && IsHexColor(color)
    ensures transparent ==> exists c: Rgb ::
      && c.r < 256 && c.g < 256 && c.b < 256
      && "#" + HexPair(c.r) + HexPair(c.g) + HexPair(c.b) == Palette[id % PaletteSize]
      && color == RgbaString(c)
  {
    PaletteWellFormed();
    var base := Palette[id % PaletteSize];
    if transparent then RgbaString(Channels(base)) else base
  }

  /** Colours repeat with period 20. */
  lemma ColorPeriodic(id: nat, transparent: bool)
    ensures ColorForCluster(id + PaletteSize, transparent) == ColorForCluster(id, transparent)
  {
    assert (id + PaletteSize) % PaletteSize == id % PaletteSize;
  }

  /** Ids in one period get different solid colours. */
  lemma ColorsDistinctInPeriod(i: nat, j: nat)
    requires i < j < PaletteSize
    ensures ColorForCluster(i, false) != ColorForCluster(j, false)
  {
    PaletteDistinct();
  }

  /** No palette colour is black, the colour reserved for outliers. */
  lemma PaletteHasNoBlack()
    ensures forall i :: 0 <= i < |Palette| ==> Palette[i] != "#000000"
  {
  }
}
