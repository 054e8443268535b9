/** What `add_barcode_quality_tag_to_sam` does to the lines of a SAM file,
    stated as functions: header lines (SAM v1 format, section 1.3) are copied;
    an alignment line gets five optional fields (section 1.5) after its first
    read-group field `RG:Z:...`. */
module SamTags {
  import opened Text

  datatype Option<T> = None | Some(value: T)

  const Tab: char := '\t'
  const HeaderMarker: string := "@"
  const RgPrefix: string := "RG:Z:"
  /** The constant base quality of the cell barcode: 16 `F`s. */
  const BarcodeQuality: string := "CY:Z:FFFFFFFFFFFFFFFF"
  /** The constant base quality of the UMI: 10 `F`s. */
  const UmiQuality: string := "UY:Z:FFFFFFFFFF"
  const Bases: string := "ATGC"
  const UmiLength: nat := 10

  /** One draw of `random.choice("ATGC")`: the index of the chosen base. */
  newtype Pick = x: int | 0 <= x < 4

  predicate IsHeader(line: string) {
    StartsWith(line, HeaderMarker)
  }

  predicate IsRgField(field: string) {
    StartsWith(field, RgPrefix)
  }

  /** A UMI as the patcher draws it: ten characters from `ATGC`. */
  predicate IsUmi(u: string) {
    |u| == UmiLength && forall j :: 0 <= j < |u| ==> u[j] in Bases
  }

  /** The bases that a run of draws picks, joined into one string. */
  function UmiOf(draws: seq<Pick>): (u: string)
    ensures |u| == |draws|
    ensures forall j :: 0 <= j < |draws| ==> u[j] == Bases[draws[j]]
  {
    if draws == [] then [] else UmiOf(draws[..|draws| - 1]) + [Bases[draws[|draws| - 1]]]
  }

  /** Ten draws make a well-formed UMI. */
  lemma DrawnUmiIsUmi(draws: seq<Pick>)
    requires |draws| == UmiLength
    ensures IsUmi(UmiOf(draws))
  {
    var u := UmiOf(draws);
    forall j | 0 <= j < |u| ensures u[j] in Bases {
      assert u[j] == Bases[draws[j]];
    }
  }

  /** Index of the first field that starts with `RG:Z:`, or None. */
  function FirstRg(fields: seq<string>): (r: Option<nat>)
    ensures r.Some? ==> r.value < |fields| && IsRgField(fields[r.value])
    ensures r.Some? ==> forall j :: 0 <= j < r.value ==> !IsRgField(fields[j])
    ensures r.None? ==> forall j :: 0 <= j < |fields| ==> !IsRgField(fields[j])
  {
    if fields == [] then None
    else if IsRgField(fields[0]) then Some(0)
    else match FirstRg(fields[1..])
      case None => None
      case Some(k) => Some(k + 1)
  }

  /** The five fields inserted, in order, for a barcode and a UMI. */
  function TagFields(barcode: string, umi: string): seq<string>
  {
    ["CR:Z:" + barcode, BarcodeQuality, "CB:Z:" + barcode + "-1", "UR:Z:" + umi, UmiQuality]
  }

  /** The field list with the five fields placed directly after field `k`. */
  function WithTags(fields: seq<string>, k: nat, barcode: string, umi: string): seq<string>
    requires k < |fields|
  {
    fields[..k + 1] + TagFields(barcode, umi) + fields[k + 1..]
  }

  /** An alignment line with an `RG:Z:` field: the lines that consume a UMI. */
  predicate Tagged(line: string) {
    !IsHeader(line) && FirstRg(Split(line, Tab)).Some?
  }

  /** The line written for `line`; `draws` are the draws still to come from
      the random source, of which a tagged line uses the first ten. */
  function PatchLine(line: string, barcode: string, draws: seq<Pick>): string
    requires Tagged(line) ==> |draws| >= UmiLength
  {
    if IsHeader(line) then line
    else
      var fields := Split(line, Tab);
      match FirstRg(fields)
      case None => Join(fields, Tab)
      case Some(k) => Join(WithTags(fields, k, barcode, UmiOf(draws[..UmiLength])), Tab)
  }

  /** How many lines of `lines` consume a UMI. */
  function TaggedCount(lines: seq<string>): (n: nat)
    ensures n <= |lines|
  {
    if lines == [] then 0
    else (if Tagged(lines[0]) then 1 else 0) + TaggedCount(lines[1..])
  }

  /** The draws left once `line` has been handled: a tagged line takes ten. */
  function DrawsAfter(line: string, draws: seq<Pick>): seq<Pick>
    requires Tagged(line) ==> |draws| >= UmiLength
  {
    if Tagged(line) then draws[UmiLength..] else draws
  }

  /** The lines written for `lines`, drawing the UMIs from `draws` in order. */
  function PatchAll(lines: seq<string>, barcode: string, draws: seq<Pick>): (out: seq<string>)
    requires UmiLength * TaggedCount(lines) <= |draws|
    ensures |out| == |lines|
  {
    if lines == [] then []
    else [PatchLine(lines[0], barcode, draws)] + PatchAll(lines[1..], barcode, DrawsAfter(lines[0], draws))
  }

  // ------------------------------------------------------------ per line

  /** A header line, and an alignment line with no `RG:Z:` field, is written
      exactly as it was read. */
  lemma UntaggedLineUnchanged(line: string, barcode: string, draws: seq<Pick>)
    requires !Tagged(line)
    ensures PatchLine(line, barcode, draws) == line
  {
    if !IsHeader(line) {
      JoinSplit(line, Tab);
    }
  }

  /** The inserted fields bring no tab and no newline unless the barcode does. */
  lemma TagFieldsAvoid(barcode: string, umi: string, c: char)
    requires c == Tab || c == Newline
    requires c !in barcode && IsUmi(umi)
    ensures NoneContain(TagFields(barcode, umi), c)
  {
    forall j | 0 <= j < |umi| ensures umi[j] != c {
      assert umi[j] in Bases;
    }
    assert c !in "CR:Z:" + barcode;
    assert c !in "CB:Z:" + barcode + "-1";
    assert c !in "UR:Z:" + umi;
  }

  /** Inserting the tags into fields free of a tab (or of a newline) keeps them so. */
  lemma {:induction false} WithTagsAvoid(fields: seq<string>, k: nat, barcode: string, umi: string, c: char)
    requires k < |fields|
    requires c == Tab || c == Newline
    requires NoneContain(fields, c) && c !in barcode && IsUmi(umi)
    ensures NoneContain(WithTags(fields, k, barcode, umi), c)
  {
    var tags := TagFields(barcode, umi);
    var out := WithTags(fields, k, barcode, umi);
    TagFieldsAvoid(barcode, umi, c);
    forall j | 0 <= j < |out| ensures c !in out[j] {
      if j <= k {
        assert out[j] == fields[j];
      } else if j > k + 5 {
        assert out[j] == fields[j - 5];
      } else {
        assert out[j] == tags[j - k - 1];
      }
    }
  }

  /** None of the inserted fields is an `RG:Z:` field placed before the first. */
  lemma {:induction false} WithTagsKeepsFirstRg(fields: seq<string>, k: nat, barcode: string, umi: string)
    requires FirstRg(fields) == Some(k)
    ensures FirstRg(WithTags(fields, k, barcode, umi)) == Some(k)
  {
    var out := WithTags(fields, k, barcode, umi);
    forall j | 0 <= j < k ensures !IsRgField(out[j]) { assert out[j] == fields[j]; }
    assert out[k] == fields[k];
  }

  /** The fields of a patched line: the original fields up to and including the
      first `RG:Z:` field, the five tags, then the remaining original fields, and
      the first `RG:Z:` field is still where it was. Holds when the barcode has
      no tab (the patcher does not check this). */
  lemma {:induction false} TaggedLineFields(line: string, barcode: string, draws: seq<Pick>)
    requires Tagged(line) && |draws| >= UmiLength
    requires Tab !in barcode
    ensures var fields := Split(line, Tab);
            var k := FirstRg(fields).value;
            var out := Split(PatchLine(line, barcode, draws), Tab);
            |out| == |fields| + 5 &&
            out[..k + 1] == fields[..k + 1] &&
            out[k + 1..k + 6] == TagFields(barcode, UmiOf(draws[..UmiLength])) &&
            out[k + 6..] == fields[k + 1..] &&
            FirstRg(out) == Some(k)
  {
    var fields := Split(line, Tab);
    var k := FirstRg(fields).value;
    var umi := UmiOf(draws[..UmiLength]);
    var tagged := WithTags(fields, k, barcode, umi);
    DrawnUmiIsUmi(draws[..UmiLength]);
    WithTagsAvoid(fields, k, barcode, umi, Tab);
    WithTagsKeepsFirstRg(fields, k, barcode, umi);
    SplitJoin(tagged, Tab);
    assert PatchLine(line, barcode, draws) == Join(tagged, Tab);
    WithTagsParts(fields, k, barcode, umi);
  }

  /** The three parts of the fields once the tags are in. */
  lemma WithTagsParts(fields: seq<string>, k: nat, barcode: string, umi: string)
    requires k < |fields|
    ensures var w := WithTags(fields, k, barcode, umi);
            |w| == |fields| + 5 &&
            w[..k + 1] == fields[..k + 1] &&
            w[k + 1..k + 6] == TagFields(barcode, umi) &&
            w[k + 6..] == fields[k + 1..]
  {
    var w := WithTags(fields, k, barcode, umi);
    assert w[..k + 1] == fields[..k + 1];
    assert w[k + 1..k + 6] == TagFields(barcode, umi);
    assert w[k + 6..] == fields[k + 1..];
  }

  // ------------------------------------------------------------ whole files

  lemma {:induction false} TaggedCountAppend(a: seq<string>, b: seq<string>)
    ensures TaggedCount(a + b) == TaggedCount(a) + TaggedCount(b)
    decreases |a|
  {
    if a == [] {
      assert a + b == b;
    } else {
      var ab := a + b;
      assert ab[0] == a[0] && ab[1..] == a[1..] + b;
      TaggedCountAppend(a[1..], b);
      assert TaggedCount(ab) == (if Tagged(a[0]) then 1 else 0) + TaggedCount(ab[1..]);
    }
  }

  /** The tagged lines among the first `i + 1`. */
  lemma {:induction false} TaggedCountPrefix(lines: seq<string>, i: nat)
    requires i < |lines|
    ensures TaggedCount(lines[..i + 1]) == TaggedCount(lines[..i]) + (if Tagged(lines[i]) then 1 else 0)
    ensures TaggedCount(lines[..i + 1]) <= TaggedCount(lines)
  {
    TaggedCountAppend(lines[..i], [lines[i]]);
    assert lines[..i] + [lines[i]] == lines[..i + 1];
    var one := [lines[i]];
    assert one[1..] == [];
    assert TaggedCount(one) == (if Tagged(lines[i]) then 1 else 0) + TaggedCount(one[1..]);
    TaggedCountAppend(lines[..i + 1], lines[i + 1..]);
    assert lines[..i + 1] + lines[i + 1..] == lines;
  }

  /** The tagged lines among the first `i + 1` lines are those among the first
      line and the `i` lines after it. */
  lemma TaggedCountCons(lines: seq<string>, i: nat)
    requires 0 < i <= |lines|
    ensures TaggedCount(lines[..i]) == (if Tagged(lines[0]) then 1 else 0) + TaggedCount(lines[1..][..i - 1])
  {
    var p := lines[..i];
    assert p[0] == lines[0] && p[1..] == lines[1..][..i - 1];
  }

  /** The `i`-th written line is the `i`-th read line, patched with the draws
      left after the tagged lines before it have taken theirs. */
  lemma {:induction false} PatchAllAt(lines: seq<string>, barcode: string, draws: seq<Pick>, i: nat)
    requires UmiLength * TaggedCount(lines) <= |draws|
    requires i < |lines|
    ensures TaggedCount(lines[..i + 1]) == TaggedCount(lines[..i]) + (if Tagged(lines[i]) then 1 else 0)
    ensures UmiLength * TaggedCount(lines[..i + 1]) <= |draws|
    ensures PatchAll(lines, barcode, draws)[i]
         == PatchLine(lines[i], barcode, draws[UmiLength * TaggedCount(lines[..i])..])
    decreases i
  {
    TaggedCountPrefix(lines, i);
    if i == 0 {
      assert lines[..0] == [];
      assert draws[0..] == draws;
    } else {
      var rest := DrawsAfter(lines[0], draws);
      var tail := lines[1..];
      PatchAllTail(lines, barcode, draws, i);
      PatchAllAt(tail, barcode, rest, i - 1);
      TaggedCountCons(lines, i);
      DrawsShift(draws, TaggedCount(lines[..i]), Tagged(lines[0]), TaggedCount(tail[..i - 1]));
    }
  }

  /** Written line `i > 0` is line `i - 1` of what the rest of the file is
      written as, with the draws the first line left. */
  lemma PatchAllTail(lines: seq<string>, barcode: string, draws: seq<Pick>, i: nat)
    requires UmiLength * TaggedCount(lines) <= |draws|
    requires 0 < i < |lines|
    ensures Tagged(lines[0]) ==> |draws| >= UmiLength
    ensures UmiLength * TaggedCount(lines[1..]) <= |DrawsAfter(lines[0], draws)|
    ensures PatchAll(lines, barcode, draws)[i]
         == PatchAll(lines[1..], barcode, DrawsAfter(lines[0], draws))[i - 1]
  {
  }

  /** Taking ten draws for the first line and then ten for each of `m` more
      lines leaves what taking ten for each of the `k` lines leaves. */
  lemma DrawsShift(draws: seq<Pick>, k: nat, first: bool, m: nat)
    requires k == (if first then 1 else 0) + m
    requires UmiLength * k <= |draws|
    ensures draws[UmiLength * k..]
         == (if first then draws[UmiLength..] else draws)[UmiLength * m..]
  {
  }

  /** A file of one line is written as that line, patched. */
  lemma PatchAllOne(line: string, barcode: string, draws: seq<Pick>)
    requires Tagged(line) ==> |draws| >= UmiLength
    ensures UmiLength * TaggedCount([line]) <= |draws|
    ensures PatchAll([line], barcode, draws) == [PatchLine(line, barcode, draws)]
  {
    assert [line][1..] == [];
  }

  /** A line followed by a line without an `RG:Z:` field: the second is
      written as it was read, whatever the first took from the draws. */
  lemma PatchAllThenUntagged(l1: string, l2: string, barcode: string, draws: seq<Pick>)
    requires Tagged(l1) ==> |draws| >= UmiLength
    requires !Tagged(l2)
    ensures UmiLength * TaggedCount([l1, l2]) <= |draws|
    ensures PatchAll([l1, l2], barcode, draws) == [PatchLine(l1, barcode, draws), l2]
  {
    var rest := DrawsAfter(l1, draws);
    assert [l1, l2][1..] == [l2];
    PatchAllOne(l2, barcode, rest);
    UntaggedLineUnchanged(l2, barcode, rest);
  }

  /** A file with no line to tag is written back exactly as it was read. */
  lemma {:induction false} NothingToTagNothingChanges(lines: seq<string>, barcode: string, draws: seq<Pick>)
    requires TaggedCount(lines) == 0
    ensures PatchAll(lines, barcode, draws) == lines
    decreases |lines|
  {
    if lines != [] {
      UntaggedLineUnchanged(lines[0], barcode, draws);
      NothingToTagNothingChanges(lines[1..], barcode, draws);
      assert lines == [lines[0]] + lines[1..];
    }
  }

  /** At file level: the text written when no line has an `RG:Z:` field is
      the text read. */
  lemma UntaggedFileUnchanged(text: string, barcode: string, draws: seq<Pick>)
    requires TaggedCount(ReadLines(text)) == 0
    ensures Concat(PatchAll(ReadLines(text), barcode, draws)) == text
  {
    NothingToTagNothingChanges(ReadLines(text), barcode, draws);
    ConcatReadLines(text);
  }
}
