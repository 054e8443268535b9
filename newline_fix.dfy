/** The line terminator. `readlines` leaves the newline on each line and
    `split('\t')` leaves it on the last field, so when the first `RG:Z:` field
    is the last field of a record the five tags are written after the newline:
    the record keeps no tags and the tags start the next record. This module
    states that, and proves the correction (split the line without its
    newline, put the newline back after the join) keeps one record per record. */
module NewlineFix {
  import opened Text
  import opened SamTags

  // ------------------------------------------------------------ as written

  /** When the first `RG:Z:` field is the last field, the patched line is the
      whole input line, newline included, followed by a tab and the tags. */
  lemma {:induction false} RgLastTagsAfterLine(line: string, barcode: string, draws: seq<Pick>)
    requires Tagged(line) && |draws| >= UmiLength
    requires FirstRg(Split(line, Tab)).value == |Split(line, Tab)| - 1
    ensures PatchLine(line, barcode, draws)
         == line + [Tab] + Join(TagFields(barcode, UmiOf(draws[..UmiLength])), Tab)
  {
    var fields := Split(line, Tab);
    var k := |fields| - 1;
    var tags := TagFields(barcode, UmiOf(draws[..UmiLength]));
    assert fields[..k + 1] == fields && fields[k + 1..] == [];
    assert WithTags(fields, k, barcode, UmiOf(draws[..UmiLength])) == fields + tags;
    JoinAppend(fields, tags, Tab);
    JoinSplit(line, Tab);
  }

  lemma {:induction false} JoinTagsShape(barcode: string, umi: string)
    requires Newline !in barcode && IsUmi(umi)
    ensures var j := Join(TagFields(barcode, umi), Tab);
            IsLine(j) && !EndsWithNewline(j)
  {
    var tags := TagFields(barcode, umi);
    TagFieldsAvoid(barcode, umi, Newline);
    JoinAvoids(tags, Tab, Newline);
    assert tags == tags[..4] + [UmiQuality];
    JoinAppend(tags[..4], [UmiQuality], Tab);
    var j := Join(tags, Tab);
    assert j[|j| - 1] == 'F';
    assert j == j[..|j| - 1] + [j[|j| - 1]];
  }

  lemma TabThenTagsIsLine(barcode: string, umi: string)
    requires Newline !in barcode && IsUmi(umi)
    ensures IsLine([Tab] + Join(TagFields(barcode, umi), Tab))
  {
    var j := Join(TagFields(barcode, umi), Tab);
    var tail := [Tab] + j;
    JoinTagsShape(barcode, umi);
    assert tail[..|tail| - 1] == [Tab] + j[..|j| - 1];
  }

  /** A file whose only record ends in its first `RG:Z:` field is read back,
      after patching, as two records: the input record untouched, then a record
      made of a tab and the five tags. */
  lemma {:induction false} RgLastRecordSplitsInTwo(line: string, barcode: string, draws: seq<Pick>)
    requires IsLine(line) && EndsWithNewline(line)
    requires Tagged(line) && |draws| >= UmiLength
    requires FirstRg(Split(line, Tab)).value == |Split(line, Tab)| - 1
    requires Newline !in barcode
    ensures ReadLines(Concat(PatchAll([line], barcode, draws)))
         == [line, [Tab] + Join(TagFields(barcode, UmiOf(draws[..UmiLength])), Tab)]
  {
    var umi := UmiOf(draws[..UmiLength]);
    var tail := [Tab] + Join(TagFields(barcode, umi), Tab);
    RgLastFileText(line, barcode, draws);
    DrawnUmiIsUmi(draws[..UmiLength]);
    TabThenTagsIsLine(barcode, umi);
    ReadLinesTwo(line, tail);
  }

  /** The text written for such a one-record file. */
  lemma RgLastFileText(line: string, barcode: string, draws: seq<Pick>)
    requires Tagged(line) && |draws| >= UmiLength
    requires FirstRg(Split(line, Tab)).value == |Split(line, Tab)| - 1
    ensures UmiLength * TaggedCount([line]) <= |draws|
    ensures Concat(PatchAll([line], barcode, draws))
         == line + ([Tab] + Join(TagFields(barcode, UmiOf(draws[..UmiLength])), Tab))
  {
    RgLastTagsAfterLine(line, barcode, draws);
    PatchAllOne(line, barcode, draws);
    ConcatOne(PatchLine(line, barcode, draws));
  }

  /** In a longer file it is worse: a record ending in its first `RG:Z:`
      field, followed by an untagged record, reads back as the first record
      untouched, then one record made of a tab, the five tags and, glued to
      the last tag with no separator, the whole second record. */
  lemma RgLastGluesToNext(l1: string, l2: string, barcode: string, draws: seq<Pick>)
    requires IsLine(l1) && EndsWithNewline(l1)
    requires Tagged(l1) && |draws| >= UmiLength
    requires FirstRg(Split(l1, Tab)).value == |Split(l1, Tab)| - 1
    requires IsLine(l2) && !Tagged(l2)
    requires Newline !in barcode
    ensures UmiLength * TaggedCount([l1, l2]) <= |draws|
    ensures ReadLines(Concat(PatchAll([l1, l2], barcode, draws)))
         == [l1, [Tab] + Join(TagFields(barcode, UmiOf(draws[..UmiLength])), Tab) + l2]
  {
    var umi := UmiOf(draws[..UmiLength]);
    RgLastTwoText(l1, l2, barcode, draws);
    DrawnUmiIsUmi(draws[..UmiLength]);
    TabThenTagsOpen(barcode, umi);
    ReadLinesGlued(l1, [Tab] + Join(TagFields(barcode, umi), Tab), l2);
  }

  /** A tab and the tags form one line that does not end with a newline. */
  lemma TabThenTagsOpen(barcode: string, umi: string)
    requires Newline !in barcode && IsUmi(umi)
    ensures var tail := [Tab] + Join(TagFields(barcode, umi), Tab);
            IsLine(tail) && !EndsWithNewline(tail)
  {
    var j := Join(TagFields(barcode, umi), Tab);
    TabThenTagsIsLine(barcode, umi);
    JoinTagsShape(barcode, umi);
    assert ([Tab] + j)[|j|] == j[|j| - 1];
  }

  /** The text written for such a two-record file. */
  lemma RgLastTwoText(l1: string, l2: string, barcode: string, draws: seq<Pick>)
    requires Tagged(l1) && |draws| >= UmiLength
    requires FirstRg(Split(l1, Tab)).value == |Split(l1, Tab)| - 1
    requires !Tagged(l2)
    ensures UmiLength * TaggedCount([l1, l2]) <= |draws|
    ensures Concat(PatchAll([l1, l2], barcode, draws))
         == l1 + ([Tab] + Join(TagFields(barcode, UmiOf(draws[..UmiLength])), Tab)) + l2
  {
    PatchAllThenUntagged(l1, l2, barcode, draws);
    RgLastTagsAfterLine(l1, barcode, draws);
    ConcatTwo(PatchLine(l1, barcode, draws), l2);
  }

  // ------------------------------------------------------------ corrected

  /** The line without its trailing newline. */
  function Body(line: string): string
  {
    if EndsWithNewline(line) then line[..|line| - 1] else line
  }

  /** The trailing newline of the line, if it has one. */
  function Terminator(line: string): string
  {
    if EndsWithNewline(line) then [Newline] else []
  }

  lemma {:induction false} RgFieldIgnoresNewline(f: string)
    ensures IsRgField(f + [Newline]) == IsRgField(f)
  {
    var g := f + [Newline];
    if |f| >= |RgPrefix| {
      assert g[..|RgPrefix|] == f[..|RgPrefix|];
    } else {
      assert |g| < |RgPrefix| || g[|RgPrefix| - 1] != RgPrefix[|RgPrefix| - 1];
    }
  }

  /** Fields that agree on being `RG:Z:` fields have the same first one. */
  lemma {:induction false} FirstRgAgrees(fs: seq<string>, gs: seq<string>)
    requires |fs| == |gs|
    requires forall j :: 0 <= j < |fs| ==> IsRgField(fs[j]) == IsRgField(gs[j])
    ensures FirstRg(fs) == FirstRg(gs)
  {
    if FirstRg(fs).Some? {
      assert FirstRg(gs).Some?;
    }
  }

  /** Splitting a newline-terminated line: the newline rides on the last field,
      and the first `RG:Z:` field is the same one. */
  lemma {:induction false} SplitTerminated(line: string)
    requires EndsWithNewline(line)
    ensures Split(line, Tab) == ExtendLast(Split(Body(line), Tab), Newline)
    ensures FirstRg(Split(line, Tab)) == FirstRg(Split(Body(line), Tab))
  {
    assert Body(line) + [Newline] == line;
    SplitSnoc(Body(line), Newline, Tab);
    var fs := Split(Body(line), Tab);
    var gs := ExtendLast(fs, Newline);
    forall j | 0 <= j < |fs| ensures IsRgField(fs[j]) == IsRgField(gs[j]) {
      if j == |fs| - 1 {
        RgFieldIgnoresNewline(fs[j]);
      } else {
        assert gs[j] == fs[j];
      }
    }
    FirstRgAgrees(fs, gs);
  }

  /** Dropping the newline changes neither whether the line is a header nor
      whether it is tagged, so the corrected patcher draws the same UMIs. */
  lemma {:induction false} HeaderBody(line: string)
    ensures IsHeader(Body(line)) == IsHeader(line)
  {
    if EndsWithNewline(line) && |line| >= 2 {
      assert Body(line)[..1] == line[..1];
    }
  }

  lemma {:induction false} TaggedBody(line: string)
    ensures IsHeader(Body(line)) == IsHeader(line)
    ensures Tagged(Body(line)) == Tagged(line)
  {
    HeaderBody(line);
    if EndsWithNewline(line) {
      SplitTerminated(line);
    }
  }

  /** The corrected patch: patch the line without its newline, then end it as
      the input line ended. */
  function PatchLineFixed(line: string, barcode: string, draws: seq<Pick>): string
    requires Tagged(line) ==> |draws| >= UmiLength
  {
    TaggedBody(line);
    PatchLine(Body(line), barcode, draws) + Terminator(line)
  }

  /** The corrected patcher over all lines; it draws exactly as `PatchAll` does. */
  function PatchAllFixed(lines: seq<string>, barcode: string, draws: seq<Pick>): (out: seq<string>)
    requires UmiLength * TaggedCount(lines) <= |draws|
    ensures |out| == |lines|
  {
    if lines == [] then []
    else [PatchLineFixed(lines[0], barcode, draws)] + PatchAllFixed(lines[1..], barcode, DrawsAfter(lines[0], draws))
  }

  /** Inserting the tags before the last field commutes with extending it. */
  lemma WithTagsExtendLast(fs: seq<string>, k: nat, barcode: string, umi: string, c: char)
    requires k + 1 < |fs|
    ensures WithTags(ExtendLast(fs, c), k, barcode, umi) == ExtendLast(WithTags(fs, k, barcode, umi), c)
  {
    var w := WithTags(fs, k, barcode, umi);
    var e := ExtendLast(fs, c);
    assert e[..k + 1] == fs[..k + 1];
    assert e[k + 1..] == ExtendLast(fs[k + 1..], c);
    assert w[..|w| - 1] == fs[..k + 1] + TagFields(barcode, umi) + fs[k + 1..|fs| - 1];
  }

  /** A tagged line whose first `RG:Z:` field is not its last field is patched
      the same way with and without its newline. */
  lemma {:induction false} FixedAgreesTagged(line: string, barcode: string, draws: seq<Pick>)
    requires Tagged(line) && |draws| >= UmiLength && EndsWithNewline(line)
    requires FirstRg(Split(line, Tab)).value < |Split(line, Tab)| - 1
    ensures PatchLine(line, barcode, draws) == PatchLine(Body(line), barcode, draws) + [Newline]
  {
    TaggedBody(line);
    SplitTerminated(line);
    var fs := Split(Body(line), Tab);
    var k := FirstRg(fs).value;
    var umi := UmiOf(draws[..UmiLength]);
    WithTagsExtendLast(fs, k, barcode, umi, Newline);
    JoinExtendLast(WithTags(fs, k, barcode, umi), Newline, Tab);
  }

  /** The correction changes nothing except the lines whose last field is
      their first `RG:Z:` field and which end in a newline. */
  lemma {:induction false} FixedAgreesElsewhere(line: string, barcode: string, draws: seq<Pick>)
    requires Tagged(line) ==> |draws| >= UmiLength
    requires !(Tagged(line) && EndsWithNewline(line) &&
               FirstRg(Split(line, Tab)).value == |Split(line, Tab)| - 1)
    ensures PatchLineFixed(line, barcode, draws) == PatchLine(line, barcode, draws)
  {
    TaggedBody(line);
    if EndsWithNewline(line) {
      assert Body(line) + [Newline] == line;
      if Tagged(line) {
        FixedAgreesTagged(line, barcode, draws);
      } else {
        UntaggedLineUnchanged(Body(line), barcode, draws);
        UntaggedLineUnchanged(line, barcode, draws);
      }
    }
  }

  /** Patching a line free of newlines gives a line free of newlines, and a
      non-empty one from a non-empty one. */
  lemma {:induction false} PatchAvoidsNewline(body: string, barcode: string, draws: seq<Pick>)
    requires Newline !in body && Newline !in barcode
    requires Tagged(body) ==> |draws| >= UmiLength
    ensures Newline !in PatchLine(body, barcode, draws)
    ensures body != [] ==> PatchLine(body, barcode, draws) != []
  {
    if !Tagged(body) {
      UntaggedLineUnchanged(body, barcode, draws);
    } else {
      var fs := Split(body, Tab);
      var k := FirstRg(fs).value;
      var umi := UmiOf(draws[..UmiLength]);
      var w := WithTags(fs, k, barcode, umi);
      SplitAvoids(body, Tab, Newline);
      DrawnUmiIsUmi(draws[..UmiLength]);
      WithTagsAvoid(fs, k, barcode, umi, Newline);
      JoinAvoids(w, Tab, Newline);
      assert PatchLine(body, barcode, draws) == Join(w, Tab);
      assert |w| >= 2 && Join(w, Tab) == w[0] + [Tab] + Join(w[1..], Tab);
    }
  }

  /** A corrected line, read back, is one line ending as the input line ended. */
  lemma {:induction false} FixedLineIsLine(line: string, barcode: string, draws: seq<Pick>)
    requires IsLine(line)
    requires Tagged(line) ==> |draws| >= UmiLength
    requires Newline !in barcode
    ensures IsLine(PatchLineFixed(line, barcode, draws))
    ensures EndsWithNewline(PatchLineFixed(line, barcode, draws)) == EndsWithNewline(line)
  {
    TaggedBody(line);
    var body := Body(line);
    assert line == line[..|line| - 1] + [line[|line| - 1]];
    assert Newline !in body;
    PatchAvoidsNewline(body, barcode, draws);
    var p := PatchLine(body, barcode, draws);
    var out := p + Terminator(line);
    assert out == PatchLineFixed(line, barcode, draws);
    if EndsWithNewline(line) {
      assert out[..|out| - 1] == p;
    } else {
      assert out == p && body == line;
      assert out == out[..|out| - 1] + [out[|out| - 1]];
    }
  }

  /** The corrected patcher writes well-formed lines from well-formed lines. */
  lemma {:induction false} FixedLinesWellFormed(lines: seq<string>, barcode: string, draws: seq<Pick>)
    requires WellFormedLines(lines)
    requires UmiLength * TaggedCount(lines) <= |draws|
    requires Newline !in barcode
    ensures WellFormedLines(PatchAllFixed(lines, barcode, draws))
    decreases |lines|
  {
    if lines != [] {
      var rest := DrawsAfter(lines[0], draws);
      var first := PatchLineFixed(lines[0], barcode, draws);
      var tail := PatchAllFixed(lines[1..], barcode, rest);
      assert WellFormedLines(lines[1..]) by {
        forall j | 0 <= j < |lines| - 1 ensures lines[1..][j] == lines[j + 1] { }
      }
      FixedLinesWellFormed(lines[1..], barcode, rest);
      FixedLineIsLine(lines[0], barcode, draws);
      assert tail != [] ==> EndsWithNewline(lines[0]);
      WellFormedCons(first, tail);
      assert PatchAllFixed(lines, barcode, draws) == [first] + tail;
    }
  }

  /** With the correction, the output file, read back, holds exactly the
      records written: one per input record, in order. */
  lemma {:induction false} FixedKeepsRecords(text: string, barcode: string, draws: seq<Pick>)
    requires UmiLength * TaggedCount(ReadLines(text)) <= |draws|
    requires Newline !in barcode
    ensures var out := PatchAllFixed(ReadLines(text), barcode, draws);
            ReadLines(Concat(out)) == out && |out| == |ReadLines(text)|
  {
    FixedLinesWellFormed(ReadLines(text), barcode, draws);
    ReadLinesConcat(PatchAllFixed(ReadLines(text), barcode, draws));
  }
}
