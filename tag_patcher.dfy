/** `add_barcode_quality_tag_to_sam` as the program runs it: a loop over the
    lines read from the input, writing one line per line read. The file
    handles are left out: the lines read come in as a sequence and the
    lines written go out as one, in the order of the `write` calls. */
module TagPatcher {
  import opened Text
  import opened SamTags

  /** The generator `next(i for i, field in enumerate(fields) if
      field.startswith('RG:Z:'))`, with `None` as its default. */
  method FindRgIndex(fields: seq<string>) returns (r: Option<nat>)
    ensures r == FirstRg(fields)
  {
    var i := 0;
    while i < |fields|
      invariant i <= |fields|
      invariant forall j :: 0 <= j < i ==> !IsRgField(fields[j])
    {
      if IsRgField(fields[i]) {
        return Some(i);
      }
      i := i + 1;
    }
    return None;
  }

  /** `''.join(random.choice("ATGC") for _ in range(10))`, where `draws`
      holds the random source's next choices. */
  method DrawUmi(draws: seq<Pick>) returns (umi: string)
    requires |draws| >= UmiLength
    ensures umi == UmiOf(draws[..UmiLength])
    ensures IsUmi(umi)
  {
    umi := [];
    for n := 0 to UmiLength
      invariant umi == UmiOf(draws[..n])
    {
      assert draws[..n + 1][..n] == draws[..n];
      umi := umi + [Bases[draws[n]]];
    }
    DrawnUmiIsUmi(draws[..UmiLength]);
  }

  /** The five successive `fields.insert(rg_index + m, ...)` calls, m = 1..5. */
  method InsertTags(fields: seq<string>, rgIndex: nat, barcode: string, umi: string)
    returns (out: seq<string>)
    requires rgIndex < |fields|
    ensures out == WithTags(fields, rgIndex, barcode, umi)
  {
    out := fields;
    out := Insert(out, rgIndex + 1, "CR:Z:" + barcode);
    out := Insert(out, rgIndex + 2, BarcodeQuality);
    out := Insert(out, rgIndex + 3, "CB:Z:" + barcode + "-1");
    out := Insert(out, rgIndex + 4, "UR:Z:" + umi);
    out := Insert(out, rgIndex + 5, UmiQuality);
    assert out[..rgIndex + 1] == fields[..rgIndex + 1];
    assert out[rgIndex + 1..rgIndex + 6] == TagFields(barcode, umi);
    assert out[rgIndex + 6..] == fields[rgIndex + 1..];
    assert out == out[..rgIndex + 1] + out[rgIndex + 1..rgIndex + 6] + out[rgIndex + 6..];
  }

  /** The body of the loop for one line read: the string written for it and
      the draws the random source has left afterwards. */
  method PatchRecord(line: string, barcode: string, draws: seq<Pick>)
    returns (written: string, rest: seq<Pick>)
    requires Tagged(line) ==> |draws| >= UmiLength
    ensures written == PatchLine(line, barcode, draws)
    ensures rest == DrawsAfter(line, draws)
  {
    rest := draws;
    if IsHeader(line) {
      written := line;
    } else {
      var fields := Split(line, Tab);
      var rgIndex := FindRgIndex(fields);
      if rgIndex.Some? {
        var newUmi := DrawUmi(rest);
        fields := InsertTags(fields, rgIndex.value, barcode, newUmi);
        rest := rest[UmiLength..];
      }
      written := Join(fields, Tab);
    }
  }

  /** The patcher's loop: `lines` are the lines `readlines` returned, `draws`
      the random source's choices (ten per tagged line, taken in order), and
      `written` the strings passed to `write`, in order. */
  method AddBarcodeQualityTagToSam(lines: seq<string>, barcode: string, draws: seq<Pick>)
    returns (written: seq<string>)
    requires UmiLength * TaggedCount(lines) <= |draws|
    ensures |written| == |lines|
    ensures written == PatchAll(lines, barcode, draws)
  {
    written := [];
    var rest := draws;
    var i := 0;
    while i < |lines|
      invariant i <= |lines|
      invariant UmiLength * TaggedCount(lines[i..]) <= |rest|
      invariant written + PatchAll(lines[i..], barcode, rest) == PatchAll(lines, barcode, draws)
    {
      var todo := lines[i..];
      assert todo[0] == lines[i] && todo[1..] == lines[i + 1..];
      var out;
      out, rest := PatchRecord(lines[i], barcode, rest);
      written := written + [out];
      i := i + 1;
    }
  }
}
