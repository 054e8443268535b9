# SAM barcode/UMI tag patcher, modelled in Dafny

This project models `add_barcode_quality_tag_to_sam` from the STARSolo-for-non-10x workflow.
The function reads a SAM text file line by line. It copies header lines (those starting
with `@`, SAM v1 format section 1.3) unchanged. It splits every other line on tabs and
finds the first field that starts with `RG:Z:`. The search looks at every field, the
mandatory ones included, not only the optional `TAG:TYPE:VALUE` fields of section 1.5. Directly after that field it inserts five fields, in this order:

- `CR:Z:<barcode>`
- `CY:Z:` followed by 16 `F`
- `CB:Z:<barcode>-1`
- `UR:Z:<UMI>`, where the UMI is 10 random characters from `ATGC`
- `UY:Z:` followed by 10 `F`

It then joins the fields with tabs and writes the line. An alignment line without an
`RG:Z:` field is split and re-joined but gains nothing.

Files:

- `text.dfy` (module `Text`) holds the Python primitives the function is built from.
  These are `str.startswith`, `str.split('\t')`, `'\t'.join`, `list.insert`,
  `readlines` (`ReadLines`) and the text that a run of `write` calls produces (`Concat`).
  It also proves their round trips: split then join, join then split, readlines then
  write, and write then readlines.
- `sam_tags.dfy` (module `SamTags`) is the specification of the transform as functions.
  `PatchLine` handles one line and `PatchAll` handles a whole file. The module also holds
  the lemmas about both.
- `tag_patcher.dfy` (module `TagPatcher`) is the function as the program runs it. It is a
  `while` loop over the lines read. The `next(...)` search and the UMI generator are
  loops. The `fields` list is updated by five successive inserts. Each method is proved
  equal to the specification in `SamTags`.
- `newline_fix.dfy` (module `NewlineFix`) covers the trailing-newline behaviour. It shows
  what the code does when the first `RG:Z:` field is the last field of a line. It also
  gives a corrected patcher and proves that the correction keeps one record per record
  (see Findings).

The random source is a parameter: `draws: seq<Pick>`, where each `Pick` (0..3) is the
index that one `random.choice("ATGC")` call chooses. Each line that gets tags uses the
next ten draws, in order. This makes "the UMI has length 10 and only uses `ATGC`" a
proved fact rather than an assumption. The file handles are also parameters. The lines
that `readlines` returns come in as `seq<string>`, and the strings passed to `write` go
out as `seq<string>`, one per line read.

The five fields are added only to alignment lines that have an `RG:Z:` field
(starsolo_workflow_functions.py:27-28).

## Model

| member | source | states |
|---|---|---|
| Text.Split | starsolo_workflow_functions.py:21 | `line.split('\t')` always gives at least one field, and no field holds a tab |
| Text.JoinSplit | starsolo_workflow_functions.py:21-35 | joining the tab-split fields with tabs gives back exactly the line that was split, newline included |
| Text.SplitJoin | starsolo_workflow_functions.py:21-35 | splitting the tab-join of a non-empty list of tab-free fields gives back that list, so a written line's fields can be read off it |
| Text.Insert | starsolo_workflow_functions.py:30-34 | `list.insert(i, x)` makes the list one longer, puts `x` at `i` and shifts the elements from `i` up by one, or appends `x` when `i` is past the end |
| Text.ReadLines | starsolo_workflow_functions.py:16 | `readlines` gives no lines for an empty file; each line is non-empty and holds a newline only as its last character; every line but the last ends with one |
| Text.ConcatReadLines | starsolo_workflow_functions.py:16-19 | writing back, in order, the lines that `readlines` returned reproduces the file text exactly |
| Text.ReadLinesConcat | starsolo_workflow_functions.py:16 | reading back a text written as well-formed lines gives exactly those lines |
| Text.SplitSnoc | starsolo_workflow_functions.py:21 | the newline that ends a line stays on the last tab-separated field |
| SamTags.FirstRg | starsolo_workflow_functions.py:27 | the search gives the smallest index of a field starting with `RG:Z:`; it gives None exactly when no field starts with `RG:Z:` |
| SamTags.UmiOf | starsolo_workflow_functions.py:29 | the UMI has one character per draw, and each character is the base of `ATGC` that its draw chose |
| SamTags.DrawnUmiIsUmi | starsolo_workflow_functions.py:29-33 | ten draws give a UMI of length 10 over `ATGC` only |
| SamTags.PatchAll | starsolo_workflow_functions.py:17-35 | exactly one line is written per line read |
| SamTags.PatchAllAt | starsolo_workflow_functions.py:17-35 | written string `i` is read line `i` patched, with the draws left after the tagged lines before it took ten each; the strings passed to `write` are neither dropped, merged nor reordered (the records in the output text can be, see Findings) |
| SamTags.UntaggedLineUnchanged | starsolo_workflow_functions.py:18-35 | a header line, and an alignment line without an `RG:Z:` field, is written exactly as it was read |
| SamTags.TaggedLineFields | starsolo_workflow_functions.py:21-35 | with a tab-free barcode, a line with an `RG:Z:` field at index k is written with exactly 5 more fields: fields 0..k unchanged, then CR, CY, CB, UR, UY with the barcode and UMI, then the remaining original fields unchanged and in order; the first `RG:Z:` field is still at k |
| SamTags.TagFieldsAvoid | starsolo_workflow_functions.py:30-34 | the five inserted fields contain a tab or a newline only if the barcode does |
| SamTags.WithTagsAvoid | starsolo_workflow_functions.py:30-34 | inserting the five fields into tab-free (or newline-free) fields keeps the list free of that character when the barcode is |
| SamTags.WithTagsKeepsFirstRg | starsolo_workflow_functions.py:27-34 | after the insertion the first `RG:Z:` field is still the one at k: later `RG:Z:` fields are ignored and none of the new fields comes first |
| SamTags.NothingToTagNothingChanges | starsolo_workflow_functions.py:17-35 | when no line has an `RG:Z:` field, the lines written are the lines read |
| SamTags.UntaggedFileUnchanged | starsolo_workflow_functions.py:15-35 | when no line of the file has an `RG:Z:` field, the output file text equals the input file text |
| TagPatcher.FindRgIndex | starsolo_workflow_functions.py:27 | the `next(...)` search over the fields returns the first `RG:Z:` index, or None |
| TagPatcher.DrawUmi | starsolo_workflow_functions.py:29 | the generated UMI is the bases that the next ten draws chose, and it is 10 characters over `ATGC` |
| TagPatcher.InsertTags | starsolo_workflow_functions.py:30-34 | the five successive inserts at `rg_index+1`..`rg_index+5` give the fields up to `rg_index`, then the five tags in order, then the rest of the fields |
| TagPatcher.PatchRecord | starsolo_workflow_functions.py:18-35 | the loop body writes the specification's patched line for the line read, and leaves the random source ten draws shorter exactly when the line gets tags |
| TagPatcher.AddBarcodeQualityTagToSam | starsolo_workflow_functions.py:11-35 | the loop writes exactly the lines of the specification `PatchAll`, taking ten draws for each line that gets tags |
| NewlineFix.RgLastTagsAfterLine | starsolo_workflow_functions.py:21-35 | when the first `RG:Z:` field is the last field, the output is the whole input line, newline included, then a tab and the five tags |
| NewlineFix.RgLastRecordSplitsInTwo | starsolo_workflow_functions.py:16-35 | a one-record file whose record ends in its `RG:Z:` field reads back as two records: the input record without tags, then a record made of a tab and the tags |
| NewlineFix.RgLastGluesToNext | starsolo_workflow_functions.py:16-35 | a record ending in its first `RG:Z:` field followed by an untagged record reads back as the first record without tags, then one record made of a tab, the five tags and the second record glued to the last tag |
| NewlineFix.SplitTerminated | starsolo_workflow_functions.py:21-27 | splitting a newline-terminated line gives the fields of the line without its newline, with the newline on the last field; the first `RG:Z:` field is the same |
| NewlineFix.TaggedBody | starsolo_workflow_functions.py:18-28 | dropping the newline changes neither whether a line is a header nor whether it has an `RG:Z:` field |
| NewlineFix.PatchAllFixed | starsolo_workflow_functions.py:17-35 | the corrected patcher writes one line per line read |
| NewlineFix.FixedAgreesElsewhere | starsolo_workflow_functions.py:21-35 | the corrected patch gives the same output as the code on every line except newline-terminated lines whose last field is their first `RG:Z:` field |
| NewlineFix.FixedLineIsLine | starsolo_workflow_functions.py:16-35 | with a newline-free barcode, a corrected output line is one line that ends with a newline exactly when the input line did |
| NewlineFix.FixedKeepsRecords | starsolo_workflow_functions.py:15-35 | with the correction, the output file reads back as exactly the records written, one per input record |

## Findings

| source | as written | input that shows it | evidently intended | confidence | as-written member | corrected member |
|---|---|---|---|---|---|---|
| starsolo_workflow_functions.py:21-35 | the line is split with its trailing newline, so the newline stays on the last field; if that field is the first `RG:Z:` field, the five tags are inserted after the newline | a file holding the single record `r\tRG:Z:g\n` is written as `r\tRG:Z:g\n\tCR:Z:…\tUY:Z:FFFFFFFFFF` and reads back as two records: the record without tags, then a record made of a tab and the tags; in a longer file the tab and tags are glued to the front of the next record, with `UY:Z:FFFFFFFFFF` running straight into its first field (`NewlineFix.RgLastGluesToNext`) | the tags follow the `RG:Z:` field on the same record, and the record keeps its newline at its end | medium; not executed | NewlineFix.RgLastRecordSplitsInTwo | NewlineFix.FixedKeepsRecords |

The corrected definition is `NewlineFix.PatchLineFixed`, with `NewlineFix.PatchAllFixed`
over whole files. It patches the line without its newline and then puts the newline back.
`NewlineFix.FixedAgreesElsewhere` proves that it differs from the code only on the lines
this finding is about. It also takes the same random draws, by `NewlineFix.TaggedBody`.
The loop `TagPatcher.AddBarcodeQualityTagToSam` deliberately models the code as written.

## Left out

- File I/O: `open`, `readlines` and `write` on real files are left out. The model takes the
  text or the lines read as input and returns the strings written.
- Newline translation of text mode (`'rt'`/`'wt'`) is left out. The model works on the text
  after universal-newline translation has turned each `\r\n` and each lone `\r` into `\n`.
- The random number generator itself is left out. `random.choice("ATGC")` is modelled as a
  given stream of draws in 0..3. The method requires at least ten draws per line that gets
  tags.
- The loop at starsolo_workflow_functions.py:22-24 is left out. It only reassigns `i` to
  itself and has no effect.
- The unused imports of pandas, anndata and scipy are left out.
- make_h5ad.py is not part of this model. It is glue around sparse-matrix, data-frame and
  annotated-matrix libraries, and it has no logic of its own to verify.
- SamTags.TaggedLineFields: states the "+5 fields" layout only for a barcode without a tab.
  The code does not check the barcode, and a barcode with a tab would add more fields when
  the line is split again.
- NewlineFix.FixedKeepsRecords: proved only for a barcode without a newline, for the same
  reason.
