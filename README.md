# FASTA filtering and GFF attribute editing, modelled in Dafny

This project models two scripts of the `bioinfo_utils` repository.

**`filter_fasta_by_id.py`** reads a FASTA file into an insertion-ordered
dictionary that maps each header line to its sequence lines
(`fasta_to_dict`). It keeps the entries whose header, with `>` stripped, is
in a list of contig identifiers (`filter_fasta`). Then it writes the
survivors back out as FASTA text (`dict_to_fasta`). `main` composes the three
steps.

- A file is modelled as the list of its lines, each with its terminator.
- A Python `dict` is modelled as `Dict`: a sequence of keys in insertion
  order plus a map. `Insert` is Python's assignment: a new key goes to the
  end, and an existing key keeps its place.
- The scanning loop is modelled as a fold: `Step` is one line, `Run` is the
  loop, and `Finish` is the commit after the loop.
- The three Python functions become methods with loops (`FastaToDict`,
  `FilterFasta`, `DictToFasta`). Each method is proved equal to a
  specification function (`Parsed`, `Filtered`, `Serialized`).
- The properties are lemmas about those functions: key order, the records a
  file yields, the write-back round trip, filter order, filter idempotence,
  and what an empty or a full identifier list does.

**`gff_parser.py`** edits GFF3 tables with pandas.

- A table is modelled as a sequence of rows. `add_prod_name_to_id` and the
  attribute extractors work on rows of strings. `parse_col7` works on rows of
  `Cell`s, where a cell is a number, a string or missing.
- Per-column pandas operations are stated for one row (`LocusTag`, `IdValue`,
  `IdFirst`, `Strand`, `NewCol9`) and then lifted to the column.
- `parse_col7` is a method over an array of rows. Its three assignments to
  column 7 are three in-place passes, done in the source's order.
- `add_prod_name_to_id` is a method. It checks the `ID=` precondition,
  computes the inner merge on the locus tag, and rebuilds column 9 in an
  array. That array is updated in place and then cut to nine columns.

The model follows the code as written. The FASTA reader's code has
consequences a reader may not expect:

- An empty file, or a file with no header line, yields one entry under the
  key `''`, holding every line of the file (`ParsedNoHeader`).
- The sequence is not reset when a header is read. It is reset only at the
  first sequence line after a header change. Two effects follow:
  - a header repeated right after itself collects the sequence lines of both
    records (`RepeatedHeaderConcatenates`);
  - a header with no sequence lines is stored with the previous record's
    sequence (`EmptyRecordInherits`).
- Lines before the first header are prepended to the first record's sequence
  (`ParsedRecords`).

Three behaviours of `gff_parser.py` that follow from its code are stated as
lemmas:

- The ID extractor deletes the character class `[ID=|.]`, not the text
  `ID=`. A versioned identifier such as `g1.1` therefore loses its dot, and
  the row is reported as a mismatch even when both attributes carry the same
  value (`ClassCharDiffers`).
- The cleanup pattern `;None*` matches `;Non` followed by any run of `e`,
  anywhere in the text. It is exact only when no attribute starts with `Non`
  (`NewCol9Renamed`).
- `lstrip('"').rstrip('"')` only has an effect on rows that have the most
  fields. On a shorter row the padding `;None` ends the text and shields the
  quotation marks. Rows with the most fields lose their trailing `"`
  (`NewCol9Widest`); shorter rows keep it (`NewCol9Padded`).

## Model

| member | source | states |
|---|---|---|
| FilterFastaById.Insert | filter_fasta_by_id.py:51 | assignment into a dict keeps its keys distinct and in step with its map |
| FilterFastaById.InsertSemantics | filter_fasta_by_id.py:51 | after `d[k] = v`, `k` maps to `v`, every other key is unchanged, and the order grows by `k` at the end exactly when `k` is new |
| FilterFastaById.Step | filter_fasta_by_id.py:42-62 | one iteration of the reading loop keeps the dictionary well formed |
| FilterFastaById.Run | filter_fasta_by_id.py:42-62 | the loop keeps the dictionary well formed, and every key present before it is still present after it |
| FilterFastaById.Finish | filter_fasta_by_id.py:64-65 | the final commit stores the current header |
| FilterFastaById.Parsed | filter_fasta_by_id.py:28-67 | `fasta_to_dict` always returns a well-formed dictionary with at least one entry |
| FilterFastaById.FastaToDict | filter_fasta_by_id.py:28-67 | the imperative reader returns exactly `Parsed(lines)` |
| FilterFastaById.SerializedKeysAppend | filter_fasta_by_id.py:74-76 | the output for a key list is the concatenation of the outputs for its parts |
| FilterFastaById.DictToFasta | filter_fasta_by_id.py:70-78 | the writer returns each key, a newline and its stored value, in key order |
| FilterFastaById.KeptKeysSpec | filter_fasta_by_id.py:85-87 | a key is kept iff it is a key whose `strip('>')` is listed; kept keys stay distinct |
| FilterFastaById.KeptKeysAppend | filter_fasta_by_id.py:85-87 | the filter goes key by key, so it distributes over concatenation |
| FilterFastaById.KeptValuesAppend | filter_fasta_by_id.py:85-87 | one more key adds its value exactly when its identifier is listed |
| FilterFastaById.Filtered | filter_fasta_by_id.py:81-89 | the result holds exactly the listed entries, with their original values |
| FilterFastaById.FilterFasta | filter_fasta_by_id.py:81-89 | the imperative filter returns exactly `Filtered(d, ids)` |
| FilterFastaById.FilterPipeline | filter_fasta_by_id.py:98-100 | `main` writes `Serialized(Filtered(Parsed(lines), ids))` |
| FastaProperties.HeaderKeyNonEmpty | filter_fasta_by_id.py:43-47 | a header line's key is non-empty and starts with `>` |
| FastaProperties.RunAppend | filter_fasta_by_id.py:42-62 | reading `a + b` is reading `a`, then `b` |
| FastaProperties.RunSequenceLines | filter_fasta_by_id.py:55-57 | inside an unchanged record, sequence lines are appended verbatim |
| FastaProperties.ParsedNoHeader | filter_fasta_by_id.py:33-65 | a file without header lines gives the single entry `''` holding the whole file |
| FastaProperties.ParsedEmptyFile | filter_fasta_by_id.py:33-65 | an empty file gives the single entry `'' -> ''` |
| FastaProperties.RepeatedHeaderConcatenates | filter_fasta_by_id.py:49-57 | a header repeated right after itself commits, then keeps appending to the same sequence |
| FastaProperties.EmptyRecordInherits | filter_fasta_by_id.py:49-52 | a header followed directly by a header is stored with the previous record's sequence |
| FastaProperties.FirstAppearancesPrefix | filter_fasta_by_id.py:51 | keys seen earlier keep their positions |
| FastaProperties.FirstAppearancesMembers | filter_fasta_by_id.py:51 | every header seen, and only those, becomes a key |
| FastaProperties.FirstAppearancesDistinct | filter_fasta_by_id.py:51 | no key appears twice |
| FastaProperties.KeysAfterFirstHeader | filter_fasta_by_id.py:42-65 | after the first header, keys are added in order of first appearance |
| FastaProperties.KeysBeforeFirstHeader | filter_fasta_by_id.py:42-65 | from the start, the keys are the headers in order of first appearance, or `['']` without headers |
| FastaProperties.ParsedKeyOrder | filter_fasta_by_id.py:28-67 | the keys are the stripped header lines in order of first appearance, or `['']` for a file with no header |
| FastaProperties.RunRecords | filter_fasta_by_id.py:42-65 | reading records, each with a key different from the one before, assigns each key its sequence lines in order |
| FastaProperties.ParsedRecords | filter_fasta_by_id.py:28-67 | a preamble plus such records gives the dictionary built by assigning the records in order, with the preamble prepended to the first record's sequence |
| FastaProperties.ParsedDistinctRecords | filter_fasta_by_id.py:28-67 | with distinct headers, the keys are the records' keys in order, and each maps to its own sequence lines |
| FastaProperties.RoundTrip | filter_fasta_by_id.py:28-78 | writing back a parsed well-formed file with distinct, clean headers reproduces it character for character |
| FastaProperties.KeptKeysOrder | filter_fasta_by_id.py:85-87 | kept keys keep their relative order |
| FastaProperties.FilteredOrder | filter_fasta_by_id.py:81-89 | the filtered dictionary keeps the original relative order of its entries |
| FastaProperties.KeptKeysIdempotent | filter_fasta_by_id.py:85-87 | filtering the kept keys again keeps all of them |
| FastaProperties.FilteredIdempotent | filter_fasta_by_id.py:81-89 | filtering twice with the same list is filtering once |
| FastaProperties.KeptKeysNone | filter_fasta_by_id.py:85-87 | no listed identifier keeps no key |
| FastaProperties.FilteredNoIds | filter_fasta_by_id.py:81-89 | an empty identifier list gives the empty dictionary |
| FastaProperties.KeptKeysAll | filter_fasta_by_id.py:85-87 | when every identifier is listed, every key is kept |
| FastaProperties.FilteredAllIds | filter_fasta_by_id.py:81-89 | listing every identifier leaves the dictionary unchanged |
| FastaProperties.PipelineKeepsAll | filter_fasta_by_id.py:98-100 | with every record listed, a well-formed file is copied to the output unchanged |
| FastaProperties.PipelineKeepsNone | filter_fasta_by_id.py:98-100 | with no key listed, the output is empty |
| Strings.RStripSpaceSpec | filter_fasta_by_id.py:46-47 | `strip()` of a header removes exactly its trailing whitespace run |
| Strings.StripCharSpec | filter_fasta_by_id.py:86 | `strip('>')` leaves no `>` at either end, and leaves text without `>` untouched |
| Strings.JoinSplit | gff_parser.py:38 | joining the pieces of `split(';')` with `;` gives the text back |
| Strings.SplitJoin | gff_parser.py:159 | splitting a `;`-join of pieces without `;` gives the pieces back |
| Strings.SplitPieces | gff_parser.py:38 | no piece of `split(';')` contains `;` |
| Strings.SplitFirst | gff_parser.py:56-58 | the first piece is the text before the first `;` |
| Strings.RemoveAllAbsent | gff_parser.py:41 | `str.replace` of an absent pattern changes nothing |
| Strings.DeleteCharsSpec | gff_parser.py:50 | deleting a character class keeps exactly the characters outside it |
| Strings.LStripCharSpec | gff_parser.py:162 | `lstrip('"')` removes exactly the leading run of `"` |
| Strings.RStripCharSpec | gff_parser.py:162 | `rstrip('"')` removes exactly the trailing run of `"` |
| Strings.RemoveStemRunsAppend | gff_parser.py:165 | the `;None*` deletion does not reach across into text that has no `;Non` |
| GffParser.Select | gff_parser.py:39-40 | the kept attributes are at most the attributes |
| GffParser.LocusTags | gff_parser.py:37-43 | one locus tag per row |
| GffParser.Ids | gff_parser.py:46-52 | one ID per row |
| GffParser.NotIdFirstRows | gff_parser.py:56-60 | every listed row is in range and its first attribute lacks `ID=` |
| GffParser.MismatchesFrom | gff_parser.py:85-87 | every reported row index is in range |
| GffParser.Strand | gff_parser.py:117-120 | the new strand is always `+`, `-` or `.` |
| GffParser.StrandsParsed | gff_parser.py:117-120 | the rewritten table has the same rows, each still with a column 7 |
| GffParser.ParseCol7 | gff_parser.py:113-126 | the three in-place passes leave `StrandsParsed` of the original table |
| GffParser.MinusToDashAll | gff_parser.py:118 | every numeric `-1` in column 7 becomes `-`, and nothing else changes |
| GffParser.OneToPlusAll | gff_parser.py:119 | every numeric `1` in column 7 becomes `+`, and nothing else changes |
| GffParser.OtherToDotAll | gff_parser.py:120 | every column-7 cell other than `+` and `-` becomes `.`, and nothing else changes |
| GffParser.Col9s | gff_parser.py:56 | one attribute column entry per row |
| GffParser.ProductsFor | gff_parser.py:146 | the matching product rows are at most the product rows |
| GffParser.WithLocTags | gff_parser.py:142-143 | one row per GFF row after adding the locus-tag column |
| GffParser.FieldWidth | gff_parser.py:150 | `expand=True` makes as many columns as the row with the most attributes: no row has more, some row has exactly that many, and an empty table gives 0 |
| GffParser.Nones | gff_parser.py:150-159 | the padding is `count` cells, each written as `None` |
| GffParser.Rebuilt | gff_parser.py:150-171 | one written row per merged row |
| GffParser.MergedWidth | gff_parser.py:146-147 | every merged row has twelve columns |
| GffParser.AddProdNameToId | gff_parser.py:130-177 | the method's outcome is `ProdNameAdded(gff, prods)` |
| GffParser.RebuildCol9 | gff_parser.py:150-171 | rebuilding column 9 in place and dropping columns 10-12 gives `Rebuilt(rows)` |
| GffParser.ReplaceCol9 | gff_parser.py:168 | column 9 of every row is replaced by its new value, and nothing else changes |
| GffParser.DropAfterCol9s | gff_parser.py:171 | every row is cut to its first nine columns |
| GffParser.DropAfterCol9 | gff_parser.py:168-171 | replacing column 9 and dropping columns 10-12 gives columns 1-8 and the new column 9 |
| GffProperties.SelectMembers | gff_parser.py:39-40 | an attribute is kept iff it is one of the row's attributes and contains the pattern |
| GffProperties.SelectAppend | gff_parser.py:39-40 | the kept attributes keep their order |
| GffProperties.SelectNone | gff_parser.py:39-40 | with no matching attribute, nothing is kept |
| GffProperties.LocusTagAbsent | gff_parser.py:37-43 | a row without `locus_tag=` has the empty locus tag |
| GffProperties.LocusTagSingle | gff_parser.py:37-43 | a row whose only `locus_tag=` attribute is `locus_tag=t` has locus tag `t` |
| GffProperties.IdValueChars | gff_parser.py:50 | the ID holds no `I`, `D`, `=`, `\|` or `.`, and every other character of the `ID=` attributes |
| GffProperties.IdValueAbsent | gff_parser.py:46-52 | a row without `ID=` has the empty ID |
| GffProperties.IdValueSingle | gff_parser.py:46-52 | a row whose only `ID=` attribute is `ID=t`, with `t` free of the class, has ID `t` |
| GffProperties.SameValueAgrees | gff_parser.py:81-85 | the same plain value in `ID=` and `locus_tag=` is not a mismatch |
| GffProperties.ClassCharDiffers | gff_parser.py:46-52 | the same value containing `.`, `\|`, `I`, `D` or `=` is reported as a mismatch |
| GffProperties.IdFirstMeaning | gff_parser.py:56-58 | the check looks exactly at the text before the first `;` |
| GffProperties.NotIdFirstRowsExact | gff_parser.py:58-60 | the listed rows are exactly the rows whose first attribute lacks `ID=`, in increasing order |
| GffProperties.IsIdFieldSetFirstIff | gff_parser.py:55-66 | the check passes iff every row's first attribute contains `ID=` |
| GffProperties.MismatchesFromMembers | gff_parser.py:85-87 | the reported rows are exactly the rows whose locus tag and ID differ, with both values |
| GffProperties.MismatchesFromOrdered | gff_parser.py:85-87 | the reported rows come in increasing row order |
| GffProperties.CompareExact | gff_parser.py:76-90 | `compare_id_and_loc_tags` reports exactly the differing rows, once each, in row order |
| GffProperties.ThreePasses | gff_parser.py:118-120 | the three passes in order give each cell its strand |
| GffProperties.CatchAllLast | gff_parser.py:118-120 | run with the catch-all first, the passes would turn `-1` into `.` |
| GffProperties.StrandsParsedCells | gff_parser.py:117-120 | rows keep their length and other columns, and column 7 becomes `+`, `-` or `.` |
| GffProperties.StrandsParsedIdempotent | gff_parser.py:117-120 | running `parse_col7` on its own output changes nothing |
| GffProperties.NumericStrands | gff_parser.py:118-120 | `-1` becomes `-`, `1` becomes `+`, and any other number becomes `.` |
| GffProperties.AbortedIff | gff_parser.py:136-140 | nothing is written iff some row's first attribute lacks `ID=` |
| GffProperties.ProductsForMembers | gff_parser.py:146 | the product rows joined to a tag are exactly those carrying that locus tag |
| GffProperties.MergedAppend | gff_parser.py:146 | the merge goes row by row, so merged rows come in GFF row order |
| GffProperties.MergedSound | gff_parser.py:146 | every merged row is a row joined to a product row that has the row's locus tag |
| GffProperties.MergedComplete | gff_parser.py:146 | every pair of a row and a product row with its locus tag is merged |
| GffProperties.WithLocTagsRows | gff_parser.py:142-143 | each GFF row gets its own locus tag as column 10 |
| GffProperties.MergedPairs | gff_parser.py:142-146 | each GFF row is merged with every product row carrying its locus tag |
| GffProperties.WrittenRows | gff_parser.py:142-171 | each written row has nine columns, its columns 1-8 come from a GFF row, and a product row carries that row's locus tag |
| GffProperties.RenamedAttributes | gff_parser.py:150-159 | the new column 9 is `Name=<tag>_<product>` followed by the row's other attributes, unchanged and in order |
| GffProperties.NewCol9Renamed | gff_parser.py:150-165 | without a `;Non` attribute, column 9 becomes the renamed attribute list, with the trailing `"` removed only on the widest rows |
| GffProperties.NewCol9Widest | gff_parser.py:156-165 | a row with the most fields, without a `;Non` attribute, gets the renamed list with its trailing `"` removed |
| GffProperties.NewCol9Padded | gff_parser.py:150-165 | a shorter row, without a `;Non` attribute, gets the renamed list with its padding removed |
| GffProperties.CleanupPadding | gff_parser.py:162-165 | on text free of `;Non`, the quote strip and the `;None*` cleanup take off exactly the padding |
| GffProperties.RemoveNoneRuns | gff_parser.py:165 | the cleanup deletes every `;None` of the padding |

## Left out

- Command-line parsing, file reading and writing, `print`, and `to_csv`. The
  scripts' inputs are parameters: FASTA lines, identifiers, GFF rows and
  product rows. Their outputs are return values.
- `get_contig_ids_from_dvf` and `get_contig_ids` read the identifier file
  with pandas. The model takes the identifiers as a list of strings.
- `check_prod_name` and `check_dup_locus_tags` are other sub-commands or
  unfinished helpers.
- `load_gff` and `load_prod_name` are modelled only through their results.
  pandas type inference is not modelled. Attribute cells are strings, and
  column-7 cells are tagged one at a time as number, string or missing. A
  missing (NaN) column 9 is not modelled.
- The abort path at lines 136-140 prints a message and then raises
  `NameError`, because `idx_not_id_first_list` is undefined at line 138. The
  model returns `Aborted` and writes nothing.
- A product-name file with fewer than two columns makes pandas raise. This
  is not modelled: a product row always has a locus tag and a name.
- The merge keeps GFF row order, and product-file order within a row. This
  matches current pandas for an inner merge. Older pandas ordering is not
  modelled.
- GffProperties.NewCol9Renamed: stated only for rows whose rebuilt text
  contains no `;Non`. When it does, the cleanup also cuts that attribute;
  `NewCol9` models this, but no lemma characterises it.
- GffProperties.NewCol9Widest, GffProperties.NewCol9Padded and
  GffProperties.CleanupPadding carry the same restriction to text without
  `;Non`, for the same reason.
- `add_prod_name_to_id` returns the unmodified `gff_df`. The model returns
  the rows it hands to `to_csv`, not the bytes of the output file. `to_csv`
  adds separators and quotes any cell that contains `"`; that quoting is
  not modelled.
- pandas may read an identifier file whose identifiers are all numbers as
  integers. Then `in ids_to_inc` never matches a header, which is a string.
  The model's identifiers are always strings, so this case is not modelled.
