/** The GFF3 editing sub-commands, row by row. A GFF table has nine
    tab-separated columns; column 9 (index 8) holds the attributes, a
    `;`-separated list of `key=value` fields, and column 7 (index 6) the
    strand. What pandas does to a whole column at once is stated here for one
    row and then lifted to the table. */
module GffParser {
  import opened Strings

  // ---------------------------------------------------------------------
  // get_gff_loc_tags, get_gff_ids
  // ---------------------------------------------------------------------

  /** The fields that contain `pat`, in their original order: the cells the
      boolean mask keeps and `dropna` does not drop. */
  function Select(fields: seq<string>, pat: string): (r: seq<string>)
    ensures |r| <= |fields|
  {
    if fields == [] then []
    else (if Contains(fields[0], pat) then [fields[0]] else []) + Select(fields[1..], pat)
  }

  /** `','.join(...)` of the attributes of `col9` that contain `pat`. */
  function Matching(col9: string, pat: string): string {
    Join(Select(Split(col9, ';'), pat), ",")
  }

  /** `get_gff_loc_tags` for one row: the `locus_tag=` fields, joined with
      `,`, with every `locus_tag=` deleted. */
  function LocusTag(col9: string): string {
    RemoveAll(Matching(col9, "locus_tag="), "locus_tag=")
  }

  /** `get_gff_loc_tags` on the column of attributes: one locus tag per row. */
  function LocusTags(col9s: seq<string>): (r: seq<string>)
    ensures |r| == |col9s|
  {
    seq(|col9s|, i requires 0 <= i < |col9s| => LocusTag(col9s[i]))
  }

  /** The characters of the regular expression class `[ID=|.]`. */
  const IdClass: set<char> := {'I', 'D', '=', '|', '.'}

  /** `get_gff_ids` for one row: the fields containing `ID=`, joined with `,`,
      with every character of `[ID=|.]` deleted. */
  function IdValue(col9: string): string {
    DeleteChars(Matching(col9, "ID="), IdClass)
  }

  /** `get_gff_ids` on the column of attributes: one ID per row. */
  function Ids(col9s: seq<string>): (r: seq<string>)
    ensures |r| == |col9s|
  {
    seq(|col9s|, i requires 0 <= i < |col9s| => IdValue(col9s[i]))
  }

  // ---------------------------------------------------------------------
  // is_id_field_set_first
  // ---------------------------------------------------------------------

  /** Whether the first attribute of `col9` holds an `ID=`. */
  predicate IdFirst(col9: string) {
    Contains(Split(col9, ';')[0], "ID=")
  }

  /** `idx_not_id_first_list`: the rows, from `from` on, whose first
      attribute lacks `ID=`, in order. */
  function NotIdFirstRows(col9s: seq<string>, from: nat): (r: seq<nat>)
    requires from <= |col9s|
    ensures forall k :: 0 <= k < |r| ==> from <= r[k] < |col9s| && !IdFirst(col9s[r[k]])
    decreases |col9s| - from
  {
    if from == |col9s| then []
    else (if IdFirst(col9s[from]) then [] else [from]) + NotIdFirstRows(col9s, from + 1)
  }

  /** `is_id_field_set_first` on the column of attributes. */
  predicate IsIdFieldSetFirst(col9s: seq<string>) {
    |NotIdFirstRows(col9s, 0)| == 0
  }

  // ---------------------------------------------------------------------
  // compare_id_and_loc_tags
  // ---------------------------------------------------------------------

  /** One row of the table `compare_id_and_loc_tags` returns: the row index
      and the two extracted values that differ. */
  datatype Mismatch = Mismatch(row: nat, locusTag: string, id: string)

  /** `non_match_attr` from row `from` on: the rows whose locus tag differs
      from their ID, with both values, in row order. */
  function MismatchesFrom(tags: seq<string>, ids: seq<string>, from: nat): (r: seq<Mismatch>)
    requires |tags| == |ids| && from <= |tags|
    ensures forall k :: 0 <= k < |r| ==> from <= r[k].row < |tags|
    decreases |tags| - from
  {
    if from == |tags| then []
    else
      (if tags[from] != ids[from] then [Mismatch(from, tags[from], ids[from])] else []) +
      MismatchesFrom(tags, ids, from + 1)
  }

  /** `compare_id_and_loc_tags` on the column of attributes. */
  function CompareIdAndLocTags(col9s: seq<string>): seq<Mismatch> {
    MismatchesFrom(LocusTags(col9s), Ids(col9s), 0)
  }

  // ---------------------------------------------------------------------
  // parse_col7
  // ---------------------------------------------------------------------

  /** A cell as pandas holds it: a number (when the column was parsed as
      numbers), a string, or a missing value. */
  datatype Cell = Num(n: real) | Text(s: string) | Missing

  /** `gff_df.loc[gff_df[6] == -1, 6] = '-'` on one cell. */
  function MinusToDash(c: Cell): Cell {
    if c == Num(-1.0) then Text("-") else c
  }

  /** `gff_df.loc[gff_df[6] == 1, 6] = '+'` on one cell. */
  function OneToPlus(c: Cell): Cell {
    if c == Num(1.0) then Text("+") else c
  }

  /** `gff_df.loc[(gff_df[6] != '+') & (gff_df[6] != '-'), 6] = '.'` on one
      cell; a missing value differs from both strings. */
  function OtherToDot(c: Cell): Cell {
    if c != Text("+") && c != Text("-") then Text(".") else c
  }

  /** The strand a cell stands for: the number -1 or the string `-` is
      reverse, the number 1 or the string `+` forward, anything else unknown. */
  function Strand(c: Cell): (r: string)
    ensures r == "+" || r == "-" || r == "."
  {
    match c
    case Num(n) => if n == -1.0 then "-" else if n == 1.0 then "+" else "."
    case Text(s) => if s == "+" || s == "-" then s else "."
    case Missing => "."
  }

  /** A table whose rows all have a column 7. */
  ghost predicate HasStrandColumn(rows: seq<seq<Cell>>) {
    forall i :: 0 <= i < |rows| ==> |rows[i]| > 6
  }

  /** The table `parse_col7` writes: column 7 of every row replaced by its
      strand. */
  function StrandsParsed(rows: seq<seq<Cell>>): (r: seq<seq<Cell>>)
    requires HasStrandColumn(rows)
    ensures |r| == |rows| && HasStrandColumn(r)
  {
    seq(|rows|, i requires 0 <= i < |rows| => rows[i][6 := Text(Strand(rows[i][6]))])
  }

  /** `parse_col7`, on the table held in `gff`: the three assignments to
      column 7, in the order the source makes them. */
  method ParseCol7(gff: array<seq<Cell>>)
    requires HasStrandColumn(gff[..])
    modifies gff
    ensures gff[..] == StrandsParsed(old(gff[..]))
  {
    ghost var rows := gff[..];
    MinusToDashAll(gff);
    OneToPlusAll(gff);
    OtherToDotAll(gff);
    forall k | 0 <= k < gff.Length ensures gff[k] == StrandsParsed(rows)[k] {
      assert OtherToDot(OneToPlus(MinusToDash(rows[k][6]))) == Text(Strand(rows[k][6]));
    }
  }

  /** `gff_df.loc[gff_df[6] == -1, 6] = '-'` */
  method MinusToDashAll(gff: array<seq<Cell>>)
    requires HasStrandColumn(gff[..])
    modifies gff
    ensures forall k :: 0 <= k < gff.Length ==> gff[k] == old(gff[k])[6 := MinusToDash(old(gff[k])[6])]
  {
    for i := 0 to gff.Length
      invariant forall k :: 0 <= k < i ==> gff[k] == old(gff[k])[6 := MinusToDash(old(gff[k])[6])]
      invariant forall k :: i <= k < gff.Length ==> gff[k] == old(gff[k])
    {
      assert gff[..][i] == gff[i];
      if gff[i][6] == Num(-1.0) {
        gff[i] := gff[i][6 := Text("-")];
      }
    }
  }

  /** `gff_df.loc[gff_df[6] == 1, 6] = '+'` */
  method OneToPlusAll(gff: array<seq<Cell>>)
    requires HasStrandColumn(gff[..])
    modifies gff
    ensures forall k :: 0 <= k < gff.Length ==> gff[k] == old(gff[k])[6 := OneToPlus(old(gff[k])[6])]
  {
    for i := 0 to gff.Length
      invariant forall k :: 0 <= k < i ==> gff[k] == old(gff[k])[6 := OneToPlus(old(gff[k])[6])]
      invariant forall k :: i <= k < gff.Length ==> gff[k] == old(gff[k])
    {
      assert gff[..][i] == gff[i];
      if gff[i][6] == Num(1.0) {
        gff[i] := gff[i][6 := Text("+")];
      }
    }
  }

  /** `gff_df.loc[(gff_df[6] != '+') & (gff_df[6] != '-'), 6] = '.'` */
  method OtherToDotAll(gff: array<seq<Cell>>)
    requires HasStrandColumn(gff[..])
    modifies gff
    ensures forall k :: 0 <= k < gff.Length ==> gff[k] == old(gff[k])[6 := OtherToDot(old(gff[k])[6])]
  {
    for i := 0 to gff.Length
      invariant forall k :: 0 <= k < i ==> gff[k] == old(gff[k])[6 := OtherToDot(old(gff[k])[6])]
      invariant forall k :: i <= k < gff.Length ==> gff[k] == old(gff[k])
    {
      assert gff[..][i] == gff[i];
      if gff[i][6] != Text("+") && gff[i][6] != Text("-") {
        gff[i] := gff[i][6 := Text(".")];
      }
    }
  }

  // ---------------------------------------------------------------------
  // add_prod_name_to_id
  // ---------------------------------------------------------------------

  /** A row of the product-name file: column 1 the locus tag, column 2 the
      product name. */
  datatype Product = Product(locusTag: string, name: string)

  /** A GFF table: every row has the nine GFF columns. */
  ghost predicate NineColumns(gff: seq<seq<string>>) {
    forall i :: 0 <= i < |gff| ==> |gff[i]| == 9
  }

  /** Column 9 of each row. */
  function Col9s(gff: seq<seq<string>>): (r: seq<string>)
    requires NineColumns(gff)
    ensures |r| == |gff|
  {
    seq(|gff|, i requires 0 <= i < |gff| => gff[i][8])
  }

  /** The product rows whose locus tag is `tag`, in file order. */
  function ProductsFor(tag: string, prods: seq<Product>): (r: seq<Product>)
    ensures |r| <= |prods|
  {
    if prods == [] then []
    else (if prods[0].locusTag == tag then [prods[0]] else []) + ProductsFor(tag, prods[1..])
  }

  /** `gff_w_loc_tags`: each GFF row with its locus tag as a tenth column. */
  function WithLocTags(gff: seq<seq<string>>): (r: seq<seq<string>>)
    requires NineColumns(gff)
    ensures |r| == |gff|
  {
    seq(|gff|, i requires 0 <= i < |gff| => gff[i] + [LocusTag(gff[i][8])])
  }

  /** A table whose rows all have the nine GFF columns and the locus tag. */
  ghost predicate TenColumns(rows: seq<seq<string>>) {
    forall i :: 0 <= i < |rows| ==> |rows[i]| == 10
  }

  /** The rows of the inner merge that come from one row: the row and the
      two product columns, once per product row with the row's locus tag. */
  function MergedFrom(row: seq<string>, prods: seq<Product>): (r: seq<seq<string>>)
    requires |row| == 10
  {
    var ps := ProductsFor(row[9], prods);
    seq(|ps|, k requires 0 <= k < |ps| => row + [ps[k].locusTag, ps[k].name])
  }

  /** `merged_df` after line 146: the rows merged on their locus tag with the
      product rows, in row order. */
  function Merged(rows: seq<seq<string>>, prods: seq<Product>): (r: seq<seq<string>>)
    requires TenColumns(rows)
  {
    if rows == [] then [] else MergedFrom(rows[0], prods) + Merged(rows[1..], prods)
  }

  /** The number of columns `split(';', expand=True)` produces: the most
      fields any merged row has. */
  function FieldWidth(merged: seq<seq<string>>): (w: nat)
    requires forall i :: 0 <= i < |merged| ==> |merged[i]| > 8
    ensures forall i :: 0 <= i < |merged| ==> |Split(merged[i][8], ';')| <= w
    ensures merged == [] ==> w == 0
    ensures merged != [] ==> exists i :: 0 <= i < |merged| && |Split(merged[i][8], ';')| == w
  {
    if merged == [] then 0
    else
      var n, rest := |Split(merged[0][8], ';')|, FieldWidth(merged[1..]);
      assert forall i :: 1 <= i < |merged| ==> merged[i] == merged[1..][i - 1];
      if n < rest then
        assert exists i :: 1 <= i < |merged| && |Split(merged[i][8], ';')| == rest by {
          var j :| 0 <= j < |merged[1..]| && |Split(merged[1..][j][8], ';')| == rest;
          assert merged[j + 1] == merged[1..][j];
        }
        rest
      else
        assert |Split(merged[0][8], ';')| == n;
        n
  }

  /** `count` missing cells, each written as `None` by `astype(str)`. */
  function Nones(count: nat): (r: seq<string>)
    ensures |r| == count && forall k :: 0 <= k < count ==> r[k] == "None"
  {
    seq(count, _ => "None")
  }

  /** The new column 9 of a merged row (lines 150-165). */
  function NewCol9(row: seq<string>, width: nat): string
    requires |row| == 12
  {
    var fields := Split(row[8], ';');
    var padded := fields + Nones(if width < |fields| then 0 else width - |fields|);
    var named := padded[0 := "Name=" + row[10] + "_" + row[11]];
    RemoveStemRuns(RStripChar(LStripChar(Join(named, ";"), '"'), '"'), ";Non", 'e')
  }

  /** What `add_prod_name_to_id` achieves: either it stops before writing
      anything, or it writes these rows. */
  datatype Outcome = Aborted | Written(rows: seq<seq<string>>)

  /** The rows written for the merged rows: columns 1-8 kept, column 9
      rebuilt, the three added columns dropped. */
  function Rebuilt(merged: seq<seq<string>>): (r: seq<seq<string>>)
    requires forall i :: 0 <= i < |merged| ==> |merged[i]| == 12
    ensures |r| == |merged|
  {
    var width := FieldWidth(merged);
    seq(|merged|, i requires 0 <= i < |merged| => merged[i][..8] + [NewCol9(merged[i], width)])
  }

  /** Every merged row has the twelve columns lines 146-147 name. */
  lemma {:induction false} MergedWidth(rows: seq<seq<string>>, prods: seq<Product>)
    requires TenColumns(rows)
    ensures forall i :: 0 <= i < |Merged(rows, prods)| ==> |Merged(rows, prods)[i]| == 12
  {
    if rows != [] {
      assert forall i :: 0 <= i < |rows[1..]| ==> rows[1..][i] == rows[i + 1];
      MergedWidth(rows[1..], prods);
    }
  }

  /** What `add_prod_name_to_id` does with a GFF table and a product-name
      table. */
  function ProdNameAdded(gff: seq<seq<string>>, prods: seq<Product>): Outcome
    requires NineColumns(gff)
  {
    if !IsIdFieldSetFirst(Col9s(gff)) then Aborted
    else
      var merged := Merged(WithLocTags(gff), prods);
      MergedWidth(WithLocTags(gff), prods);
      Written(Rebuilt(merged))
  }

  /** `add_prod_name_to_id`: the check, the merge, then the rewrite of
      column 9. */
  method AddProdNameToId(gff: seq<seq<string>>, prods: seq<Product>) returns (out: Outcome)
    requires NineColumns(gff)
    ensures out == ProdNameAdded(gff, prods)
  {
    if !IsIdFieldSetFirst(Col9s(gff)) {
      return Aborted;
    }
    var gffWithLocTags := WithLocTags(gff);
    var merged := Merged(gffWithLocTags, prods);
    MergedWidth(gffWithLocTags, prods);
    var rows := RebuildCol9(merged);
    out := Written(rows);
  }

  /** Lines 150-171 on the merged table held in an array: column 9 of every
      row replaced, then the columns after it dropped. */
  method RebuildCol9(rows: seq<seq<string>>) returns (written: seq<seq<string>>)
    requires forall i :: 0 <= i < |rows| ==> |rows[i]| == 12
    ensures written == Rebuilt(rows)
  {
    var mergedDf := new seq<string>[|rows|](i requires 0 <= i < |rows| => rows[i]);
    var width := FieldWidth(rows);
    ReplaceCol9(mergedDf, width);
    DropAfterCol9s(mergedDf);
    written := mergedDf[..];
    forall k | 0 <= k < |rows| ensures written[k] == Rebuilt(rows)[k] {
      DropAfterCol9(rows[k], NewCol9(rows[k], width));
    }
  }

  /** `merged_df[8] = new_col9_ser`: column 9 of every row replaced by its
      rebuilt value. */
  method ReplaceCol9(mergedDf: array<seq<string>>, width: nat)
    requires forall k :: 0 <= k < mergedDf.Length ==> |mergedDf[k]| == 12
    modifies mergedDf
    ensures forall k :: 0 <= k < mergedDf.Length ==>
      mergedDf[k] == old(mergedDf[k])[8 := NewCol9(old(mergedDf[k]), width)]
  {
    for i := 0 to mergedDf.Length
      invariant forall k :: 0 <= k < i ==>
        mergedDf[k] == old(mergedDf[k])[8 := NewCol9(old(mergedDf[k]), width)]
      invariant forall k :: i <= k < mergedDf.Length ==> mergedDf[k] == old(mergedDf[k])
    {
      mergedDf[i] := mergedDf[i][8 := NewCol9(mergedDf[i], width)];
    }
  }

  /** `merged_df.drop(columns=[9, 10, 11], inplace=True)` */
  method DropAfterCol9s(mergedDf: array<seq<string>>)
    requires forall k :: 0 <= k < mergedDf.Length ==> |mergedDf[k]| == 12
    modifies mergedDf
    ensures forall k :: 0 <= k < mergedDf.Length ==> mergedDf[k] == old(mergedDf[k])[..9]
  {
    for i := 0 to mergedDf.Length
      invariant forall k :: 0 <= k < i ==> mergedDf[k] == old(mergedDf[k])[..9]
      invariant forall k :: i <= k < mergedDf.Length ==> mergedDf[k] == old(mergedDf[k])
    {
      mergedDf[i] := mergedDf[i][..9];
    }
  }

  /** Replacing column 9 of a twelve-column row and keeping the first nine
      columns gives columns 1-8 followed by the new column 9. */
  lemma DropAfterCol9(row: seq<string>, col9: string)
    requires |row| == 12
    ensures row[8 := col9][..9] == row[..8] + [col9]
  {
    var r := row[8 := col9][..9];
    assert |r| == 9;
    forall k | 0 <= k < 9 ensures r[k] == (row[..8] + [col9])[k] {
    }
  }
}
