/** What the GFF sub-commands promise, proved about the row-level model:
    which attribute values are extracted, which rows are reported, what
    `parse_col7` writes, and which rows `add_prod_name_to_id` writes. */
module GffProperties {
  import opened Strings
  import opened GffParser

  // ---------------------------------------------------------------------
  // Selecting attributes
  // ---------------------------------------------------------------------

  /** A field is selected exactly when it is one of the fields and contains
      the pattern. */
  lemma {:induction false} SelectMembers(fields: seq<string>, pat: string)
    ensures forall x :: x in Select(fields, pat) <==> x in fields && Contains(x, pat)
  {
    if fields != [] {
      SelectMembers(fields[1..], pat);
      assert fields == [fields[0]] + fields[1..];
    }
  }

  /** Selection goes field by field: it distributes over concatenation, so
      the selected fields keep their order. */
  lemma {:induction false} SelectAppend(a: seq<string>, b: seq<string>, pat: string)
    ensures Select(a + b, pat) == Select(a, pat) + Select(b, pat)
  {
    if a == [] {
      assert a + b == b;
    } else {
      assert (a + b)[0] == a[0] && (a + b)[1..] == a[1..] + b;
      SelectAppend(a[1..], b, pat);
      var h := if Contains(a[0], pat) then [a[0]] else [];
      calc {
        Select(a + b, pat);
        h + (Select(a[1..], pat) + Select(b, pat));
        (h + Select(a[1..], pat)) + Select(b, pat);
      }
    }
  }

  /** No field containing the pattern: nothing is selected. */
  lemma {:induction false} SelectNone(fields: seq<string>, pat: string)
    requires forall k :: 0 <= k < |fields| ==> !Contains(fields[k], pat)
    ensures Select(fields, pat) == []
  {
    if fields != [] {
      SelectNone(fields[1..], pat);
    }
  }

  // ---------------------------------------------------------------------
  // get_gff_loc_tags, get_gff_ids
  // ---------------------------------------------------------------------

  /** A row with no `locus_tag=` attribute has the empty locus tag. */
  lemma LocusTagAbsent(col9: string)
    requires forall k :: 0 <= k < |Split(col9, ';')| ==> !Contains(Split(col9, ';')[k], "locus_tag=")
    ensures LocusTag(col9) == ""
  {
    SelectNone(Split(col9, ';'), "locus_tag=");
  }

  /** A row whose only `locus_tag=` attribute is `locus_tag=t` has locus tag
      `t`, when `t` does not itself contain `locus_tag=`. */
  lemma LocusTagSingle(col9: string, t: string)
    requires Select(Split(col9, ';'), "locus_tag=") == ["locus_tag=" + t]
    requires !Contains(t, "locus_tag=")
    ensures LocusTag(col9) == t
  {
    var pat := "locus_tag=";
    var m := pat + t;
    assert Matching(col9, pat) == m;
    assert StartsWith(m, pat) by { assert m[..|pat|] == pat; }
    assert m[|pat|..] == t;
    RemoveAllAbsent(t, pat);
  }

  /** The extracted ID holds none of the characters `I`, `D`, `=`, `|`, `.`,
      and every other character of the `ID=` attributes. */
  lemma IdValueChars(col9: string)
    ensures forall c :: c in IdValue(col9) <==> c in Matching(col9, "ID=") && c !in IdClass
  {
    DeleteCharsSpec(Matching(col9, "ID="), IdClass);
  }

  /** A row with no `ID=` attribute has the empty ID. */
  lemma IdValueAbsent(col9: string)
    requires forall k :: 0 <= k < |Split(col9, ';')| ==> !Contains(Split(col9, ';')[k], "ID=")
    ensures IdValue(col9) == ""
  {
    SelectNone(Split(col9, ';'), "ID=");
  }

  /** A row whose only `ID=` attribute is `ID=t` has ID `t`, when `t` holds
      no character of the class. */
  lemma IdValueSingle(col9: string, t: string)
    requires Select(Split(col9, ';'), "ID=") == ["ID=" + t]
    requires forall i :: 0 <= i < |t| ==> t[i] !in IdClass
    ensures IdValue(col9) == t
  {
    assert Matching(col9, "ID=") == "ID=" + t;
    DeleteCharsAppend("ID=", t, IdClass);
    DeleteCharsAbsent(t, IdClass);
  }

  /** A row whose `ID=` and `locus_tag=` attributes carry the same plain
      value is never reported by `compare_id_and_loc_tags`. */
  lemma SameValueAgrees(col9: string, t: string)
    requires Select(Split(col9, ';'), "locus_tag=") == ["locus_tag=" + t]
    requires Select(Split(col9, ';'), "ID=") == ["ID=" + t]
    requires !Contains(t, "locus_tag=") && forall i :: 0 <= i < |t| ==> t[i] !in IdClass
    ensures LocusTag(col9) == IdValue(col9) == t
  {
    LocusTagSingle(col9, t);
    IdValueSingle(col9, t);
  }

  /** The character class also deletes the `.` of a versioned identifier:
      a row carrying the same value `t` in `ID=` and `locus_tag=` is still
      reported when `t` contains `.`, `|`, `I`, `D` or `=`. */
  lemma ClassCharDiffers(col9: string, t: string, i: nat)
    requires Select(Split(col9, ';'), "locus_tag=") == ["locus_tag=" + t]
    requires Select(Split(col9, ';'), "ID=") == ["ID=" + t]
    requires !Contains(t, "locus_tag=")
    requires i < |t| && t[i] in IdClass
    ensures LocusTag(col9) == t && IdValue(col9) != t
  {
    LocusTagSingle(col9, t);
    IdValueChars(col9);
    assert Matching(col9, "ID=") == "ID=" + t;
    assert t[i] in t && t[i] !in IdValue(col9);
  }

  // ---------------------------------------------------------------------
  // is_id_field_set_first
  // ---------------------------------------------------------------------

  /** `IdFirst` looks at the text before the first `;`: for the position `n`
      of the first `;` (or the end of the text), it holds exactly when that
      text contains `ID=`. */
  lemma IdFirstMeaning(col9: string, n: nat)
    requires n <= |col9| && ';' !in col9[..n] && (n == |col9| || col9[n] == ';')
    ensures IdFirst(col9) <==> Contains(col9[..n], "ID=")
  {
    SplitFirst(col9, ';');
    var f := Split(col9, ';')[0];
    assert f == col9[..n];
  }

  /** The rows listed from `from` on are exactly the rows whose first
      attribute lacks `ID=`, in increasing order. */
  lemma {:induction false} NotIdFirstRowsExact(col9s: seq<string>, from: nat)
    requires from <= |col9s|
    ensures forall k :: k in NotIdFirstRows(col9s, from) <==> from <= k < |col9s| && !IdFirst(col9s[k])
    ensures forall a, b :: 0 <= a < b < |NotIdFirstRows(col9s, from)| ==>
      NotIdFirstRows(col9s, from)[a] < NotIdFirstRows(col9s, from)[b]
    decreases |col9s| - from
  {
    if from < |col9s| {
      NotIdFirstRowsExact(col9s, from + 1);
    }
  }

  /** `is_id_field_set_first` holds exactly when every row's first attribute
      contains `ID=`; in particular it holds for a table with no rows. */
  lemma IsIdFieldSetFirstIff(col9s: seq<string>)
    ensures IsIdFieldSetFirst(col9s) <==> forall i :: 0 <= i < |col9s| ==> IdFirst(col9s[i])
  {
    NotIdFirstRowsExact(col9s, 0);
    if !IsIdFieldSetFirst(col9s) {
      assert NotIdFirstRows(col9s, 0)[0] in NotIdFirstRows(col9s, 0);
    }
  }

  // ---------------------------------------------------------------------
  // compare_id_and_loc_tags
  // ---------------------------------------------------------------------

  /** A row `compare_id_and_loc_tags` should report: its locus tag and ID
      differ, and the entry carries both. */
  ghost predicate Reported(tags: seq<string>, ids: seq<string>, m: Mismatch)
    requires |tags| == |ids|
  {
    m.row < |tags| && m.locusTag == tags[m.row] && m.id == ids[m.row] && m.locusTag != m.id
  }

  /** The reported rows from `from` on are exactly the rows whose locus tag
      and ID differ, each with those two values. */
  lemma {:induction false} MismatchesFromMembers(tags: seq<string>, ids: seq<string>, from: nat)
    requires |tags| == |ids| && from <= |tags|
    ensures forall m :: m in MismatchesFrom(tags, ids, from) <==> from <= m.row && Reported(tags, ids, m)
    decreases |tags| - from
  {
    if from < |tags| {
      MismatchesFromMembers(tags, ids, from + 1);
      var rest := MismatchesFrom(tags, ids, from + 1);
      var h := if tags[from] != ids[from] then [Mismatch(from, tags[from], ids[from])] else [];
      assert MismatchesFrom(tags, ids, from) == h + rest;
    }
  }

  /** The reported rows from `from` on come in increasing row order. */
  lemma {:induction false} MismatchesFromOrdered(tags: seq<string>, ids: seq<string>, from: nat)
    requires |tags| == |ids| && from <= |tags|
    ensures forall a, b :: 0 <= a < b < |MismatchesFrom(tags, ids, from)| ==>
      MismatchesFrom(tags, ids, from)[a].row < MismatchesFrom(tags, ids, from)[b].row
    decreases |tags| - from
  {
    if from < |tags| {
      MismatchesFromOrdered(tags, ids, from + 1);
      var r, rest := MismatchesFrom(tags, ids, from), MismatchesFrom(tags, ids, from + 1);
      var h := if tags[from] != ids[from] then [Mismatch(from, tags[from], ids[from])] else [];
      assert r == h + rest;
      forall a, b | 0 <= a < b < |r| ensures r[a].row < r[b].row {
        assert r[b] == rest[b - |h|];
        if a >= |h| {
          assert r[a] == rest[a - |h|];
        } else {
          assert r[a] == h[0] && r[a].row == from;
          assert rest[b - |h|].row >= from + 1;
        }
      }
    }
  }

  /** `compare_id_and_loc_tags` reports exactly the rows whose extracted
      locus tag differs from their extracted ID, with both values, once
      each, in row order. */
  lemma CompareExact(col9s: seq<string>)
    ensures forall m :: m in CompareIdAndLocTags(col9s) <==>
      m.row < |col9s| && m.locusTag == LocusTags(col9s)[m.row] &&
      m.id == Ids(col9s)[m.row] && m.locusTag != m.id
    ensures forall a, b :: 0 <= a < b < |CompareIdAndLocTags(col9s)| ==>
      CompareIdAndLocTags(col9s)[a].row < CompareIdAndLocTags(col9s)[b].row
  {
    var tags, ids := LocusTags(col9s), Ids(col9s);
    var r := MismatchesFrom(tags, ids, 0);
    assert CompareIdAndLocTags(col9s) == r;
    MismatchesFromMembers(tags, ids, 0);
    MismatchesFromOrdered(tags, ids, 0);
    forall m: Mismatch ensures m in r <==>
      m.row < |col9s| && m.locusTag == tags[m.row] && m.id == ids[m.row] && m.locusTag != m.id
    {
      assert m in r <==> Reported(tags, ids, m);
    }
  }

  // ---------------------------------------------------------------------
  // parse_col7
  // ---------------------------------------------------------------------

  /** The three assignments, in the source's order, leave the strand of the
      cell. */
  lemma ThreePasses(c: Cell)
    ensures OtherToDot(OneToPlus(MinusToDash(c))) == Text(Strand(c))
  {
  }

  /** Run in another order the passes would lose the numeric strands: the
      catch-all assignment must come last. */
  lemma CatchAllLast()
    ensures MinusToDash(OneToPlus(OtherToDot(Num(-1.0)))) == Text(".")
    ensures OtherToDot(OneToPlus(MinusToDash(Num(-1.0)))) == Text("-")
  {
  }

  /** After `parse_col7` every row keeps its length and its other columns,
      and column 7 is one of `+`, `-`, `.`. */
  lemma StrandsParsedCells(rows: seq<seq<Cell>>)
    requires HasStrandColumn(rows)
    ensures forall i :: 0 <= i < |rows| ==>
      |StrandsParsed(rows)[i]| == |rows[i]| &&
      StrandsParsed(rows)[i][6] in {Text("+"), Text("-"), Text(".")} &&
      forall j :: 0 <= j < |rows[i]| && j != 6 ==> StrandsParsed(rows)[i][j] == rows[i][j]
  {
  }

  /** A strand that is already `+`, `-` or `.` is kept: running `parse_col7`
      on its own output changes nothing. */
  lemma StrandsParsedIdempotent(rows: seq<seq<Cell>>)
    requires HasStrandColumn(rows)
    ensures StrandsParsed(StrandsParsed(rows)) == StrandsParsed(rows)
  {
    var once := StrandsParsed(rows);
    forall i | 0 <= i < |rows| ensures StrandsParsed(once)[i] == once[i] {
      assert Strand(Text(Strand(rows[i][6]))) == Strand(rows[i][6]);
      assert once[i][6 := once[i][6]] == once[i];
    }
  }

  /** `-1` and `1` read as numbers become `-` and `+`. */
  lemma NumericStrands(c: Cell)
    ensures c == Num(-1.0) ==> Strand(c) == "-"
    ensures c == Num(1.0) ==> Strand(c) == "+"
    ensures c.Num? && c.n != 1.0 && c.n != -1.0 ==> Strand(c) == "."
  {
  }

  // ---------------------------------------------------------------------
  // add_prod_name_to_id: the check and the merge
  // ---------------------------------------------------------------------

  /** The table is left unwritten exactly when some row's first attribute
      lacks `ID=`. */
  lemma AbortedIff(gff: seq<seq<string>>, prods: seq<Product>)
    requires NineColumns(gff)
    ensures ProdNameAdded(gff, prods) == Aborted <==> exists i :: 0 <= i < |gff| && !IdFirst(gff[i][8])
  {
    var col9s := Col9s(gff);
    IsIdFieldSetFirstIff(col9s);
    assert forall i :: 0 <= i < |gff| ==> col9s[i] == gff[i][8];
  }

  /** The product rows kept for a tag are exactly the product rows with that
      locus tag. */
  lemma {:induction false} ProductsForMembers(tag: string, prods: seq<Product>)
    ensures forall p :: p in ProductsFor(tag, prods) <==> p in prods && p.locusTag == tag
  {
    if prods != [] {
      ProductsForMembers(tag, prods[1..]);
      assert prods == [prods[0]] + prods[1..];
    }
  }

  /** The merge goes row by row: it distributes over concatenation, so
      merged rows come in GFF row order. */
  lemma {:induction false} MergedAppend(a: seq<seq<string>>, b: seq<seq<string>>, prods: seq<Product>)
    requires TenColumns(a) && TenColumns(b)
    ensures TenColumns(a + b)
    ensures Merged(a + b, prods) == Merged(a, prods) + Merged(b, prods)
  {
    TenColumnsAppend(a, b);
    if a == [] {
      assert a + b == b;
    } else {
      var t := a[1..];
      assert TenColumns(t) by {
        assert forall i :: 0 <= i < |t| ==> t[i] == a[i + 1];
      }
      assert (a + b)[0] == a[0] && (a + b)[1..] == t + b;
      MergedAppend(t, b, prods);
      var h := MergedFrom(a[0], prods);
      calc {
        Merged(a + b, prods);
        h + Merged(t + b, prods);
        h + (Merged(t, prods) + Merged(b, prods));
        (h + Merged(t, prods)) + Merged(b, prods);
        Merged(a, prods) + Merged(b, prods);
      }
    }
  }

  lemma TenColumnsAppend(a: seq<seq<string>>, b: seq<seq<string>>)
    requires TenColumns(a) && TenColumns(b)
    ensures TenColumns(a + b)
  {
    forall i | 0 <= i < |a + b| ensures |(a + b)[i]| == 10 {
      if i >= |a| {
        assert (a + b)[i] == b[i - |a|];
      }
    }
  }

  /** What a merged row is made of: a row and a product row whose locus tag
      is the row's tenth column. */
  ghost predicate MergedRowOf(m: seq<string>, rows: seq<seq<string>>, prods: seq<Product>) {
    |m| == 12 && m[..10] in rows && m[10] == m[9] && Product(m[10], m[11]) in prods
  }

  lemma MergedFromSound(row: seq<string>, rows: seq<seq<string>>, prods: seq<Product>)
    requires |row| == 10 && row in rows
    ensures forall k :: 0 <= k < |MergedFrom(row, prods)| ==> MergedRowOf(MergedFrom(row, prods)[k], rows, prods)
  {
    ProductsForMembers(row[9], prods);
    var ps := ProductsFor(row[9], prods);
    forall k | 0 <= k < |MergedFrom(row, prods)| ensures MergedRowOf(MergedFrom(row, prods)[k], rows, prods) {
      var m := MergedFrom(row, prods)[k];
      assert m == row + [ps[k].locusTag, ps[k].name];
      assert m[..10] == row;
      assert ps[k] in ps;
    }
  }

  /** Every merged row is a row joined to a product row with its locus tag. */
  lemma {:induction false} MergedSound(rows: seq<seq<string>>, prods: seq<Product>)
    requires TenColumns(rows)
    ensures forall k :: 0 <= k < |Merged(rows, prods)| ==> MergedRowOf(Merged(rows, prods)[k], rows, prods)
  {
    if rows != [] {
      MergedSound(rows[1..], prods);
      MergedFromSound(rows[0], rows, prods);
      var h, t := MergedFrom(rows[0], prods), Merged(rows[1..], prods);
      assert Merged(rows, prods) == h + t;
      forall k | 0 <= k < |h + t| ensures MergedRowOf((h + t)[k], rows, prods) {
        if k >= |h| {
          assert (h + t)[k] == t[k - |h|];
          assert MergedRowOf(t[k - |h|], rows[1..], prods);
          assert t[k - |h|][..10] in rows[1..];
        }
      }
    }
  }

  lemma MergedFromComplete(row: seq<string>, prods: seq<Product>, j: nat)
    requires |row| == 10 && j < |prods| && prods[j].locusTag == row[9]
    ensures row + [prods[j].locusTag, prods[j].name] in MergedFrom(row, prods)
  {
    ProductsForMembers(row[9], prods);
    var ps := ProductsFor(row[9], prods);
    assert prods[j] in ps;
    var k :| 0 <= k < |ps| && ps[k] == prods[j];
    assert MergedFrom(row, prods)[k] == row + [prods[j].locusTag, prods[j].name];
  }

  /** Every pair of a row and a product row with its locus tag gives a
      merged row: the merge is inner on the locus tag. */
  lemma {:induction false} MergedComplete(rows: seq<seq<string>>, prods: seq<Product>)
    requires TenColumns(rows)
    ensures forall i, j :: 0 <= i < |rows| && 0 <= j < |prods| && prods[j].locusTag == rows[i][9] ==>
      rows[i] + [prods[j].locusTag, prods[j].name] in Merged(rows, prods)
  {
    if rows != [] {
      MergedComplete(rows[1..], prods);
      var h, t := MergedFrom(rows[0], prods), Merged(rows[1..], prods);
      assert Merged(rows, prods) == h + t;
      forall i, j | 0 <= i < |rows| && 0 <= j < |prods| && prods[j].locusTag == rows[i][9]
        ensures rows[i] + [prods[j].locusTag, prods[j].name] in h + t
      {
        if i == 0 {
          MergedFromComplete(rows[0], prods, j);
        } else {
          assert rows[i] == rows[1..][i - 1];
        }
      }
    }
  }

  /** The GFF rows that `add_prod_name_to_id` merges: each with its own locus
      tag in column 10. */
  lemma WithLocTagsRows(gff: seq<seq<string>>)
    requires NineColumns(gff)
    ensures TenColumns(WithLocTags(gff))
    ensures forall i :: 0 <= i < |gff| ==>
      WithLocTags(gff)[i][..9] == gff[i] && WithLocTags(gff)[i][9] == LocusTag(gff[i][8])
  {
    forall i | 0 <= i < |gff| ensures WithLocTags(gff)[i][..9] == gff[i] {
      assert (gff[i] + [LocusTag(gff[i][8])])[..9] == gff[i];
    }
  }

  /** When the table is written, each written row has the nine GFF columns,
      its columns 1-8 are those of a GFF row, and a product row carries that
      GFF row's locus tag; every such pair of a GFF row and a product row
      gives a merged row, and there is one written row per merged row. */
  lemma WrittenRows(gff: seq<seq<string>>, prods: seq<Product>)
    requires NineColumns(gff)
    ensures ProdNameAdded(gff, prods).Written? ==>
      var out := ProdNameAdded(gff, prods).rows;
      |out| == |Merged(WithLocTags(gff), prods)| &&
      forall k :: 0 <= k < |out| ==>
        (|out[k]| == 9 &&
         exists i, j :: 0 <= i < |gff| && 0 <= j < |prods| &&
           out[k][..8] == gff[i][..8] && prods[j].locusTag == LocusTag(gff[i][8]))
  {
    if ProdNameAdded(gff, prods).Written? {
      var rows := WithLocTags(gff);
      WithLocTagsRows(gff);
      var merged := Merged(rows, prods);
      MergedWidth(rows, prods);
      MergedSound(rows, prods);
      var out := Rebuilt(merged);
      forall k | 0 <= k < |out|
        ensures |out[k]| == 9 &&
          exists i, j :: 0 <= i < |gff| && 0 <= j < |prods| &&
            out[k][..8] == gff[i][..8] && prods[j].locusTag == LocusTag(gff[i][8])
      {
        var m := merged[k];
        assert MergedRowOf(m, rows, prods);
        var i :| 0 <= i < |rows| && rows[i] == m[..10];
        var j :| 0 <= j < |prods| && prods[j] == Product(m[10], m[11]);
        assert out[k][..8] == m[..8];
        assert m[..8] == rows[i][..9][..8] == gff[i][..8];
        assert m[9] == rows[i][9] == LocusTag(gff[i][8]);
      }
    }
  }

  /** Each pair of a GFF row and a product row with that row's locus tag is
      merged into the row, its locus tag and the product's two columns. */
  lemma MergedPairs(gff: seq<seq<string>>, prods: seq<Product>)
    requires NineColumns(gff)
    ensures forall i, j :: 0 <= i < |gff| && 0 <= j < |prods| && prods[j].locusTag == LocusTag(gff[i][8]) ==>
      gff[i] + [LocusTag(gff[i][8]), prods[j].locusTag, prods[j].name] in Merged(WithLocTags(gff), prods)
  {
    forall i, j | 0 <= i < |gff| && 0 <= j < |prods| && prods[j].locusTag == LocusTag(gff[i][8])
      ensures gff[i] + [LocusTag(gff[i][8]), prods[j].locusTag, prods[j].name] in Merged(WithLocTags(gff), prods)
    {
      var rows := WithLocTags(gff);
      assert TenColumns(rows);
      MergedPair(rows, prods, i, j, gff[i], LocusTag(gff[i][8]));
    }
  }

  lemma MergedPair(rows: seq<seq<string>>, prods: seq<Product>, i: nat, j: nat, row: seq<string>, tag: string)
    requires TenColumns(rows) && i < |rows| && j < |prods| && rows[i] == row + [tag] && prods[j].locusTag == tag
    ensures row + [tag, prods[j].locusTag, prods[j].name] in Merged(rows, prods)
  {
    MergedComplete(rows, prods);
    assert rows[i] + [prods[j].locusTag, prods[j].name] == row + [tag, prods[j].locusTag, prods[j].name];
  }

  // ---------------------------------------------------------------------
  // add_prod_name_to_id: the new column 9
  // ---------------------------------------------------------------------

  /** The column 9 the rewrite aims at: the first attribute replaced by
      `Name=<locus tag>_<product name>`, the other attributes kept. */
  function Renamed(row: seq<string>): string
    requires |row| == 12
  {
    Join(["Name=" + row[10] + "_" + row[11]] + Split(row[8], ';')[1..], ";")
  }

  /** The renamed column 9 splits into the new `Name=` attribute followed by
      the row's other attributes, unchanged and in order, when the locus tag
      and the product name hold no `;`. */
  lemma RenamedAttributes(row: seq<string>)
    requires |row| == 12 && ';' !in row[10] && ';' !in row[11]
    ensures Split(Renamed(row), ';') == ["Name=" + row[10] + "_" + row[11]] + Split(row[8], ';')[1..]
  {
    var parts := ["Name=" + row[10] + "_" + row[11]] + Split(row[8], ';')[1..];
    SplitPieces(row[8], ';');
    forall i | 0 <= i < |parts| ensures ';' !in parts[i] {
      if i == 0 {
        assert parts[0] == "Name=" + row[10] + "_" + row[11];
      } else {
        assert parts[i] == Split(row[8], ';')[i];
      }
    }
    SplitJoin(parts, ';');
  }

  /** `k` padding cells after the attributes, as `';'.join` writes them. */
  function NoneRuns(k: nat): string {
    if k == 0 then "" else ";None" + NoneRuns(k - 1)
  }

  lemma {:induction false} JoinNones(k: nat)
    requires k > 0
    ensures ";" + Join(Nones(k), ";") == NoneRuns(k)
  {
    if k > 1 {
      JoinNones(k - 1);
      assert Nones(k)[1..] == Nones(k - 1);
    }
  }

  /** The cleanup removes the padding completely. */
  lemma {:induction false} RemoveNoneRuns(k: nat)
    ensures RemoveStemRuns(NoneRuns(k), ";Non", 'e') == ""
  {
    if k > 0 {
      var s := NoneRuns(k);
      var rest := NoneRuns(k - 1);
      assert StartsWith(s, ";Non");
      assert s[4..] == "e" + rest;
      assert ("e" + rest)[1..] == rest;
      assert LStripChar(rest, 'e') == rest;
      RemoveNoneRuns(k - 1);
    }
  }

  /** The joined attributes start with `N`, so `lstrip('"')` keeps them. */
  lemma JoinStartsWithName(parts: seq<string>)
    requires |parts| > 0 && |parts[0]| > 0 && parts[0][0] == 'N'
    ensures LStripChar(Join(parts, ";"), '"') == Join(parts, ";")
  {
    assert Join(parts, ";")[0] == 'N';
  }

  /** The new column 9 is the renamed attribute list, when no attribute
      starts with `Non` (which the cleanup would also cut): a row with the
      most fields loses the quotation marks at its end, a shorter row loses
      its padding. */
  lemma NewCol9Renamed(row: seq<string>, width: nat)
    requires |row| == 12 && !Contains(Renamed(row), ";Non")
    ensures width <= |Split(row[8], ';')| ==> NewCol9(row, width) == RStripChar(Renamed(row), '"')
    ensures width > |Split(row[8], ';')| ==> NewCol9(row, width) == Renamed(row)
  {
    if width <= |Split(row[8], ';')| {
      NewCol9Widest(row, width);
    } else {
      NewCol9Padded(row, width);
    }
  }

  lemma NewCol9Widest(row: seq<string>, width: nat)
    requires |row| == 12 && !Contains(Renamed(row), ";Non")
    requires width <= |Split(row[8], ';')|
    ensures NewCol9(row, width) == RStripChar(Renamed(row), '"')
  {
    var fields := Split(row[8], ';');
    var nm := "Name=" + row[10] + "_" + row[11];
    var genuine := Renamed(row);
    var head := [nm] + fields[1..];
    assert fields + Nones(0) == fields;
    assert fields[0 := nm] == head;
    JoinStartsWithName(head);
    var g := RStripChar(genuine, '"');
    RStripCharSpec(genuine, '"');
    ContainsPrefix(genuine, |g|, ";Non");
    RemoveStemRunsAbsent(g, ";Non", 'e');
  }

  lemma NewCol9Padded(row: seq<string>, width: nat)
    requires |row| == 12 && !Contains(Renamed(row), ";Non")
    requires width > |Split(row[8], ';')|
    ensures NewCol9(row, width) == Renamed(row)
  {
    var k := width - |Split(row[8], ';')|;
    PaddedJoin(row, k);
    RenamedStart(row);
    CleanupPadding(Renamed(row), k);
  }

  /** Joining the padded attributes gives the renamed list and then one
      `;None` per padding cell. */
  lemma PaddedJoin(row: seq<string>, k: nat)
    requires |row| == 12 && k > 0
    ensures Join((Split(row[8], ';') + Nones(k))[0 := "Name=" + row[10] + "_" + row[11]], ";")
      == Renamed(row) + NoneRuns(k)
  {
    var fields := Split(row[8], ';');
    var nm := "Name=" + row[10] + "_" + row[11];
    var head := [nm] + fields[1..];
    var named := (fields + Nones(k))[0 := nm];
    assert named == head + Nones(k);
    JoinAppend(head, Nones(k), ";");
    JoinNones(k);
  }

  /** Stripping quotation marks and the `;None*` cleanup take the padding off
      a text that starts with `N` and has no `;Non` of its own. */
  lemma CleanupPadding(genuine: string, k: nat)
    requires |genuine| > 0 && genuine[0] == 'N' && !Contains(genuine, ";Non") && k > 0
    ensures RemoveStemRuns(RStripChar(LStripChar(genuine + NoneRuns(k), '"'), '"'), ";Non", 'e') == genuine
  {
    var text := genuine + NoneRuns(k);
    assert LStripChar(text, '"') == text by {
      assert text[0] == 'N';
    }
    assert RStripChar(text, '"') == text by {
      NoneRunsLast(k);
      assert text[|text| - 1] == NoneRuns(k)[|NoneRuns(k)| - 1];
    }
    RemoveStemRunsAppend(genuine, NoneRuns(k), ";Non", 'e');
    RemoveNoneRuns(k);
    assert genuine + "" == genuine;
  }

  /** The renamed column 9 starts with the `N` of `Name=`. */
  lemma RenamedStart(row: seq<string>)
    requires |row| == 12
    ensures |Renamed(row)| > 0 && Renamed(row)[0] == 'N'
  {
    var nm := "Name=" + row[10] + "_" + row[11];
    assert nm[0] == 'N';
  }

  lemma {:induction false} NoneRunsLast(k: nat)
    requires k > 0
    ensures |NoneRuns(k)| >= 5 && NoneRuns(k)[|NoneRuns(k)| - 1] == 'e'
  {
    if k > 1 {
      NoneRunsLast(k - 1);
    }
  }
}
