/** What the FASTA filter does with its input, proved about the functions
    that its three methods are verified against: where the records come from,
    in what order they are kept, when writing them back reproduces the file,
    and what filtering keeps. */
module FastaProperties {
  import opened Strings
  import opened FilterFastaById

  /** None of the lines is a header line. */
  ghost predicate NoHeaders(lines: seq<string>) {
    forall i :: 0 <= i < |lines| ==> !IsHeader(lines[i])
  }

  /** The key a header line is stored under is not empty. */
  lemma {:induction false} HeaderKeyNonEmpty(line: string)
    requires IsHeader(line)
    ensures RStripSpace(line) != "" && RStripSpace(line)[0] == '>'
  {
    RStripSpaceSpec(line);
    assert !IsSpace(line[0]);
  }

  lemma {:induction false} RunAppend(st: Scan, a: seq<string>, b: seq<string>)
    ensures Run(st, a + b) == Run(Run(st, a), b)
    decreases |a|
  {
    if a == [] {
      assert a + b == b;
    } else {
      assert (a + b)[0] == a[0];
      assert (a + b)[1..] == a[1..] + b;
      RunAppend(Step(st, a[0]), a[1..], b);
    }
  }

  lemma {:induction false} RunCons(st: Scan, line: string, lines: seq<string>)
    ensures Run(st, [line] + lines) == Run(Step(st, line), lines)
  {
    assert ([line] + lines)[0] == line && ([line] + lines)[1..] == lines;
  }

  /** Inside a record whose header has not changed, sequence lines are
      appended verbatim, terminators included. */
  lemma {:induction false} RunSequenceLines(st: Scan, lines: seq<string>)
    requires st.headerOld == st.headerCur && NoHeaders(lines)
    ensures Run(st, lines) == st.(sequence := st.sequence + Concat(lines))
    decreases |lines|
  {
    if lines != [] {
      RunSequenceLines(Step(st, lines[0]), lines[1..]);
    }
  }

  /** A file without any header line gives one entry, under the empty key,
      holding all of the file. */
  lemma {:induction false} ParsedNoHeader(lines: seq<string>)
    requires NoHeaders(lines)
    ensures Parsed(lines) == Dict([""], map["" := Concat(lines)])
  {
    RunSequenceLines(Start, lines);
    assert "" + Concat(lines) == Concat(lines);
  }

  /** An empty file gives the single entry `'' -> ''`. */
  lemma {:induction false} ParsedEmptyFile()
    ensures Parsed([]) == Dict([""], map["" := ""])
  {
    ParsedNoHeader([]);
  }

  /** A header line repeating the header right before it commits what was
      read so far, then keeps appending to the same sequence: the key ends
      up holding the sequence lines of both records. */
  lemma {:induction false} RepeatedHeaderConcatenates(st: Scan, line: string, body: seq<string>)
    requires st.headerOld == st.headerCur != "" && IsHeader(line) && RStripSpace(line) == st.headerCur
    requires NoHeaders(body)
    ensures Run(st, [line] + body)
         == st.(dict := Insert(st.dict, st.headerCur, st.sequence), sequence := st.sequence + Concat(body))
  {
    RunCons(st, line, body);
    RunSequenceLines(Step(st, line), body);
  }

  /** A header line followed directly by another header line is stored with
      the sequence of the record before it. */
  lemma {:induction false} EmptyRecordInherits(st: Scan, line1: string, line2: string, rest: seq<string>)
    requires st.headerOld != "" && IsHeader(line1) && IsHeader(line2)
    ensures Run(st, [line1, line2] + rest)
         == Run(st.(dict := Insert(Insert(st.dict, st.headerCur, st.sequence), RStripSpace(line1), st.sequence),
                    headerCur := RStripSpace(line2)), rest)
  {
    RunCons(st, line1, [line2] + rest);
    assert [line1, line2] + rest == [line1] + ([line2] + rest);
    RunCons(Step(st, line1), line2, rest);
  }

  // ---------------------------------------------------------------------
  // Key order: first appearance
  // ---------------------------------------------------------------------

  /** The keys (stripped header lines) of the header lines, in file order. */
  function HeaderKeys(lines: seq<string>): seq<string> {
    if lines == [] then []
    else (if IsHeader(lines[0]) then [RStripSpace(lines[0])] else []) + HeaderKeys(lines[1..])
  }

  /** `acc` followed by the elements of `hs` not seen before, each at its
      first appearance. */
  function FirstAppearances(acc: seq<string>, hs: seq<string>): seq<string>
    decreases |hs|
  {
    if hs == [] then acc else FirstAppearances(AddKey(acc, hs[0]), hs[1..])
  }

  /** The keys seen before are kept, in front and in order. */
  lemma {:induction false} FirstAppearancesPrefix(acc: seq<string>, hs: seq<string>)
    ensures var r := FirstAppearances(acc, hs);
      |acc| <= |r| && r[..|acc|] == acc
    decreases |hs|
  {
    if hs != [] {
      var acc1 := AddKey(acc, hs[0]);
      FirstAppearancesPrefix(acc1, hs[1..]);
      assert acc1[..|acc|] == acc;
    }
  }

  /** Every key seen, and only those, appears. */
  lemma {:induction false} FirstAppearancesMembers(acc: seq<string>, hs: seq<string>)
    ensures forall x :: x in FirstAppearances(acc, hs) <==> x in acc || x in hs
    decreases |hs|
  {
    if hs != [] {
      FirstAppearancesMembers(AddKey(acc, hs[0]), hs[1..]);
      assert hs == [hs[0]] + hs[1..];
    }
  }

  /** No key appears twice. */
  lemma {:induction false} FirstAppearancesDistinct(acc: seq<string>, hs: seq<string>)
    requires Distinct(acc)
    ensures Distinct(FirstAppearances(acc, hs))
    decreases |hs|
  {
    if hs != [] {
      FirstAppearancesDistinct(AddKey(acc, hs[0]), hs[1..]);
    }
  }

  lemma {:induction false} KeysAfterFirstHeader(st: Scan, lines: seq<string>)
    requires st.headerOld != "" && st.headerCur != ""
    ensures Finish(Run(st, lines)).keys
         == FirstAppearances(AddKey(st.dict.keys, st.headerCur), HeaderKeys(lines))
    decreases |lines|
  {
    if lines != [] {
      var st1 := Step(st, lines[0]);
      assert Run(st, lines) == Run(st1, lines[1..]);
      var hs := HeaderKeys(lines);
      if IsHeader(lines[0]) {
        HeaderKeyNonEmpty(lines[0]);
        assert hs == [RStripSpace(lines[0])] + HeaderKeys(lines[1..]);
        assert st1.dict.keys == AddKey(st.dict.keys, st.headerCur);
        assert st1.headerCur == RStripSpace(lines[0]);
      } else {
        assert hs == HeaderKeys(lines[1..]);
        assert st1.dict == st.dict && st1.headerCur == st.headerCur;
      }
      KeysAfterFirstHeader(st1, lines[1..]);
    }
  }

  lemma {:induction false} KeysBeforeFirstHeader(st: Scan, lines: seq<string>)
    requires st.dict == Empty && st.headerOld == "" && st.headerCur == ""
    ensures Finish(Run(st, lines)).keys
         == if HeaderKeys(lines) == [] then [""] else FirstAppearances([], HeaderKeys(lines))
    decreases |lines|
  {
    if lines != [] {
      var st1 := Step(st, lines[0]);
      assert Run(st, lines) == Run(st1, lines[1..]);
      var hs := HeaderKeys(lines);
      if IsHeader(lines[0]) {
        HeaderKeyNonEmpty(lines[0]);
        assert hs == [RStripSpace(lines[0])] + HeaderKeys(lines[1..]);
        assert st1 == Scan(Empty, RStripSpace(lines[0]), RStripSpace(lines[0]), st.sequence);
        KeysAfterFirstHeader(st1, lines[1..]);
        assert AddKey([], RStripSpace(lines[0])) == [RStripSpace(lines[0])];
      } else {
        assert hs == HeaderKeys(lines[1..]);
        KeysBeforeFirstHeader(st1, lines[1..]);
      }
    }
  }

  /** The keys of the dictionary are the stripped header lines in the order
      in which each first appears; a file without a header line has the
      single key `''`. */
  lemma {:induction false} ParsedKeyOrder(lines: seq<string>)
    ensures Parsed(lines).keys
         == if HeaderKeys(lines) == [] then [""] else FirstAppearances([], HeaderKeys(lines))
  {
    KeysBeforeFirstHeader(Start, lines);
  }

  // ---------------------------------------------------------------------
  // Files made of records
  // ---------------------------------------------------------------------

  /** One header line and the lines that follow it up to the next header. */
  datatype Record = Record(headerLine: string, body: seq<string>)

  /** The key the record is stored under: its header line stripped. */
  function Key(r: Record): string {
    RStripSpace(r.headerLine)
  }

  /** A record that starts with a header line and has at least one sequence line. */
  ghost predicate WellFormed(r: Record) {
    IsHeader(r.headerLine) && |r.body| > 0 && NoHeaders(r.body)
  }

  /** The lines of a file made of these records. */
  function Lines(recs: seq<Record>): seq<string> {
    if recs == [] then [] else [recs[0].headerLine] + recs[0].body + Lines(recs[1..])
  }

  /** Each record stored with all of its sequence lines. */
  function Entries(recs: seq<Record>): seq<(string, string)> {
    if recs == [] then [] else [(Key(recs[0]), Concat(recs[0].body))] + Entries(recs[1..])
  }

  function EntryKeys(es: seq<(string, string)>): seq<string> {
    if es == [] then [] else [es[0].0] + EntryKeys(es[1..])
  }

  /** The dictionary after assigning each entry in turn. */
  function InsertAll(d: Dict, es: seq<(string, string)>): (r: Dict)
    ensures d.Valid() ==> r.Valid()
    decreases |es|
  {
    if es == [] then d else InsertAll(Insert(d, es[0].0, es[0].1), es[1..])
  }

  /** No record has the same key as the record right before it. */
  ghost predicate NoAdjacentRepeat(recs: seq<Record>) {
    forall i :: 0 < i < |recs| ==> Key(recs[i - 1]) != Key(recs[i])
  }

  lemma {:induction false} RunRecords(st: Scan, recs: seq<Record>)
    requires st.headerOld == st.headerCur != ""
    requires forall i :: 0 <= i < |recs| ==> WellFormed(recs[i])
    requires NoAdjacentRepeat(recs)
    requires recs != [] ==> Key(recs[0]) != st.headerCur
    ensures Finish(Run(st, Lines(recs)))
         == InsertAll(st.dict, [(st.headerCur, st.sequence)] + Entries(recs))
    decreases |recs|
  {
    if recs == [] {
      assert [(st.headerCur, st.sequence)] + Entries(recs) == [(st.headerCur, st.sequence)];
    } else {
      var r := recs[0];
      assert WellFormed(r);
      var k := Key(r);
      HeaderKeyNonEmpty(r.headerLine);
      var lines := Lines(recs);
      var rest := Lines(recs[1..]);
      assert lines == [r.headerLine] + ([r.body[0]] + (r.body[1..] + rest));
      var st1 := Step(st, r.headerLine);
      var st2 := Step(st1, r.body[0]);
      assert st2 == Scan(Insert(st.dict, st.headerCur, st.sequence), k, k, r.body[0]);
      RunAppend(st, [r.headerLine], [r.body[0]] + (r.body[1..] + rest));
      RunAppend(st1, [r.body[0]], r.body[1..] + rest);
      RunAppend(st2, r.body[1..], rest);
      assert NoHeaders(r.body[1..]) by {
        forall i | 0 <= i < |r.body[1..]| ensures !IsHeader(r.body[1..][i]) {
          assert r.body[1..][i] == r.body[i + 1];
        }
      }
      RunSequenceLines(st2, r.body[1..]);
      assert Concat(r.body) == r.body[0] + Concat(r.body[1..]);
      var st3 := Scan(st2.dict, k, k, Concat(r.body));
      assert forall i :: 0 <= i < |recs[1..]| ==> recs[1..][i] == recs[i + 1];
      RunRecords(st3, recs[1..]);
      var es := [(st.headerCur, st.sequence)] + Entries(recs);
      assert es[0] == (st.headerCur, st.sequence);
      assert es[1..] == [(k, Concat(r.body))] + Entries(recs[1..]);
    }
  }

  /** For a file that is some non-header lines followed by records, each
      with at least one sequence line and a different key from the record
      before it, the dictionary is what assigning each record's key its
      sequence lines, in file order, gives; the lines before the first header
      are prepended to the first record's sequence. A key that comes back
      later keeps its first position and takes the later record's lines. */
  lemma {:induction false} ParsedRecords(preamble: seq<string>, recs: seq<Record>)
    requires NoHeaders(preamble) && recs != []
    requires forall i :: 0 <= i < |recs| ==> WellFormed(recs[i])
    requires NoAdjacentRepeat(recs)
    ensures Parsed(preamble + Lines(recs))
         == InsertAll(Empty, [(Key(recs[0]), Concat(preamble) + Concat(recs[0].body))] + Entries(recs[1..]))
  {
    var r := recs[0];
    var st := Scan(Empty, Key(r), Key(r), Concat(preamble) + Concat(r.body));
    ParsedFirstRecord(preamble, recs);
    TailFacts(recs);
    RunRecords(st, recs[1..]);
  }

  lemma {:induction false} ParsedFirstRecord(preamble: seq<string>, recs: seq<Record>)
    requires NoHeaders(preamble) && recs != [] && WellFormed(recs[0])
    ensures Key(recs[0]) != ""
    ensures Parsed(preamble + Lines(recs))
         == Finish(Run(Scan(Empty, Key(recs[0]), Key(recs[0]), Concat(preamble) + Concat(recs[0].body)), Lines(recs[1..])))
  {
    var r := recs[0];
    LinesCons(recs);
    FirstRecord(preamble, r, Lines(recs[1..]));
  }

  lemma {:induction false} LinesCons(recs: seq<Record>)
    requires recs != []
    ensures Lines(recs) == [recs[0].headerLine] + (recs[0].body + Lines(recs[1..]))
  {
  }

  lemma {:induction false} TailFacts(recs: seq<Record>)
    requires recs != []
    requires forall i :: 0 <= i < |recs| ==> WellFormed(recs[i])
    requires NoAdjacentRepeat(recs)
    ensures forall i :: 0 <= i < |recs[1..]| ==> WellFormed(recs[1..][i])
    ensures NoAdjacentRepeat(recs[1..])
    ensures |recs| > 1 ==> Key(recs[1..][0]) != Key(recs[0])
  {
    var tail := recs[1..];
    forall i | 0 <= i < |tail| ensures WellFormed(tail[i]) {
      assert tail[i] == recs[i + 1];
    }
    forall i | 0 < i < |tail| ensures Key(tail[i - 1]) != Key(tail[i]) {
      assert tail[i - 1] == recs[i] && tail[i] == recs[i + 1];
    }
  }

  lemma {:induction false} FirstRecord(preamble: seq<string>, r: Record, rest: seq<string>)
    requires NoHeaders(preamble) && WellFormed(r)
    ensures Key(r) != ""
    ensures Run(Start, preamble + ([r.headerLine] + (r.body + rest)))
         == Run(Scan(Empty, Key(r), Key(r), Concat(preamble) + Concat(r.body)), rest)
  {
    var k := Key(r);
    HeaderKeyNonEmpty(r.headerLine);
    var st0 := Scan(Empty, "", "", Concat(preamble));
    var st1 := Scan(Empty, k, k, Concat(preamble));
    var st2 := Scan(Empty, k, k, Concat(preamble) + Concat(r.body));
    calc {
      Run(Start, preamble + ([r.headerLine] + (r.body + rest)));
      { RunAppend(Start, preamble, [r.headerLine] + (r.body + rest)); }
      Run(Run(Start, preamble), [r.headerLine] + (r.body + rest));
      { RunSequenceLines(Start, preamble); assert "" + Concat(preamble) == Concat(preamble); }
      Run(st0, [r.headerLine] + (r.body + rest));
      { RunCons(st0, r.headerLine, r.body + rest); }
      Run(Step(st0, r.headerLine), r.body + rest);
      { assert Step(st0, r.headerLine) == st1; }
      Run(st1, r.body + rest);
      { RunAppend(st1, r.body, rest); RunSequenceLines(st1, r.body); }
      Run(st2, rest);
    }
  }

  // ---------------------------------------------------------------------
  // Round trip
  // ---------------------------------------------------------------------

  lemma {:induction false} DistinctTail(s: seq<string>)
    requires Distinct(s) && s != []
    ensures Distinct(s[1..]) && s[0] !in s[1..]
  {
    forall i, j | 0 <= i < j < |s[1..]| ensures s[1..][i] != s[1..][j] {
      assert s[1..][i] == s[i + 1] && s[1..][j] == s[j + 1];
    }
    forall j | 0 <= j < |s[1..]| ensures s[1..][j] != s[0] {
      assert s[1..][j] == s[j + 1];
    }
  }

  /** Assigning keys that are new and pairwise distinct appends them to the
      order. */
  lemma {:induction false} InsertAllKeys(d: Dict, es: seq<(string, string)>)
    requires Distinct(EntryKeys(es))
    requires forall i :: 0 <= i < |es| ==> es[i].0 !in d.keys
    ensures InsertAll(d, es).keys == d.keys + EntryKeys(es)
    decreases |es|
  {
    if es == [] {
      assert d.keys + EntryKeys(es) == d.keys;
    } else {
      var k0, tail := es[0].0, es[1..];
      var d1 := Insert(d, k0, es[0].1);
      var ks := EntryKeys(es);
      EntryKeysAt(es);
      assert ks == [k0] + EntryKeys(tail);
      DistinctTail(ks);
      forall i | 0 <= i < |tail| ensures tail[i].0 !in d1.keys {
        assert tail[i] == es[i + 1] && ks[i + 1] == tail[i].0;
      }
      InsertAllKeys(d1, tail);
      assert d1.keys + EntryKeys(tail) == d.keys + ks;
    }
  }

  /** A key that none of the entries assigns keeps its value. */
  lemma {:induction false} InsertAllKeeps(d: Dict, es: seq<(string, string)>, k: string)
    requires k in d.values && k !in EntryKeys(es)
    ensures k in InsertAll(d, es).values && InsertAll(d, es).values[k] == d.values[k]
    decreases |es|
  {
    if es != [] {
      assert EntryKeys(es) == [es[0].0] + EntryKeys(es[1..]);
      InsertAllKeeps(Insert(d, es[0].0, es[0].1), es[1..], k);
    }
  }

  /** When the entries' keys are pairwise distinct, each key ends up with the
      value of its entry. */
  lemma {:induction false} InsertAllValues(d: Dict, es: seq<(string, string)>)
    requires Distinct(EntryKeys(es))
    ensures forall i :: 0 <= i < |es| ==>
      es[i].0 in InsertAll(d, es).values && InsertAll(d, es).values[es[i].0] == es[i].1
    decreases |es|
  {
    if es != [] {
      var k0, tail := es[0].0, es[1..];
      var d1 := Insert(d, k0, es[0].1);
      var ks := EntryKeys(es);
      assert ks == [k0] + EntryKeys(tail);
      DistinctTail(ks);
      InsertAllValues(d1, tail);
      InsertAllKeeps(d1, tail, k0);
      forall i | 0 < i < |es| ensures es[i] == tail[i - 1] {
      }
    }
  }

  lemma {:induction false} EntryKeysAt(es: seq<(string, string)>)
    ensures |EntryKeys(es)| == |es|
    ensures forall i :: 0 <= i < |es| ==> EntryKeys(es)[i] == es[i].0
  {
    if es != [] {
      EntryKeysAt(es[1..]);
    }
  }

  /** The text of a list of entries: each key, a newline, then its value. */
  function EntriesText(es: seq<(string, string)>): string {
    if es == [] then "" else es[0].0 + "\n" + es[0].1 + EntriesText(es[1..])
  }

  lemma {:induction false} SerializedEntries(es: seq<(string, string)>, values: map<string, string>)
    requires forall i :: 0 <= i < |es| ==> es[i].0 in values && values[es[i].0] == es[i].1
    ensures forall k :: k in EntryKeys(es) ==> k in values
    ensures SerializedKeys(EntryKeys(es), values) == EntriesText(es)
  {
    EntryKeysAt(es);
    if es != [] {
      assert forall i :: 0 <= i < |es[1..]| ==> es[1..][i] == es[i + 1];
      SerializedEntries(es[1..], values);
      assert EntryKeys(es)[1..] == EntryKeys(es[1..]);
    }
  }

  /** Header lines that are exactly their key and a newline. */
  ghost predicate CleanHeader(r: Record) {
    r.headerLine == Key(r) + "\n"
  }

  lemma {:induction false} LinesText(recs: seq<Record>)
    requires forall i :: 0 <= i < |recs| ==> CleanHeader(recs[i])
    ensures Concat(Lines(recs)) == EntriesText(Entries(recs))
  {
    if recs != [] {
      var r := recs[0];
      assert CleanHeader(r);
      assert forall i :: 0 <= i < |recs[1..]| ==> recs[1..][i] == recs[i + 1];
      LinesText(recs[1..]);
      ConcatAppend([r.headerLine] + r.body, Lines(recs[1..]));
      ConcatAppend([r.headerLine], r.body);
    }
  }

  lemma {:induction false} EntryKeysOfRecords(recs: seq<Record>)
    ensures |EntryKeys(Entries(recs))| == |recs|
    ensures forall i :: 0 <= i < |recs| ==> EntryKeys(Entries(recs))[i] == Key(recs[i])
  {
    if recs != [] {
      EntryKeysOfRecords(recs[1..]);
    }
  }

  /** The keys of the records, in order. */
  function RecordKeys(recs: seq<Record>): (r: seq<string>)
    ensures |r| == |recs| && forall i :: 0 <= i < |recs| ==> r[i] == Key(recs[i])
  {
    EntryKeysOfRecords(recs);
    EntryKeys(Entries(recs))
  }

  /** A file that starts with a header line, whose header lines end in a
      single newline and no other whitespace, are pairwise distinct and are
      each followed by at least one sequence line. */
  ghost predicate RoundTrips(recs: seq<Record>) {
    && recs != []
    && (forall i :: 0 <= i < |recs| ==> WellFormed(recs[i]) && CleanHeader(recs[i]))
    && Distinct(RecordKeys(recs))
  }

  /** The dictionary such a file gives has the records' keys, in order, with
      each record's sequence lines. */
  lemma {:induction false} ParsedDistinctRecords(recs: seq<Record>)
    requires RoundTrips(recs)
    ensures Parsed(Lines(recs)).keys == RecordKeys(recs)
    ensures forall i :: 0 <= i < |recs| ==> Parsed(Lines(recs)).values[Key(recs[i])] == Concat(recs[i].body)
    ensures Parsed(Lines(recs)) == InsertAll(Empty, Entries(recs))
  {
    ParsedAsEntries(recs);
    DistinctEntries(recs);
  }

  lemma {:induction false} ParsedAsEntries(recs: seq<Record>)
    requires RoundTrips(recs)
    ensures Parsed(Lines(recs)) == InsertAll(Empty, Entries(recs))
  {
    assert NoAdjacentRepeat(recs) by {
      forall i | 0 < i < |recs| ensures Key(recs[i - 1]) != Key(recs[i]) {
        assert RecordKeys(recs)[i - 1] != RecordKeys(recs)[i];
      }
    }
    ParsedRecords([], recs);
    assert [] + Lines(recs) == Lines(recs);
    assert Concat([]) + Concat(recs[0].body) == Concat(recs[0].body);
  }

  lemma {:induction false} DistinctEntries(recs: seq<Record>)
    requires Distinct(RecordKeys(recs))
    ensures InsertAll(Empty, Entries(recs)).keys == RecordKeys(recs)
    ensures forall i :: 0 <= i < |recs| ==>
      Key(recs[i]) in InsertAll(Empty, Entries(recs)).values
      && InsertAll(Empty, Entries(recs)).values[Key(recs[i])] == Concat(recs[i].body)
  {
    var es := Entries(recs);
    InsertAllKeys(Empty, es);
    assert [] + EntryKeys(es) == EntryKeys(es);
    DistinctEntriesValues(recs);
  }

  lemma {:induction false} DistinctEntriesValues(recs: seq<Record>)
    requires Distinct(RecordKeys(recs))
    ensures forall i :: 0 <= i < |recs| ==>
      Key(recs[i]) in InsertAll(Empty, Entries(recs)).values
      && InsertAll(Empty, Entries(recs)).values[Key(recs[i])] == Concat(recs[i].body)
  {
    var es := Entries(recs);
    EntriesLength(recs);
    InsertAllValues(Empty, es);
    forall i | 0 <= i < |recs| ensures es[i] == (Key(recs[i]), Concat(recs[i].body)) {
      EntriesAt(recs, i);
    }
  }

  lemma {:induction false} EntriesAt(recs: seq<Record>, i: nat)
    requires i < |recs|
    ensures |Entries(recs)| == |recs| && Entries(recs)[i] == (Key(recs[i]), Concat(recs[i].body))
  {
    if i > 0 {
      EntriesAt(recs[1..], i - 1);
    } else {
      EntriesLength(recs);
    }
  }

  lemma {:induction false} EntriesLength(recs: seq<Record>)
    ensures |Entries(recs)| == |recs|
  {
    if recs != [] {
      EntriesLength(recs[1..]);
    }
  }

  /** Writing back what was read reproduces the file, character for
      character, when the file starts with a header line, the header lines
      end in a single newline, are pairwise distinct, and each is followed by
      at least one sequence line. */
  lemma {:induction false} RoundTrip(recs: seq<Record>)
    requires RoundTrips(recs)
    ensures Serialized(Parsed(Lines(recs))) == Concat(Lines(recs))
  {
    ParsedDistinctRecords(recs);
    var es := Entries(recs);
    var d := Parsed(Lines(recs));
    EntryKeysAt(es);
    EntriesLength(recs);
    forall i | 0 <= i < |es| ensures es[i].0 in d.values && d.values[es[i].0] == es[i].1 {
      EntriesAt(recs, i);
    }
    SerializedEntries(es, d.values);
    LinesText(recs);
  }

  // ---------------------------------------------------------------------
  // Filtering
  // ---------------------------------------------------------------------

  /** The first position of `x` in `s`. */
  function IndexOf(s: seq<string>, x: string): (i: nat)
    requires x in s
    ensures i < |s| && s[i] == x
  {
    if s[0] == x then 0 else 1 + IndexOf(s[1..], x)
  }

  lemma {:induction false} KeptKeysOrder(keys: seq<string>, ids: seq<string>, a: nat, b: nat)
    requires Distinct(keys) && a < b < |KeptKeys(keys, ids)|
    ensures KeptKeys(keys, ids)[a] in keys && KeptKeys(keys, ids)[b] in keys
    ensures IndexOf(keys, KeptKeys(keys, ids)[a]) < IndexOf(keys, KeptKeys(keys, ids)[b])
  {
    var kept, rest := KeptKeys(keys, ids), KeptKeys(keys[1..], ids);
    KeptKeysSpec(keys, ids);
    KeptKeysSpec(keys[1..], ids);
    DistinctTail(keys);
    var a', b' := if HeaderId(keys[0]) in ids then a - 1 else a, if HeaderId(keys[0]) in ids then b - 1 else b;
    assert kept == (if HeaderId(keys[0]) in ids then [keys[0]] else []) + rest;
    assert kept[b] == rest[b'] && rest[b'] in rest;
    if a' < 0 {
      assert kept[a] == keys[0];
    } else {
      assert kept[a] == rest[a'] && rest[a'] in rest;
      KeptKeysOrder(keys[1..], ids, a', b');
    }
  }

  /** Filtering keeps the original relative order of the entries it keeps. */
  lemma {:induction false} FilteredOrder(d: Dict, ids: seq<string>, a: nat, b: nat)
    requires d.Valid() && a < b < |Filtered(d, ids).keys|
    ensures Filtered(d, ids).keys[a] in d.keys && Filtered(d, ids).keys[b] in d.keys
    ensures IndexOf(d.keys, Filtered(d, ids).keys[a]) < IndexOf(d.keys, Filtered(d, ids).keys[b])
  {
    KeptKeysOrder(d.keys, ids, a, b);
  }

  lemma {:induction false} KeptKeysIdempotent(keys: seq<string>, ids: seq<string>)
    ensures KeptKeys(KeptKeys(keys, ids), ids) == KeptKeys(keys, ids)
  {
    if keys != [] {
      KeptKeysIdempotent(keys[1..], ids);
      var head := if HeaderId(keys[0]) in ids then [keys[0]] else [];
      KeptKeysAppend(head, KeptKeys(keys[1..], ids), ids);
    }
  }

  /** Filtering twice with the same identifiers is filtering once. */
  lemma {:induction false} FilteredIdempotent(d: Dict, ids: seq<string>)
    requires d.Valid()
    ensures Filtered(Filtered(d, ids), ids) == Filtered(d, ids)
  {
    KeptKeysIdempotent(d.keys, ids);
    KeptValuesIdempotent(d.keys, d.values, ids);
  }

  lemma {:induction false} KeptValuesIdempotent(keys: seq<string>, values: map<string, string>, ids: seq<string>)
    requires forall k :: k in keys ==> k in values
    ensures forall k :: k in KeptKeys(keys, ids) ==> k in KeptValues(keys, values, ids)
    ensures KeptValues(KeptKeys(keys, ids), KeptValues(keys, values, ids), ids) == KeptValues(keys, values, ids)
  {
    KeptKeysSpec(keys, ids);
    var m := KeptValues(keys, values, ids);
    var mm := KeptValues(KeptKeys(keys, ids), m, ids);
    forall k ensures k in mm <==> k in m {
    }
    assert mm == m;
  }

  lemma {:induction false} KeptKeysNone(keys: seq<string>, ids: seq<string>)
    requires forall k :: k in keys ==> HeaderId(k) !in ids
    ensures KeptKeys(keys, ids) == []
  {
    if keys != [] {
      assert keys[0] in keys;
      KeptKeysNone(keys[1..], ids);
    }
  }

  /** An empty identifier list keeps nothing. */
  lemma {:induction false} FilteredNoIds(d: Dict)
    requires d.Valid()
    ensures Filtered(d, []) == Empty
  {
    KeptKeysNone(d.keys, []);
    var r := Filtered(d, []);
    assert r.values == map[];
  }

  lemma {:induction false} KeptKeysAll(keys: seq<string>, ids: seq<string>)
    requires forall k :: k in keys ==> HeaderId(k) in ids
    ensures KeptKeys(keys, ids) == keys
  {
    if keys != [] {
      assert keys[0] in keys;
      KeptKeysAll(keys[1..], ids);
    }
  }

  /** Listing the identifier of every key keeps the whole dictionary. */
  lemma {:induction false} FilteredAllIds(d: Dict, ids: seq<string>)
    requires d.Valid() && forall k :: k in d.keys ==> HeaderId(k) in ids
    ensures Filtered(d, ids) == d
  {
    KeptKeysAll(d.keys, ids);
    KeptValuesAll(d.keys, d.values, ids);
  }

  lemma {:induction false} KeptValuesAll(keys: seq<string>, values: map<string, string>, ids: seq<string>)
    requires forall k :: k in values <==> k in keys
    requires forall k :: k in keys ==> HeaderId(k) in ids
    ensures KeptValues(keys, values, ids) == values
  {
    var m := KeptValues(keys, values, ids);
    forall k ensures k in m <==> k in values {
    }
    assert m == values;
  }

  // ---------------------------------------------------------------------
  // The whole pipeline
  // ---------------------------------------------------------------------

  /** When every record of a file that round-trips is listed, the output file
      is the input file. */
  lemma {:induction false} PipelineKeepsAll(recs: seq<Record>, ids: seq<string>)
    requires RoundTrips(recs)
    requires forall i :: 0 <= i < |recs| ==> HeaderId(Key(recs[i])) in ids
    ensures Serialized(Filtered(Parsed(Lines(recs)), ids)) == Concat(Lines(recs))
  {
    ParsedDistinctRecords(recs);
    var d := Parsed(Lines(recs));
    forall k | k in d.keys ensures HeaderId(k) in ids {
      var i :| 0 <= i < |recs| && RecordKeys(recs)[i] == k;
    }
    FilteredAllIds(d, ids);
    RoundTrip(recs);
  }

  /** When no key's identifier is listed, the output file is empty. */
  lemma {:induction false} PipelineKeepsNone(lines: seq<string>, ids: seq<string>)
    requires forall k :: k in Parsed(lines).keys ==> HeaderId(k) !in ids
    ensures Serialized(Filtered(Parsed(lines), ids)) == ""
  {
    KeptKeysNone(Parsed(lines).keys, ids);
  }
}
