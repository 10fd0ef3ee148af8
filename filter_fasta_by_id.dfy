/** The FASTA filter: read a FASTA file into an insertion-ordered dictionary
    from header line to sequence, keep the entries whose identifier is listed,
    and write the survivors back out as FASTA text.

    A file is the list of its lines, each with its line terminator, as Python
    yields them when iterating over an open text file. */
module FilterFastaById {
  import opened Strings

  /** No two positions of `s` hold the same value. */
  ghost predicate Distinct(s: seq<string>) {
    forall i, j :: 0 <= i < j < |s| ==> s[i] != s[j]
  }

  /** A Python `dict` from string to string: `keys` is its iteration
      (insertion) order, `values` its content. */
  datatype Dict = Dict(keys: seq<string>, values: map<string, string>) {
    ghost predicate Valid() {
      Distinct(keys) && forall k :: k in values <==> k in keys
    }
  }

  /** `dict()` */
  const Empty := Dict([], map[])

  /** `d[k] = v`: a new key goes to the end of the order, an existing key
      keeps its position and takes the new value. */
  function Insert(d: Dict, k: string, v: string): (r: Dict)
    ensures d.Valid() ==> r.Valid()
  {
    Dict(AddKey(d.keys, k), d.values[k := v])
  }

  /** What assignment promises: the key maps to the new value, every other
      key keeps its value, and the existing order is kept, growing by one
      exactly when the key is new. */
  lemma {:induction false} InsertSemantics(d: Dict, k: string, v: string)
    requires d.Valid()
    ensures var r := Insert(d, k, v);
      && k in r.values && r.values[k] == v
      && (forall k' :: k' != k ==> (k' in r.values <==> k' in d.values))
      && (forall k' :: k' != k && k' in d.values ==> r.values[k'] == d.values[k'])
      && |r.keys| == (if k in d.values then |d.keys| else |d.keys| + 1)
      && r.keys[..|d.keys|] == d.keys
  {
  }

  /** The key order after `d[k] = ...` on a dict whose order is `keys`. */
  function AddKey(keys: seq<string>, k: string): seq<string> {
    if k in keys then keys else keys + [k]
  }

  /** `line.startswith('>')` */
  predicate IsHeader(line: string) {
    StartsWith(line, ">")
  }

  // ---------------------------------------------------------------------
  // fasta_to_dict
  // ---------------------------------------------------------------------

  /** The local variables of `fasta_to_dict` between two lines. */
  datatype Scan = Scan(dict: Dict, headerOld: string, headerCur: string, sequence: string)

  /** Their values before the first line. */
  const Start := Scan(Empty, "", "", "")

  /** One iteration of the loop over the lines. A header line commits the
      current header with the sequence accumulated so far, unless it is the
      first header (recognised by `headerOld` still being empty); a sequence
      line is appended while the header has not changed since the last
      sequence line, and otherwise starts the sequence afresh. A header line
      starts with `>`, so `line.strip()` only removes its trailing
      whitespace. */
  function Step(st: Scan, line: string): (r: Scan)
    ensures st.dict.Valid() ==> r.dict.Valid()
  {
    if IsHeader(line) then
      if st.headerOld == "" then
        st.(headerOld := RStripSpace(line), headerCur := RStripSpace(line))
      else
        st.(dict := Insert(st.dict, st.headerCur, st.sequence), headerCur := RStripSpace(line))
    else if st.headerCur == st.headerOld then
      st.(sequence := st.sequence + line)
    else
      st.(sequence := line, headerOld := st.headerCur)
  }

  /** The loop run over `lines` from the state `st`. */
  function Run(st: Scan, lines: seq<string>): (r: Scan)
    ensures st.dict.Valid() ==> r.dict.Valid()
    ensures |st.dict.keys| <= |r.dict.keys|
    ensures forall k :: k in st.dict.keys ==> k in r.dict.keys
    decreases |lines|
  {
    if lines == [] then st else Run(Step(st, lines[0]), lines[1..])
  }

  /** The commit after the loop of whatever record is current. */
  function Finish(st: Scan): (r: Dict)
    ensures st.dict.Valid() ==> r.Valid()
    ensures st.headerCur in r.values
  {
    Insert(st.dict, st.headerCur, st.sequence)
  }

  /** What `fasta_to_dict` returns for a file with these lines. Whatever
      the input, the final commit leaves at least one entry. */
  function Parsed(lines: seq<string>): (r: Dict)
    ensures r.Valid() && |r.keys| >= 1
  {
    Finish(Run(Start, lines))
  }

  lemma {:induction false} RunStep(st: Scan, lines: seq<string>, i: nat)
    requires i < |lines|
    ensures Run(st, lines[i..]) == Run(Step(st, lines[i]), lines[i + 1..])
  {
    assert lines[i..][0] == lines[i];
    assert lines[i..][1..] == lines[i + 1..];
  }

  /** `fasta_to_dict`, with the file given as its lines. */
  method FastaToDict(lines: seq<string>) returns (fastaDict: Dict)
    ensures fastaDict == Parsed(lines)
  {
    fastaDict := Empty;
    var headerOld, headerCur, sequence := "", "", "";
    var i := 0;
    while i < |lines|
      invariant 0 <= i <= |lines|
      invariant fastaDict.Valid()
      invariant Run(Scan(fastaDict, headerOld, headerCur, sequence), lines[i..]) == Run(Start, lines)
    {
      RunStep(Scan(fastaDict, headerOld, headerCur, sequence), lines, i);
      var line := lines[i];
      if IsHeader(line) {
        if headerOld == "" {
          headerOld := RStripSpace(line);
          headerCur := RStripSpace(line);
        } else {
          fastaDict := Insert(fastaDict, headerCur, sequence);
          headerCur := RStripSpace(line);
        }
      } else {
        if headerCur == headerOld {
          sequence := sequence + line;
        } else {
          sequence := line;
          headerOld := headerCur;
        }
      }
      i := i + 1;
    }
    fastaDict := Insert(fastaDict, headerCur, sequence);
  }

  // ---------------------------------------------------------------------
  // dict_to_fasta
  // ---------------------------------------------------------------------

  /** The text written for `keys`, in order: each key, a newline, then its
      value as stored. */
  function SerializedKeys(keys: seq<string>, values: map<string, string>): string
    requires forall k :: k in keys ==> k in values
  {
    if keys == [] then ""
    else keys[0] + "\n" + values[keys[0]] + SerializedKeys(keys[1..], values)
  }

  lemma {:induction false} SerializedKeysAppend(a: seq<string>, b: seq<string>, values: map<string, string>)
    requires forall k :: k in a + b ==> k in values
    ensures SerializedKeys(a + b, values) == SerializedKeys(a, values) + SerializedKeys(b, values)
  {
    if a == [] {
      assert a + b == b;
    } else {
      assert (a + b)[1..] == a[1..] + b;
      SerializedKeysAppend(a[1..], b, values);
    }
  }

  /** What `dict_to_fasta` returns. */
  function Serialized(d: Dict): string
    requires d.Valid()
  {
    SerializedKeys(d.keys, d.values)
  }

  /** `dict_to_fasta` */
  method DictToFasta(fastaDict: Dict) returns (fastaString: string)
    requires fastaDict.Valid()
    ensures fastaString == Serialized(fastaDict)
  {
    fastaString := "";
    var keys := fastaDict.keys;
    for i := 0 to |keys|
      invariant fastaString == SerializedKeys(keys[..i], fastaDict.values)
    {
      var fastaHeader := keys[i];
      fastaString := fastaString + fastaHeader + "\n";
      fastaString := fastaString + fastaDict.values[fastaHeader];
      SerializedKeysAppend(keys[..i], [fastaHeader], fastaDict.values);
      assert keys[..i + 1] == keys[..i] + [fastaHeader];
    }
    assert keys[..|keys|] == keys;
  }

  // ---------------------------------------------------------------------
  // filter_fasta
  // ---------------------------------------------------------------------

  /** `header.strip('>')`: the identifier a header is matched on. */
  function HeaderId(header: string): string {
    StripChar(header, '>')
  }

  /** The keys `filter_fasta` keeps, in their original order. */
  function KeptKeys(keys: seq<string>, ids: seq<string>): (r: seq<string>)
    ensures |r| <= |keys|
  {
    if keys == [] then []
    else (if HeaderId(keys[0]) in ids then [keys[0]] else []) + KeptKeys(keys[1..], ids)
  }

  /** The kept keys are exactly the keys whose identifier is listed, and
      they are as distinct as the keys they come from. */
  lemma {:induction false} KeptKeysSpec(keys: seq<string>, ids: seq<string>)
    ensures forall k :: k in KeptKeys(keys, ids) <==> k in keys && HeaderId(k) in ids
    ensures Distinct(keys) ==> Distinct(KeptKeys(keys, ids))
  {
    if keys != [] {
      KeptKeysSpec(keys[1..], ids);
      assert keys == [keys[0]] + keys[1..];
    }
  }

  lemma {:induction false} KeptKeysAppend(a: seq<string>, b: seq<string>, ids: seq<string>)
    ensures KeptKeys(a + b, ids) == KeptKeys(a, ids) + KeptKeys(b, ids)
  {
    if a == [] {
      assert a + b == b;
    } else {
      var h := if HeaderId(a[0]) in ids then [a[0]] else [];
      var x, y := KeptKeys(a[1..], ids), KeptKeys(b, ids);
      assert (a + b)[0] == a[0];
      assert (a + b)[1..] == a[1..] + b;
      KeptKeysAppend(a[1..], b, ids);
      calc {
        KeptKeys(a + b, ids);
        h + KeptKeys(a[1..] + b, ids);
        h + (x + y);
        (h + x) + y;
        KeptKeys(a, ids) + KeptKeys(b, ids);
      }
    }
  }

  /** The values `filter_fasta` copies from the entries of `keys`. */
  function KeptValues(keys: seq<string>, values: map<string, string>, ids: seq<string>): map<string, string>
    requires forall k :: k in keys ==> k in values
  {
    map k | k in keys && HeaderId(k) in ids :: values[k]
  }

  lemma {:induction false} KeptValuesAppend(keys: seq<string>, k: string, values: map<string, string>, ids: seq<string>)
    requires forall k' :: k' in keys + [k] ==> k' in values
    ensures KeptValues(keys + [k], values, ids)
         == if HeaderId(k) in ids then KeptValues(keys, values, ids)[k := values[k]]
            else KeptValues(keys, values, ids)
  {
    var m0, m1 := KeptValues(keys, values, ids), KeptValues(keys + [k], values, ids);
    var m2 := if HeaderId(k) in ids then m0[k := values[k]] else m0;
    forall x
      ensures x in m1 <==> x in m2
      ensures x in m1 ==> m1[x] == m2[x]
    {
      assert x in keys + [k] <==> x in keys || x == k;
    }
    assert m1 == m2;
  }

  /** What `filter_fasta` returns: the entries whose identifier is listed,
      with their values, in the order of `d`. */
  function Filtered(d: Dict, ids: seq<string>): (r: Dict)
    requires d.Valid()
    ensures r.Valid()
    ensures forall k :: k in r.values <==> k in d.values && HeaderId(k) in ids
    ensures forall k :: k in r.values ==> r.values[k] == d.values[k]
  {
    KeptKeysSpec(d.keys, ids);
    Dict(KeptKeys(d.keys, ids), KeptValues(d.keys, d.values, ids))
  }

  /** `filter_fasta` */
  method FilterFasta(fastaDict: Dict, idsToInc: seq<string>) returns (filtFastaDict: Dict)
    requires fastaDict.Valid()
    ensures filtFastaDict == Filtered(fastaDict, idsToInc)
  {
    filtFastaDict := Empty;
    var keys := fastaDict.keys;
    for i := 0 to |keys|
      invariant filtFastaDict.keys == KeptKeys(keys[..i], idsToInc)
      invariant filtFastaDict.values == KeptValues(keys[..i], fastaDict.values, idsToInc)
    {
      var header := keys[i];
      assert keys[..i + 1] == keys[..i] + [header];
      KeptKeysAppend(keys[..i], [header], idsToInc);
      KeptValuesAppend(keys[..i], header, fastaDict.values, idsToInc);
      assert header !in keys[..i];
      KeptKeysSpec(keys[..i], idsToInc);
      if HeaderId(header) in idsToInc {
        filtFastaDict := Insert(filtFastaDict, header, fastaDict.values[header]);
      }
    }
    assert keys[..|keys|] == keys;
  }

  // ---------------------------------------------------------------------
  // main, lines 98-100
  // ---------------------------------------------------------------------

  /** Parse, filter and serialise: the text `main` writes to the output
      file, given the lines of the FASTA file and the identifiers read from
      the filter file. */
  method FilterPipeline(lines: seq<string>, filtContigIds: seq<string>) returns (fastaString: string)
    ensures fastaString == Serialized(Filtered(Parsed(lines), filtContigIds))
  {
    var fastaDict := FastaToDict(lines);
    var filtFastaDict := FilterFasta(fastaDict, filtContigIds);
    fastaString := DictToFasta(filtFastaDict);
  }
}
