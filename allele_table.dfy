/** The aggregated table: locus (chromosome, position) to clade name to
    (fraction of individuals genotyped, allele to frequency), and the
    aggregation step that builds it from the parsed rows of one frequency
    file per clade (process_files). */
module AlleleTable {
  import opened AssocList
  import opened PyFloat

  type Allele = string
  type Clade = string

  datatype Locus = Locus(chrom: string, pos: int)

  type AlleleFreqs = Assoc<Allele, Freq>

  datatype CladeRecord = CladeRecord(percGenotyped: real, freqs: AlleleFreqs)

  type LocusData = Assoc<Clade, CladeRecord>

  type Table = Assoc<Locus, LocusData>

  /** The table is built from dicts: loci, clades per locus and alleles per
      record are each distinct. */
  ghost predicate WellFormed(t: Table) {
    DistinctKeys(t) && forall e :: e in t ==> LocusWellFormed(e.1)
  }

  ghost predicate LocusWellFormed(d: LocusData) {
    DistinctKeys(d) && forall p :: p in d ==> DistinctKeys(p.1.freqs)
  }

  /** `all_alleles[locus][clade]`, when both keys are present. */
  function Lookup(t: Table, l: Locus, c: Clade): Option<CladeRecord> {
    match Get(t, l)
    case None => None
    case Some(d) => Get(d, c)
  }

  /** One data row of a frequency file, already parsed: CHROM, POS, N_CHR and
      the `allele:freq` cells in column order. */
  datatype Row = Row(chrom: string, pos: int, nChr: int, alleleFreqs: seq<(Allele, Freq)>)

  /** One input: the file path, the clade's expected number of individuals,
      and the file's parsed data rows. */
  datatype CladeFile = CladeFile(path: string, nIndv: int, rows: seq<Row>)

  /** `genotyped_indv / n_indv` raises ZeroDivisionError when n_indv is 0. */
  datatype AggregateError = ZeroDivision(path: string)

  datatype Aggregated = Ok(table: Table) | Err(error: AggregateError)

  /** `file.split('/')[-1]`: the text after the last '/'. */
  function BaseName(path: string): (name: string)
    ensures '/' !in name
    ensures |name| <= |path| && name == path[|path| - |name|..]
    ensures '/' !in path ==> name == path
  {
    if path == [] then []
    else if path[|path| - 1] == '/' then []
    else BaseName(path[..|path| - 1]) + [path[|path| - 1]]
  }

  const Extension: string := ".frq"

  /** `s.replace('.frq', '')`: scanning left to right, every occurrence is
      removed, wherever it stands in the name. */
  function RemoveExtension(s: string): (r: string)
    ensures |r| <= |s|
  {
    if |s| < 4 then s
    else if s[..4] == Extension then RemoveExtension(s[4..])
    else [s[0]] + RemoveExtension(s[1..])
  }

  /** The clade name of an input file (line 18). */
  function CladeName(path: string): string {
    RemoveExtension(BaseName(path))
  }

  /** ".frq" starts at position i of s. */
  predicate ExtensionAt(s: string, i: int) {
    0 <= i <= |s| - 4 && s[i..i + 4] == Extension
  }

  ghost predicate ContainsExtension(s: string) {
    exists i :: ExtensionAt(s, i)
  }

  /** A name without ".frq" in it is left alone. */
  lemma {:induction false} RemoveExtensionNoMatch(s: string)
    requires !ContainsExtension(s)
    ensures RemoveExtension(s) == s
    decreases |s|
  {
    if |s| >= 4 {
      assert s[0..4] == s[..4];
      assert !ExtensionAt(s, 0);
      assert !ContainsExtension(s[1..]) by {
        forall i | 0 <= i <= |s| - 5 ensures !ExtensionAt(s[1..], i) {
          assert s[1..][i..i + 4] == s[i + 1..i + 5];
          assert !ExtensionAt(s, i + 1);
        }
      }
      RemoveExtensionNoMatch(s[1..]);
    }
  }

  /** A trailing ".frq" is removed and cannot combine with the text before it
      into another match, since '.' occurs in ".frq" only at its start. */
  lemma {:induction false} RemoveExtensionSuffix(s: string)
    ensures RemoveExtension(s + Extension) == RemoveExtension(s)
    decreases |s|
  {
    var t := s + Extension;
    if |s| == 0 {
      assert t[..4] == Extension && t[4..] == [];
    } else if |s| < 4 {
      assert t[..4] != Extension by {
        assert t[..4][|s|] == '.';
        assert Extension[|s|] != '.';
      }
      assert t[1..] == s[1..] + Extension;
      RemoveExtensionSuffix(s[1..]);
      assert [s[0]] + s[1..] == s;
    } else {
      assert t[..4] == s[..4];
      if s[..4] == Extension {
        assert t[4..] == s[4..] + Extension;
        RemoveExtensionSuffix(s[4..]);
      } else {
        assert t[1..] == s[1..] + Extension;
        RemoveExtensionSuffix(s[1..]);
      }
    }
  }

  /** The usual case: the clade name of "dir/name.frq" is "name". */
  lemma CladeNameOfFrequencyFile(dir: string, name: string)
    requires '/' !in name && !ContainsExtension(name)
    ensures CladeName(dir + "/" + name + Extension) == name
  {
    var path := dir + "/" + name + Extension;
    assert BaseName(path) == name + Extension by {
      var b := BaseName(path);
      assert '/' !in name + Extension;
      assert path == (dir + "/") + (name + Extension);
      BaseNameAfterSlash(dir + "/", name + Extension);
    }
    RemoveExtensionSuffix(name);
    RemoveExtensionNoMatch(name);
  }

  lemma {:induction false} BaseNameAfterSlash(prefix: string, name: string)
    requires |prefix| > 0 && prefix[|prefix| - 1] == '/' && '/' !in name
    ensures BaseName(prefix + name) == name
    decreases |name|
  {
    if name == [] {
      assert prefix + name == prefix;
    } else {
      var init, last := name[..|name| - 1], name[|name| - 1];
      assert '/' !in init by {
        forall i | 0 <= i < |init| ensures init[i] != '/' {
          assert init[i] == name[i];
        }
      }
      BaseNameAfterSlash(prefix, init);
      assert last != '/' by {
        assert last in name;
      }
      assert prefix + name == (prefix + init) + [last] by {
        assert name == init + [last];
      }
      BaseNameSnoc(prefix + init, last);
      assert init + [last] == name;
    }
  }

  /** A character other than '/' extends the base name. */
  lemma BaseNameSnoc(p: string, c: char)
    requires c != '/'
    ensures BaseName(p + [c]) == BaseName(p) + [c]
  {
    var q := p + [c];
    assert q[..|q| - 1] == p;
  }

  /** `(N_CHR / 2) / n_indv`, the fraction of the clade's individuals genotyped. */
  function PercGenotyped(nChr: int, nIndv: int): real
    requires nIndv != 0
  {
    (nChr as real / 2.0) / nIndv as real
  }

  /** The row's `allele_freqs` dict: each cell is assigned in column order, so
      a repeated allele keeps its first position and its last frequency. */
  function FreqMap(pairs: seq<(Allele, Freq)>): (m: AlleleFreqs)
    ensures DistinctKeys(m)
    ensures forall a :: a in Keys(m) <==> a in Keys(pairs)
  {
    if pairs == [] then []
    else
      var init := FreqMap(pairs[..|pairs| - 1]);
      var last := pairs[|pairs| - 1];
      PutDistinct(init, last.0, last.1);
      PutKeys(init, last.0, last.1);
      assert pairs == pairs[..|pairs| - 1] + [last];
      KeysSnoc(pairs[..|pairs| - 1], last);
      Put(init, last.0, last.1)
  }

  /** When no allele is named twice, the dict is the cells themselves, in
      column order. */
  lemma {:induction false} FreqMapOfDistinct(pairs: seq<(Allele, Freq)>)
    ensures DistinctKeys(pairs) ==> FreqMap(pairs) == pairs
  {
    if pairs != [] {
      var prefix := pairs[..|pairs| - 1];
      var last := pairs[|pairs| - 1];
      FreqMapOfDistinct(prefix);
      assert pairs == prefix + [last];
      FreqMapStepDistinct(prefix, last, FreqMap(prefix));
    }
  }

  /** When no allele repeats, the last cell is new and is appended. */
  lemma FreqMapStepDistinct(prefix: seq<(Allele, Freq)>, last: (Allele, Freq), init: AlleleFreqs)
    requires DistinctKeys(prefix) ==> init == prefix
    ensures DistinctKeys(prefix + [last]) ==> Put(init, last.0, last.1) == prefix + [last]
  {
    var pairs := prefix + [last];
    if DistinctKeys(pairs) {
      assert DistinctKeys(prefix) by {
        forall i, j | 0 <= i < j < |prefix| ensures prefix[i].0 != prefix[j].0 {
          assert pairs[i] == prefix[i] && pairs[j] == prefix[j];
        }
      }
      forall i | 0 <= i < |prefix| ensures Keys(prefix)[i] != last.0 {
        assert pairs[i] == prefix[i] && pairs[|prefix|] == last;
      }
      PutNew(init, last.0, last.1);
    }
  }

  /** The position of the first occurrence of `a` among the keys of `pairs`
      precedes every occurrence of `b`. */
  ghost predicate FirstSeenBefore(pairs: seq<(Allele, Freq)>, a: Allele, b: Allele) {
    forall q :: 0 <= q < |pairs| && pairs[q].0 == b ==> exists p :: 0 <= p < q && pairs[p].0 == a
  }

  /** A repeated allele keeps the position of its first cell: the dict's keys
      are in the order in which the row first names them. */
  lemma {:induction false} FreqMapKeyOrder(pairs: seq<(Allele, Freq)>)
    ensures var m := FreqMap(pairs);
      forall i, j :: 0 <= i < j < |m| ==> FirstSeenBefore(pairs, m[i].0, m[j].0)
  {
    if pairs != [] {
      var prefix := pairs[..|pairs| - 1];
      var last := pairs[|pairs| - 1];
      assert pairs == prefix + [last];
      FreqMapKeyOrder(prefix);
      var m0, m := FreqMap(prefix), FreqMap(pairs);
      forall i, j | 0 <= i < j < |m| ensures FirstSeenBefore(pairs, m[i].0, m[j].0) {
        FreqMapPairOrder(prefix, last, i, j);
      }
    }
  }

  /** Appending a cell keeps the order of two keys already present, and a
      new key, appended last, was first seen after every other. */
  lemma FreqMapPairOrder(prefix: seq<(Allele, Freq)>, last: (Allele, Freq), i: nat, j: nat)
    requires i < j < |FreqMap(prefix + [last])|
    requires j < |FreqMap(prefix)| ==> FirstSeenBefore(prefix, FreqMap(prefix)[i].0, FreqMap(prefix)[j].0)
    ensures FirstSeenBefore(prefix + [last], FreqMap(prefix + [last])[i].0, FreqMap(prefix + [last])[j].0)
  {
    var pairs := prefix + [last];
    assert pairs[..|pairs| - 1] == prefix;
    var m0 := FreqMap(prefix);
    var m := FreqMap(pairs);
    assert m == Put(m0, last.0, last.1);
    var a := m[i].0;
    assert |m| <= |m0| + 1 by {
      PutKeys(m0, last.0, last.1);
    }
    PutKeyAt(m0, last.0, last.1, i);
    assert a in Keys(prefix) by {
      assert Keys(m0)[i] == a;
    }
    if j < |m0| {
      PutKeyAt(m0, last.0, last.1, j);
      assert FirstSeenBefore(prefix, m0[i].0, m0[j].0);
    } else {
      PutKeyPast(m0, last.0, last.1, j);
      NotSeen(prefix, a, last.0);
    }
    FirstSeenBeforeSnoc(prefix, last, a, m[j].0);
  }

  /** An allele the cells never name is preceded by anything. */
  lemma NotSeen(pairs: seq<(Allele, Freq)>, a: Allele, b: Allele)
    requires b !in Keys(pairs)
    ensures FirstSeenBefore(pairs, a, b)
  {
    forall q | 0 <= q < |pairs| ensures pairs[q].0 != b {
      assert Keys(pairs)[q] == pairs[q].0;
    }
  }

  /** A further cell keeps an order already seen. */
  lemma FirstSeenBeforeSnoc(prefix: seq<(Allele, Freq)>, last: (Allele, Freq), a: Allele, b: Allele)
    requires FirstSeenBefore(prefix, a, b) && a in Keys(prefix)
    ensures FirstSeenBefore(prefix + [last], a, b)
  {
    var pairs := prefix + [last];
    var p0 :| 0 <= p0 < |prefix| && Keys(prefix)[p0] == a;
    forall q | 0 <= q < |pairs| && pairs[q].0 == b ensures exists p :: 0 <= p < q && pairs[p].0 == a {
      if q < |prefix| {
        assert prefix[q] == pairs[q];
        var p :| 0 <= p < q && prefix[p].0 == a;
        assert pairs[p] == prefix[p];
      } else {
        assert pairs[p0] == prefix[p0];
      }
    }
  }

  /** The last cell naming an allele decides its frequency. */
  lemma {:induction false} FreqMapLastWins(pairs: seq<(Allele, Freq)>, i: nat)
    requires i < |pairs|
    requires forall j :: i < j < |pairs| ==> pairs[j].0 != pairs[i].0
    ensures Get(FreqMap(pairs), pairs[i].0) == Some(pairs[i].1)
  {
    if i < |pairs| - 1 {
      FreqMapLastWins(pairs[..|pairs| - 1], i);
    }
  }

  function RowLocus(row: Row): Locus {
    Locus(row.chrom, row.pos)
  }

  function RowRecord(row: Row, nIndv: int): (rec: CladeRecord)
    requires nIndv != 0
    ensures DistinctKeys(rec.freqs)
  {
    CladeRecord(PercGenotyped(row.nChr, nIndv), FreqMap(row.alleleFreqs))
  }

  /** `all_alleles.setdefault(locus, {})[clade] = rec`: the (locus, clade)
      entry is set, overwriting an earlier one, and every other entry is
      unchanged; a new locus goes to the end. */
  function AddRecord(t: Table, l: Locus, c: Clade, rec: CladeRecord): (r: Table)
    ensures Lookup(r, l, c) == Some(rec)
    ensures forall l', c' :: (l', c') != (l, c) ==> Lookup(r, l', c') == Lookup(t, l', c')
  {
    Put(t, l, Put(GetOr(t, l, []), c, rec))
  }

  /** Insertion order: loci keep their first-seen order and a new locus is
      appended; inside the locus, clades do the same. */
  lemma AddRecordKeys(t: Table, l: Locus, c: Clade, rec: CladeRecord)
    ensures Keys(AddRecord(t, l, c, rec)) == if l in Keys(t) then Keys(t) else Keys(t) + [l]
    ensures var before := Keys(GetOr(t, l, []));
      Keys(GetOr(AddRecord(t, l, c, rec), l, [])) == if c in before then before else before + [c]
  {
    PutKeys(t, l, Put(GetOr(t, l, []), c, rec));
    PutKeys(GetOr(t, l, []), c, rec);
  }

  lemma AddRecordWellFormed(t: Table, l: Locus, c: Clade, rec: CladeRecord)
    requires WellFormed(t) && DistinctKeys(rec.freqs)
    ensures WellFormed(AddRecord(t, l, c, rec))
  {
    var d := GetOr(t, l, []);
    if Get(t, l).Some? {
      GetSome(t, l);
    }
    assert LocusWellFormed(d);
    var d' := Put(d, c, rec);
    PutDistinct(d, c, rec);
    PutEntries(d, c, rec);
    assert LocusWellFormed(d');
    PutDistinct(t, l, d');
    PutEntries(t, l, d');
  }

  /** The table after storing the first n rows of one file, whose clade
      name is `clade` and individual count `nIndv`. */
  function AddRows(t: Table, clade: Clade, nIndv: int, rows: seq<Row>, n: nat): Table
    requires n <= |rows| && nIndv != 0
  {
    if n == 0 then t
    else
      var row := rows[n - 1];
      AddRecord(AddRows(t, clade, nIndv, rows, n - 1), RowLocus(row), clade, RowRecord(row, nIndv))
  }

  /** One file: the first row raises when the individual count is zero. */
  function AddFile(t: Table, f: CladeFile): Aggregated {
    if |f.rows| == 0 then Ok(t)
    else if f.nIndv == 0 then Err(ZeroDivision(f.path))
    else Ok(AddRows(t, CladeName(f.path), f.nIndv, f.rows, |f.rows|))
  }

  /** The table after all input files in order (process_files). */
  function Aggregate(files: seq<CladeFile>): Aggregated {
    if files == [] then Ok([])
    else
      var prev := Aggregate(files[..|files| - 1]);
      if prev.Err? then prev
      else AddFile(prev.table, files[|files| - 1])
  }

  lemma {:induction false} AggregateErrPersists(files: seq<CladeFile>, n: nat)
    requires n <= |files|
    requires Aggregate(files[..n]).Err?
    ensures Aggregate(files) == Aggregate(files[..n])
    decreases |files|
  {
    if n < |files| {
      assert files[..|files| - 1][..n] == files[..n];
      AggregateErrPersists(files[..|files| - 1], n);
    } else {
      assert files[..n] == files;
    }
  }

  /** process_files: reads the files in order and, row by row, stores each
      row's record under its locus and its file's clade name; a zero
      individual count raises at the file's first row. */
  method ProcessFiles(files: seq<CladeFile>) returns (res: Aggregated)
    ensures res == Aggregate(files)
  {
    var allAlleles: Table := [];
    for i := 0 to |files|
      invariant Aggregate(files[..i]) == Ok(allAlleles)
    {
      assert files[..i + 1][..i] == files[..i];
      assert files[..i + 1][i] == files[i];
      var stored := StoreFile(allAlleles, files[i]);
      assert Aggregate(files[..i + 1]) == stored;
      if stored.Err? {
        AggregateErrPersists(files, i + 1);
        return stored;
      }
      allAlleles := stored.table;
    }
    assert files[..|files|] == files;
    res := Ok(allAlleles);
  }

  /** The body of process_files' loop for one file (lines 18-39). */
  method StoreFile(allAlleles: Table, file: CladeFile) returns (res: Aggregated)
    ensures res == AddFile(allAlleles, file)
  {
    var cladeName := CladeName(file.path);
    var table := allAlleles;
    for j := 0 to |file.rows|
      invariant j > 0 ==> file.nIndv != 0 && table == AddRows(allAlleles, cladeName, file.nIndv, file.rows, j)
      invariant j == 0 ==> table == allAlleles
    {
      var row := file.rows[j];
      if file.nIndv == 0 {
        return Err(ZeroDivision(file.path));
      }
      var percGenotyped := PercGenotyped(row.nChr, file.nIndv);
      table := AddRecord(table, RowLocus(row), cladeName, CladeRecord(percGenotyped, FreqMap(row.alleleFreqs)));
    }
    res := Ok(table);
  }

  /** A file whose first row divides by a zero individual count. */
  predicate RaisesOnFirstRow(f: CladeFile) {
    f.nIndv == 0 && |f.rows| > 0
  }

  /** The run fails exactly when some file with at least one row has a zero
      individual count, and the error names the first such file. */
  lemma AggregateFailsIff(files: seq<CladeFile>)
    ensures Aggregate(files).Err? <==>
      exists i :: 0 <= i < |files| && RaisesOnFirstRow(files[i])
    ensures Aggregate(files).Err? ==>
      exists i :: 0 <= i < |files| && RaisesOnFirstRow(files[i]) &&
        Aggregate(files).error == ZeroDivision(files[i].path) &&
        forall j :: 0 <= j < i ==> !RaisesOnFirstRow(files[j])
  {
    AggregateOkExactly(files);
    AggregateErrNamesFirst(files);
  }

  /** The run succeeds exactly when no file raises on its first row. */
  lemma {:induction false} AggregateOkExactly(files: seq<CladeFile>)
    ensures Aggregate(files).Ok? <==> forall i :: 0 <= i < |files| ==> !RaisesOnFirstRow(files[i])
  {
    if files != [] {
      var init := files[..|files| - 1];
      var last := files[|files| - 1];
      AggregateOkExactly(init);
      assert forall i :: 0 <= i < |init| ==> init[i] == files[i];
      assert files == init + [last];
    }
  }

  lemma {:induction false} AggregateErrNamesFirst(files: seq<CladeFile>)
    ensures Aggregate(files).Err? ==>
      exists i :: 0 <= i < |files| && RaisesOnFirstRow(files[i]) &&
        Aggregate(files).error == ZeroDivision(files[i].path) &&
        forall j :: 0 <= j < i ==> !RaisesOnFirstRow(files[j])
  {
    if files != [] && Aggregate(files).Err? {
      var init := files[..|files| - 1];
      var last := files[|files| - 1];
      if Aggregate(init).Err? {
        AggregateErrNamesFirst(init);
        var i :| 0 <= i < |init| && RaisesOnFirstRow(init[i]) &&
          Aggregate(init).error == ZeroDivision(init[i].path) &&
          forall j :: 0 <= j < i ==> !RaisesOnFirstRow(init[j]);
        assert files[i] == init[i];
        assert forall j :: 0 <= j < i ==> files[j] == init[j];
      } else {
        AggregateOkExactly(init);
        assert forall j :: 0 <= j < |init| ==> files[j] == init[j];
        assert RaisesOnFirstRow(last) && Aggregate(files).error == ZeroDivision(last.path);
      }
    }
  }

  lemma {:induction false} AddRowsWellFormed(t: Table, clade: Clade, nIndv: int, rows: seq<Row>, n: nat)
    requires n <= |rows| && nIndv != 0 && WellFormed(t)
    ensures WellFormed(AddRows(t, clade, nIndv, rows, n))
  {
    if n > 0 {
      AddRowsWellFormed(t, clade, nIndv, rows, n - 1);
      AddRowWellFormed(t, clade, nIndv, rows, n);
    }
  }

  /** Storing row n - 1 keeps the table well formed. */
  lemma AddRowWellFormed(t: Table, clade: Clade, nIndv: int, rows: seq<Row>, n: nat)
    requires 0 < n <= |rows| && nIndv != 0 && WellFormed(AddRows(t, clade, nIndv, rows, n - 1))
    ensures WellFormed(AddRows(t, clade, nIndv, rows, n))
  {
    var row := rows[n - 1];
    AddRecordWellFormed(AddRows(t, clade, nIndv, rows, n - 1), RowLocus(row), clade, RowRecord(row, nIndv));
  }

  /** A successful aggregation yields a table whose loci, clades and alleles
      are each distinct, as the dicts it stands for. */
  lemma {:induction false} AggregateWellFormed(files: seq<CladeFile>)
    ensures Aggregate(files).Ok? ==> WellFormed(Aggregate(files).table)
  {
    if files != [] {
      var init := files[..|files| - 1];
      AggregateWellFormed(init);
      var f := files[|files| - 1];
      if Aggregate(init).Ok? && |f.rows| > 0 && f.nIndv != 0 {
        AddRowsWellFormed(Aggregate(init).table, CladeName(f.path), f.nIndv, f.rows, |f.rows|);
      }
    }
  }

  /** Storing rows never removes an entry. */
  lemma {:induction false} AddRowsKeepsEntries(t: Table, clade: Clade, nIndv: int, rows: seq<Row>, n: nat)
    requires n <= |rows| && nIndv != 0
    ensures forall l, c :: Lookup(t, l, c).Some? ==> Lookup(AddRows(t, clade, nIndv, rows, n), l, c).Some?
  {
    if n > 0 {
      AddRowsKeepsEntries(t, clade, nIndv, rows, n - 1);
      AddRowStep(t, clade, nIndv, rows, n);
      var prev, cur := AddRows(t, clade, nIndv, rows, n - 1), AddRows(t, clade, nIndv, rows, n);
      forall l, c | Lookup(t, l, c).Some? ensures Lookup(cur, l, c).Some? {
        assert (l, c) == (RowLocus(rows[n - 1]), clade) || Lookup(cur, l, c) == Lookup(prev, l, c);
      }
    }
  }

  /** Each of the first n rows leaves an entry under its locus. */
  lemma {:induction false} AddRowsCovers(t: Table, clade: Clade, nIndv: int, rows: seq<Row>, n: nat)
    requires n <= |rows| && nIndv != 0
    ensures forall j :: 0 <= j < n ==> Lookup(AddRows(t, clade, nIndv, rows, n), RowLocus(rows[j]), clade).Some?
  {
    if n > 0 {
      AddRowsCovers(t, clade, nIndv, rows, n - 1);
      AddRowStep(t, clade, nIndv, rows, n);
      var prev, cur := AddRows(t, clade, nIndv, rows, n - 1), AddRows(t, clade, nIndv, rows, n);
      var last := RowLocus(rows[n - 1]);
      forall j | 0 <= j < n ensures Lookup(cur, RowLocus(rows[j]), clade).Some? {
        assert RowLocus(rows[j]) == last || Lookup(cur, RowLocus(rows[j]), clade) == Lookup(prev, RowLocus(rows[j]), clade);
      }
    }
  }

  /** Storing row n - 1 sets its entry and leaves every other one alone. */
  lemma AddRowStep(t: Table, clade: Clade, nIndv: int, rows: seq<Row>, n: nat)
    requires 0 < n <= |rows| && nIndv != 0
    ensures Lookup(AddRows(t, clade, nIndv, rows, n), RowLocus(rows[n - 1]), clade) == Some(RowRecord(rows[n - 1], nIndv))
    ensures forall l, c :: (l, c) != (RowLocus(rows[n - 1]), clade) ==>
      Lookup(AddRows(t, clade, nIndv, rows, n), l, c) == Lookup(AddRows(t, clade, nIndv, rows, n - 1), l, c)
  {
  }

  /** Row j of file i leaves an entry under its locus and its file's clade
      name. */
  lemma {:induction false} AggregateCoversRow(files: seq<CladeFile>, i: nat, j: nat)
    requires i < |files| && j < |files[i].rows| && Aggregate(files).Ok?
    ensures Lookup(Aggregate(files).table, RowLocus(files[i].rows[j]), CladeName(files[i].path)).Some?
  {
    var init := files[..|files| - 1];
    var f := files[|files| - 1];
    var l, c := RowLocus(files[i].rows[j]), CladeName(files[i].path);
    assert Aggregate(init).Ok?;
    var t0 := Aggregate(init).table;
    if i == |files| - 1 {
      AddRowsCovers(t0, c, f.nIndv, f.rows, |f.rows|);
    } else {
      assert init[i] == files[i];
      AggregateCoversRow(init, i, j);
      assert Lookup(t0, l, c).Some?;
      if |f.rows| > 0 {
        AddRowsKeepsEntries(t0, CladeName(f.path), f.nIndv, f.rows, |f.rows|);
      }
    }
  }

  /** Some row of some file names locus l, and that file's clade name is c. */
  ghost predicate NamedByRow(files: seq<CladeFile>, l: Locus, c: Clade) {
    exists i, j :: 0 <= i < |files| && 0 <= j < |files[i].rows|
      && RowLocus(files[i].rows[j]) == l && CladeName(files[i].path) == c
  }

  /** The table holds an entry exactly for each (locus, clade) that a row
      names: every row of every file leaves an entry under its locus and its
      file's clade name, and nothing else is stored. */
  lemma AggregateCovers(files: seq<CladeFile>)
    ensures Aggregate(files).Ok? ==>
      forall i, j :: 0 <= i < |files| && 0 <= j < |files[i].rows| ==>
        Lookup(Aggregate(files).table, RowLocus(files[i].rows[j]), CladeName(files[i].path)).Some?
    ensures Aggregate(files).Ok? ==>
      forall l, c :: Lookup(Aggregate(files).table, l, c).Some? ==> NamedByRow(files, l, c)
  {
    if Aggregate(files).Ok? {
      forall i, j | 0 <= i < |files| && 0 <= j < |files[i].rows|
        ensures Lookup(Aggregate(files).table, RowLocus(files[i].rows[j]), CladeName(files[i].path)).Some?
      {
        AggregateCoversRow(files, i, j);
      }
      forall l, c | Lookup(Aggregate(files).table, l, c).Some? ensures NamedByRow(files, l, c) {
        AggregateEntryFromRow(files, l, c);
      }
    }
  }

  /** An entry after storing the first n rows of a file was there before or
      is named by one of those rows. */
  lemma {:induction false} AddRowsOnlyRows(t: Table, clade: Clade, nIndv: int, rows: seq<Row>, n: nat, l: Locus, c: Clade)
    requires n <= |rows| && nIndv != 0
    requires Lookup(AddRows(t, clade, nIndv, rows, n), l, c).Some?
    ensures Lookup(t, l, c).Some? || (c == clade && exists k :: 0 <= k < n && RowLocus(rows[k]) == l)
  {
    if n > 0 {
      AddRowStep(t, clade, nIndv, rows, n);
      if (l, c) == (RowLocus(rows[n - 1]), clade) {
        assert RowLocus(rows[n - 1]) == l;
      } else {
        AddRowsOnlyRows(t, clade, nIndv, rows, n - 1, l, c);
      }
    }
  }

  /** Every entry of the table comes from a row. */
  lemma {:induction false} AggregateEntryFromRow(files: seq<CladeFile>, l: Locus, c: Clade)
    requires Aggregate(files).Ok? && Lookup(Aggregate(files).table, l, c).Some?
    ensures NamedByRow(files, l, c)
  {
    assert files != [];
    var init := files[..|files| - 1];
    var f := files[|files| - 1];
    assert Aggregate(init).Ok?;
    var t0 := Aggregate(init).table;
    var fromInit := Lookup(t0, l, c).Some?;
    if |f.rows| > 0 {
      AddRowsOnlyRows(t0, CladeName(f.path), f.nIndv, f.rows, |f.rows|, l, c);
      if !fromInit {
        var k :| 0 <= k < |f.rows| && RowLocus(f.rows[k]) == l;
        assert RowLocus(files[|files| - 1].rows[k]) == l;
      }
    }
    if fromInit {
      AggregateEntryFromRow(init, l, c);
      var i, j :| 0 <= i < |init| && 0 <= j < |init[i].rows|
        && RowLocus(init[i].rows[j]) == l && CladeName(init[i].path) == c;
      assert init[i] == files[i];
    }
  }

  lemma {:induction false} AddRowsUnchanged(t: Table, clade: Clade, nIndv: int, rows: seq<Row>, n: nat, l: Locus, c: Clade)
    requires n <= |rows| && nIndv != 0
    requires forall k :: 0 <= k < n ==> RowLocus(rows[k]) != l || clade != c
    ensures Lookup(AddRows(t, clade, nIndv, rows, n), l, c) == Lookup(t, l, c)
  {
    if n > 0 {
      AddRowsUnchanged(t, clade, nIndv, rows, n - 1, l, c);
      AddRowStep(t, clade, nIndv, rows, n);
    }
  }

  lemma {:induction false} AddRowsLastWins(t: Table, clade: Clade, nIndv: int, rows: seq<Row>, n: nat, j: nat)
    requires j < n <= |rows| && nIndv != 0
    requires forall k :: j < k < n ==> RowLocus(rows[k]) != RowLocus(rows[j])
    ensures Lookup(AddRows(t, clade, nIndv, rows, n), RowLocus(rows[j]), clade) == Some(RowRecord(rows[j], nIndv))
  {
    AddRowStep(t, clade, nIndv, rows, n);
    if j < n - 1 {
      AddRowsLastWins(t, clade, nIndv, rows, n - 1, j);
    }
  }

  /** Some later row, in this file or a later one, names the same locus and
      the same clade as row j of file i. */
  ghost predicate Overwritten(files: seq<CladeFile>, i: nat, j: nat)
    requires i < |files| && j < |files[i].rows|
  {
    || (exists k :: j < k < |files[i].rows| && RowLocus(files[i].rows[k]) == RowLocus(files[i].rows[j]))
    || (exists i', k :: i < i' < |files| && 0 <= k < |files[i'].rows|
          && RowLocus(files[i'].rows[k]) == RowLocus(files[i].rows[j])
          && CladeName(files[i'].path) == CladeName(files[i].path))
  }

  /** Overwrite semantics: the entry stored for a locus and clade is the
      record of the last row naming both, with fraction (N_CHR/2)/n_indv. */
  lemma {:induction false} AggregateLastWins(files: seq<CladeFile>, i: nat, j: nat)
    requires i < |files| && j < |files[i].rows| && files[i].nIndv != 0
    requires Aggregate(files).Ok? && !Overwritten(files, i, j)
    ensures Lookup(Aggregate(files).table, RowLocus(files[i].rows[j]), CladeName(files[i].path))
      == Some(CladeRecord(PercGenotyped(files[i].rows[j].nChr, files[i].nIndv), FreqMap(files[i].rows[j].alleleFreqs)))
  {
    var init := files[..|files| - 1];
    var f := files[|files| - 1];
    var l, c := RowLocus(files[i].rows[j]), CladeName(files[i].path);
    assert Aggregate(init).Ok?;
    var t0 := Aggregate(init).table;
    if i == |files| - 1 {
      AddRowsLastWins(t0, c, f.nIndv, f.rows, |f.rows|, j);
    } else {
      assert init[i] == files[i];
      assert !Overwritten(init, i, j) by {
        forall i', k | i < i' < |init| && 0 <= k < |init[i'].rows|
          ensures RowLocus(init[i'].rows[k]) != l || CladeName(init[i'].path) != c
        {
          assert init[i'] == files[i'];
        }
      }
      AggregateLastWins(init, i, j);
      if |f.rows| > 0 {
        forall k | 0 <= k < |f.rows| ensures RowLocus(f.rows[k]) != l || CladeName(f.path) != c {
          assert files[|files| - 1] == f;
        }
        AddRowsUnchanged(t0, CladeName(f.path), f.nIndv, f.rows, |f.rows|, l, c);
      }
    }
  }
}
