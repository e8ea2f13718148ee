/** Fixed alleles (identify_fixed_alleles) and the loci whose fixed alleles
    differ from clade to clade (find_unique_fixed_alleles). */
module FixedAlleles {
  import opened AssocList
  import opened PyFloat
  import opened AlleleTable

  /** A clade and its whole allele-frequency dict. */
  type FixedEntry = (Clade, AlleleFreqs)

  /** Locus to the list of clades with a fixed allele there. */
  type FixedMap = Assoc<Locus, seq<FixedEntry>>

  /** `max(allele_freqs.values())` raises on an empty dict; it is evaluated
      only for records that pass the genotyping test first. */
  predicate CanTest(rec: CladeRecord, missTolerance: real) {
    rec.percGenotyped >= missTolerance ==> |rec.freqs| > 0
  }

  ghost predicate Testable(t: Table, missTolerance: real) {
    forall e, p :: e in t && p in e.1 ==> CanTest(p.1, missTolerance)
  }

  /** The test at line 47: genotyped well enough, and the largest frequency
      reaches 1 - error_tolerance. */
  predicate IsFixed(rec: CladeRecord, missTolerance: real, errorTolerance: real)
    requires CanTest(rec, missTolerance)
  {
    rec.percGenotyped >= missTolerance && Ge(PyMax(Values(rec.freqs)), Num(1.0 - errorTolerance))
  }

  /** Passing the test means the record is genotyped well enough and some
      allele reaches 1 - error_tolerance; without NaN the converse holds. */
  lemma IsFixedMeaning(rec: CladeRecord, missTolerance: real, errorTolerance: real)
    requires CanTest(rec, missTolerance)
    ensures IsFixed(rec, missTolerance, errorTolerance) ==>
      rec.percGenotyped >= missTolerance &&
      exists i :: 0 <= i < |rec.freqs| && rec.freqs[i].1.Num? && rec.freqs[i].1.r >= 1.0 - errorTolerance
    ensures rec.percGenotyped >= missTolerance && NoNaN(Values(rec.freqs)) &&
            (exists i :: 0 <= i < |rec.freqs| && rec.freqs[i].1.r >= 1.0 - errorTolerance)
            ==> IsFixed(rec, missTolerance, errorTolerance)
  {
    if rec.percGenotyped >= missTolerance {
      var vals := Values(rec.freqs);
      MaxAtLeast(vals, 1.0 - errorTolerance);
      if IsFixed(rec, missTolerance, errorTolerance) {
        var j :| 0 <= j < |vals| && vals[j].Num? && vals[j].r >= 1.0 - errorTolerance;
        assert rec.freqs[j].1 == vals[j];
      }
      if NoNaN(vals) && exists i :: 0 <= i < |rec.freqs| && rec.freqs[i].1.r >= 1.0 - errorTolerance {
        var i :| 0 <= i < |rec.freqs| && rec.freqs[i].1.r >= 1.0 - errorTolerance;
        assert vals[i] == rec.freqs[i].1;
      }
    }
  }

  /** The fixed clades of one locus, in the locus's clade order. */
  function FixedGroup(d: LocusData, missTolerance: real, errorTolerance: real): seq<FixedEntry>
    requires forall p :: p in d ==> CanTest(p.1, missTolerance)
  {
    if d == [] then []
    else
      var last := d[|d| - 1];
      var init := FixedGroup(d[..|d| - 1], missTolerance, errorTolerance);
      if IsFixed(last.1, missTolerance, errorTolerance) then init + [(last.0, last.1.freqs)] else init
  }

  /** identify_fixed_alleles: every locus with at least one fixed clade, in
      table order. */
  function Fixed(t: Table, missTolerance: real, errorTolerance: real): FixedMap
    requires Testable(t, missTolerance)
  {
    if t == [] then []
    else
      var last := t[|t| - 1];
      var init := Fixed(t[..|t| - 1], missTolerance, errorTolerance);
      var group := FixedGroup(last.1, missTolerance, errorTolerance);
      if group == [] then init else init + [(last.0, group)]
  }

  /** identify_fixed_alleles. The clades that pass at a locus are gathered in
      the order visited; `setdefault(locus, []).append` creates the locus's
      entry at its first fixed clade, and since the table's loci are distinct
      that entry ends up exactly where this method appends the gathered list. */
  method IdentifyFixedAlleles(allAlleles: Table, missTolerance: real, errorTolerance: real)
    returns (fixed: FixedMap)
    requires Testable(allAlleles, missTolerance)
    ensures fixed == Fixed(allAlleles, missTolerance, errorTolerance)
  {
    fixed := [];
    for i := 0 to |allAlleles|
      invariant fixed == Fixed(allAlleles[..i], missTolerance, errorTolerance)
    {
      var (locus, cladeData) := allAlleles[i];
      var group: seq<FixedEntry> := [];
      for j := 0 to |cladeData|
        invariant group == FixedGroup(cladeData[..j], missTolerance, errorTolerance)
      {
        var (clade, rec) := cladeData[j];
        if rec.percGenotyped >= missTolerance && Ge(PyMax(Values(rec.freqs)), Num(1.0 - errorTolerance)) {
          group := group + [(clade, rec.freqs)];
        }
        assert cladeData[..j + 1][..j] == cladeData[..j];
      }
      assert cladeData[..|cladeData|] == cladeData;
      if group != [] {
        fixed := fixed + [(locus, group)];
      }
      assert allAlleles[..i + 1][..i] == allAlleles[..i];
    }
    assert allAlleles[..|allAlleles|] == allAlleles;
  }

  lemma {:induction false} FixedGroupExact(d: LocusData, missTolerance: real, errorTolerance: real)
    requires forall p :: p in d ==> CanTest(p.1, missTolerance)
    ensures forall e :: e in FixedGroup(d, missTolerance, errorTolerance) ==>
      exists p :: p in d && e == (p.0, p.1.freqs) && IsFixed(p.1, missTolerance, errorTolerance)
    ensures forall p :: p in d && IsFixed(p.1, missTolerance, errorTolerance) ==>
      (p.0, p.1.freqs) in FixedGroup(d, missTolerance, errorTolerance)
  {
    if d != [] {
      var init := d[..|d| - 1];
      FixedGroupExact(init, missTolerance, errorTolerance);
      assert d == init + [d[|d| - 1]];
    }
  }

  lemma {:induction false} FixedExact(t: Table, missTolerance: real, errorTolerance: real)
    requires Testable(t, missTolerance)
    ensures forall e :: e in Fixed(t, missTolerance, errorTolerance) ==>
      e.1 != [] && exists d :: (e.0, d) in t && e.1 == FixedGroup(d, missTolerance, errorTolerance)
    ensures forall e :: e in t && FixedGroup(e.1, missTolerance, errorTolerance) != [] ==>
      (e.0, FixedGroup(e.1, missTolerance, errorTolerance)) in Fixed(t, missTolerance, errorTolerance)
  {
    if t != [] {
      var init := t[..|t| - 1];
      FixedExact(init, missTolerance, errorTolerance);
      assert t == init + [t[|t| - 1]];
    }
  }

  /** One listed (clade, freqs) comes from a passing record of its locus. */
  lemma FixedEntrySound(t: Table, missTolerance: real, errorTolerance: real, l: Locus, g: seq<FixedEntry>, c: Clade, fr: AlleleFreqs)
    requires Testable(t, missTolerance)
    requires (l, g) in Fixed(t, missTolerance, errorTolerance) && (c, fr) in g
    ensures exists d: LocusData, rec: CladeRecord :: (l, d) in t && (c, rec) in d && rec.freqs == fr && IsFixed(rec, missTolerance, errorTolerance)
  {
    FixedExact(t, missTolerance, errorTolerance);
    var d: LocusData :| (l, d) in t && g == FixedGroup(d, missTolerance, errorTolerance);
    FixedGroupExact(d, missTolerance, errorTolerance);
    var p: (Clade, CladeRecord) :| p in d && (c, fr) == (p.0, p.1.freqs) && IsFixed(p.1, missTolerance, errorTolerance);
    assert (l, d) in t && (c, p.1) in d && p.1.freqs == fr && IsFixed(p.1, missTolerance, errorTolerance);
  }

  /** One passing record is listed under its locus. */
  lemma FixedEntryComplete(t: Table, missTolerance: real, errorTolerance: real, l: Locus, d: LocusData, c: Clade, rec: CladeRecord)
    requires Testable(t, missTolerance)
    requires (l, d) in t && (c, rec) in d && IsFixed(rec, missTolerance, errorTolerance)
    ensures exists g: seq<FixedEntry> :: (l, g) in Fixed(t, missTolerance, errorTolerance) && (c, rec.freqs) in g
  {
    FixedExact(t, missTolerance, errorTolerance);
    FixedGroupExact(d, missTolerance, errorTolerance);
    var g := FixedGroup(d, missTolerance, errorTolerance);
    assert (c, rec.freqs) in g;
    assert (l, g) in Fixed(t, missTolerance, errorTolerance);
  }

  /** Fixed-allele output, both directions: everything listed under a locus is
      a record of that locus that passes both tests, every passing record is
      listed, and no locus is listed with an empty list. */
  lemma FixedAllelesSoundAndComplete(t: Table, missTolerance: real, errorTolerance: real)
    requires Testable(t, missTolerance)
    ensures forall l: Locus, g: seq<FixedEntry> :: (l, g) in Fixed(t, missTolerance, errorTolerance) ==> g != []
    ensures forall l: Locus, g: seq<FixedEntry>, c: Clade, fr: AlleleFreqs ::
      (l, g) in Fixed(t, missTolerance, errorTolerance) && (c, fr) in g ==>
        exists d: LocusData, rec: CladeRecord :: (l, d) in t && (c, rec) in d && rec.freqs == fr && IsFixed(rec, missTolerance, errorTolerance)
    ensures forall l: Locus, d: LocusData, c: Clade, rec: CladeRecord ::
      (l, d) in t && (c, rec) in d && IsFixed(rec, missTolerance, errorTolerance) ==>
        exists g: seq<FixedEntry> :: (l, g) in Fixed(t, missTolerance, errorTolerance) && (c, rec.freqs) in g
  {
    FixedExact(t, missTolerance, errorTolerance);
    forall l: Locus, g: seq<FixedEntry>, c: Clade, fr: AlleleFreqs
      | (l, g) in Fixed(t, missTolerance, errorTolerance) && (c, fr) in g
      ensures exists d: LocusData, rec: CladeRecord :: (l, d) in t && (c, rec) in d && rec.freqs == fr && IsFixed(rec, missTolerance, errorTolerance)
    {
      FixedEntrySound(t, missTolerance, errorTolerance, l, g, c, fr);
    }
    forall l: Locus, d: LocusData, c: Clade, rec: CladeRecord
      | (l, d) in t && (c, rec) in d && IsFixed(rec, missTolerance, errorTolerance)
      ensures exists g: seq<FixedEntry> :: (l, g) in Fixed(t, missTolerance, errorTolerance) && (c, rec.freqs) in g
    {
      FixedEntryComplete(t, missTolerance, errorTolerance, l, d, c, rec);
    }
  }

  lemma {:induction false} FixedGroupDistinct(d: LocusData, missTolerance: real, errorTolerance: real)
    requires forall p :: p in d ==> CanTest(p.1, missTolerance)
    requires DistinctKeys(d)
    ensures DistinctKeys(FixedGroup(d, missTolerance, errorTolerance))
  {
    if d != [] {
      var init := d[..|d| - 1];
      var last := d[|d| - 1];
      FixedGroupDistinct(init, missTolerance, errorTolerance);
      FixedGroupExact(init, missTolerance, errorTolerance);
      var g := FixedGroup(init, missTolerance, errorTolerance);
      forall i | 0 <= i < |g| ensures g[i].0 != last.0 {
        assert g[i] in g;
        var p :| p in init && g[i] == (p.0, p.1.freqs) && IsFixed(p.1, missTolerance, errorTolerance);
        var j :| 0 <= j < |init| && init[j] == p;
        assert d[j] == init[j];
      }
    }
  }

  /** What the fixed map hands on to find_unique_fixed_alleles: under each
      locus, distinct clade names, each with a non-empty allele dict. */
  lemma FixedFeedsUnique(t: Table, missTolerance: real, errorTolerance: real)
    requires WellFormed(t) && Testable(t, missTolerance)
    ensures forall e :: e in Fixed(t, missTolerance, errorTolerance) ==> AllNonEmpty(e.1) && DistinctKeys(e.1)
  {
    FixedExact(t, missTolerance, errorTolerance);
    forall e | e in Fixed(t, missTolerance, errorTolerance) ensures AllNonEmpty(e.1) && DistinctKeys(e.1) {
      var d :| (e.0, d) in t && e.1 == FixedGroup(d, missTolerance, errorTolerance);
      assert LocusWellFormed(d);
      FixedGroupDistinct(d, missTolerance, errorTolerance);
      FixedGroupExact(d, missTolerance, errorTolerance);
    }
  }

  // ---------------------------------------------------------------------
  // find_unique_fixed_alleles

  /** `max(allele_freqs, key=allele_freqs.get)`: the allele whose frequency
      wins CPython's `max` loop over the dict's keys in insertion order. */
  function FixedAllele(freqs: AlleleFreqs): Allele
    requires |freqs| > 0
  {
    freqs[BestIndex(Values(freqs), true)].0
  }

  /** Without NaN the fixed allele is the FIRST allele, in insertion order,
      whose frequency is the largest. */
  lemma FixedAlleleIsFirstMaximal(freqs: AlleleFreqs)
    requires |freqs| > 0 && NoNaN(Values(freqs))
    ensures exists i ::
      && 0 <= i < |freqs| && freqs[i].0 == FixedAllele(freqs)
      && (forall j :: 0 <= j < |freqs| ==> freqs[j].1.r <= freqs[i].1.r)
      && (forall j :: 0 <= j < i ==> freqs[j].1.r < freqs[i].1.r)
  {
    var vals := Values(freqs);
    MaxIsFirstMaximum(vals);
    var i := BestIndex(vals, true);
    assert forall j :: 0 <= j < |freqs| ==> freqs[j].1 == vals[j];
    assert freqs[i].0 == FixedAllele(freqs);
    assert forall j :: 0 <= j < |freqs| ==> freqs[j].1.r <= freqs[i].1.r;
    assert forall j :: 0 <= j < i ==> freqs[j].1.r < freqs[i].1.r;
  }

  predicate AllNonEmpty(g: seq<FixedEntry>) {
    forall e :: e in g ==> |e.1| > 0
  }

  /** `fixed_alleles_per_clade`: clade to its fixed allele, one dict entry per
      clade name. */
  function PerCladeFixed(g: seq<FixedEntry>): Assoc<Clade, Allele>
    requires AllNonEmpty(g)
  {
    if g == [] then []
    else
      var last := g[|g| - 1];
      Put(PerCladeFixed(g[..|g| - 1]), last.0, FixedAllele(last.1))
  }

  /** `len(set(vals)) == len(vals)` */
  predicate NoRepeats<T(==)>(vals: seq<T>) {
    |set x | x in vals| == |vals|
  }

  /** The test at lines 60-65: a single fixed clade, or no fixed allele shared
      by two clades. */
  predicate KeepLocus(g: seq<FixedEntry>)
    requires AllNonEmpty(g)
  {
    |g| == 1 || NoRepeats(Values(PerCladeFixed(g)))
  }

  /** find_unique_fixed_alleles: the loci of the fixed map that pass the test,
      with their lists unchanged, in the fixed map's order. */
  function UniqueFixed(fixed: FixedMap): FixedMap
    requires forall e :: e in fixed ==> AllNonEmpty(e.1)
  {
    if fixed == [] then []
    else
      var last := fixed[|fixed| - 1];
      var init := UniqueFixed(fixed[..|fixed| - 1]);
      if KeepLocus(last.1) then init + [last] else init
  }

  /** find_unique_fixed_alleles: builds each locus's clade-to-fixed-allele dict
      and keeps the locus when it has one clade or the fixed alleles are all
      different. */
  method FindUniqueFixedAlleles(fixed: FixedMap) returns (unique: FixedMap)
    requires forall e :: e in fixed ==> AllNonEmpty(e.1)
    ensures unique == UniqueFixed(fixed)
  {
    unique := [];
    for i := 0 to |fixed|
      invariant unique == UniqueFixed(fixed[..i])
    {
      var (locus, cladeData) := fixed[i];
      var fixedAllelesPerClade: Assoc<Clade, Allele> := [];
      for j := 0 to |cladeData|
        invariant fixedAllelesPerClade == PerCladeFixed(cladeData[..j])
      {
        var (clade, alleleFreqs) := cladeData[j];
        var fixedAllele := FixedAllele(alleleFreqs);
        fixedAllelesPerClade := Put(fixedAllelesPerClade, clade, fixedAllele);
        assert cladeData[..j + 1][..j] == cladeData[..j];
      }
      assert cladeData[..|cladeData|] == cladeData;
      if |cladeData| == 1 {
        unique := unique + [(locus, cladeData)];
      } else if |set a | a in Values(fixedAllelesPerClade)| == |fixedAllelesPerClade| {
        unique := unique + [(locus, cladeData)];
      }
      assert fixed[..i + 1][..i] == fixed[..i];
    }
    assert fixed[..|fixed|] == fixed;
  }

  /** The output is a sub-map of the fixed map: exactly the loci that pass the
      test, each with its list unchanged. */
  lemma {:induction false} UniqueFixedIsSubMap(fixed: FixedMap)
    requires forall e :: e in fixed ==> AllNonEmpty(e.1)
    ensures forall e :: e in UniqueFixed(fixed) <==> e in fixed && KeepLocus(e.1)
  {
    if fixed != [] {
      var init := fixed[..|fixed| - 1];
      UniqueFixedIsSubMap(init);
      assert fixed == init + [fixed[|fixed| - 1]];
    }
  }

  lemma ElemsSnoc<T>(init: seq<T>, last: T)
    ensures (set x | x in init + [last]) == (set x | x in init) + {last}
  {
  }

  lemma DistinctSnoc<T>(init: seq<T>, last: T)
    ensures (forall i, j :: 0 <= i < j < |init + [last]| ==> (init + [last])[i] != (init + [last])[j])
        <==> (forall i, j :: 0 <= i < j < |init| ==> init[i] != init[j]) && last !in init
  {
    var s := init + [last];
    if forall i, j :: 0 <= i < j < |s| ==> s[i] != s[j] {
      forall i, j | 0 <= i < j < |init| ensures init[i] != init[j] {
        assert s[i] == init[i] && s[j] == init[j];
      }
      forall k | 0 <= k < |init| ensures init[k] != last {
        assert s[k] == init[k] && s[|init|] == last;
      }
    }
    if (forall i, j :: 0 <= i < j < |init| ==> init[i] != init[j]) && last !in init {
      forall i, j | 0 <= i < j < |s| ensures s[i] != s[j] {
        assert s[i] == init[i];
        if j < |init| {
          assert s[j] == init[j];
        } else {
          assert s[j] == last;
        }
      }
    }
  }

  /** A sequence has as many distinct elements as entries exactly when no two
      entries are equal. */
  lemma {:induction false} NoRepeatsIffDistinct<T>(s: seq<T>)
    ensures |set x | x in s| <= |s|
    ensures |set x | x in s| == |s| <==> forall i, j :: 0 <= i < j < |s| ==> s[i] != s[j]
  {
    if s != [] {
      var init := s[..|s| - 1];
      var last := s[|s| - 1];
      NoRepeatsIffDistinct(init);
      assert s == init + [last];
      ElemsSnoc(init, last);
      DistinctSnoc(init, last);
      var elems, initElems := set x | x in s, set x | x in init;
      assert elems == initElems + {last};
      if last in init {
        assert elems == initElems;
        assert |elems| < |s|;
      } else {
        assert |elems| == |initElems| + 1;
      }
    }
  }

  /** With distinct clade names, each clade's fixed allele lands in its own
      dict entry, in the list's order. */
  lemma {:induction false} PerCladeFixedValues(g: seq<FixedEntry>)
    requires AllNonEmpty(g) && DistinctKeys(g)
    ensures |PerCladeFixed(g)| == |g|
    ensures forall i :: 0 <= i < |g| ==> PerCladeFixed(g)[i] == (g[i].0, FixedAllele(g[i].1))
  {
    if g != [] {
      var init := g[..|g| - 1];
      var last := g[|g| - 1];
      assert forall i :: 0 <= i < |init| ==> init[i] == g[i];
      assert AllNonEmpty(init) by {
        forall e | e in init ensures |e.1| > 0 {
          assert e in g;
        }
      }
      PerCladeFixedValues(init);
      var m := PerCladeFixed(init);
      forall k | 0 <= k < |m| ensures Keys(m)[k] != last.0 {
        assert Keys(m)[k] == m[k].0 == g[k].0;
        assert g[k].0 != g[|g| - 1].0;
      }
      PutNew(m, last.0, FixedAllele(last.1));
      var r := PerCladeFixed(g);
      assert r == m + [(last.0, FixedAllele(last.1))];
      forall i | 0 <= i < |g| ensures r[i] == (g[i].0, FixedAllele(g[i].1)) {
        if i < |init| {
          assert r[i] == m[i] == (init[i].0, FixedAllele(init[i].1));
          assert init[i] == g[i];
        } else {
          assert g[i] == last;
          assert r[i] == (last.0, FixedAllele(last.1));
        }
      }
    }
  }

  /** A locus is kept exactly when it has one fixed clade or the fixed alleles
      of its clades are pairwise different. */
  lemma KeepLocusMeaning(g: seq<FixedEntry>)
    requires AllNonEmpty(g) && DistinctKeys(g)
    ensures KeepLocus(g) <==>
      |g| == 1 || forall i, j :: 0 <= i < j < |g| ==> FixedAllele(g[i].1) != FixedAllele(g[j].1)
  {
    PerCladeFixedValues(g);
    var vals := Values(PerCladeFixed(g));
    NoRepeatsIffDistinct(vals);
    assert forall i :: 0 <= i < |g| ==> vals[i] == FixedAllele(g[i].1);
  }
}
