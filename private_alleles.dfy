/** Alleles private to one clade at a locus (identify_private_alleles). */
module PrivateAlleles {
  import opened AssocList
  import opened PyFloat
  import opened AlleleTable

  /** `{"freq": freq, "perc_genotyped": perc_genotyped}` */
  datatype PrivateEntry = PrivateEntry(freq: Freq, percGenotyped: real)

  type CladePrivate = Assoc<Allele, PrivateEntry>
  type LocusPrivate = Assoc<Clade, CladePrivate>
  type PrivateMap = Assoc<Locus, LocusPrivate>

  predicate HasNaN(freqs: AlleleFreqs) {
    exists i :: 0 <= i < |freqs| && freqs[i].1.NaN?
  }

  /** Lines 73-75: a locus is skipped whole when any clade there is entirely
      ungenotyped or has a NaN frequency. */
  predicate Excluded(d: LocusData) {
    exists j :: 0 <= j < |d| && (d[j].1.percGenotyped == 0.0 || HasNaN(d[j].1.freqs))
  }

  /** Line 79: the alleles whose frequency exceeds the tolerance, in order. */
  function Above(freqs: AlleleFreqs, errorTolerance: real): AlleleFreqs {
    if freqs == [] then []
    else
      var last := freqs[|freqs| - 1];
      var init := Above(freqs[..|freqs| - 1], errorTolerance);
      if Gt(last.1, Num(errorTolerance)) then init + [last] else init
  }

  /** The alleles of one clade above the tolerance, as a set. */
  function AboveSet(freqs: AlleleFreqs, errorTolerance: real): set<Allele> {
    set p | p in freqs && Gt(p.1, Num(errorTolerance)) :: p.0
  }

  /** Lines 81-86: the alleles above the tolerance in any clade, among the
      first clades of the locus, whose name differs from `clade`. */
  function OthersAbove(d: LocusData, clade: Clade, errorTolerance: real): set<Allele> {
    if d == [] then {}
    else
      var last := d[|d| - 1];
      var init := OthersAbove(d[..|d| - 1], clade, errorTolerance);
      if last.0 != clade then init + AboveSet(last.1.freqs, errorTolerance) else init
  }

  /** Line 88: the clade's alleles above the tolerance that no other clade
      has above it, with the clade's own genotyped fraction. */
  function PrivateOf(above: AlleleFreqs, others: set<Allele>, percGenotyped: real): CladePrivate {
    if above == [] then []
    else
      var last := above[|above| - 1];
      var init := PrivateOf(above[..|above| - 1], others, percGenotyped);
      if last.0 !in others then init + [(last.0, PrivateEntry(last.1, percGenotyped))] else init
  }

  /** The private alleles of one clade at its locus. */
  function CladePrivateAlleles(d: LocusData, clade: Clade, rec: CladeRecord, errorTolerance: real): CladePrivate {
    PrivateOf(Above(rec.freqs, errorTolerance), OthersAbove(d, clade, errorTolerance), rec.percGenotyped)
  }

  /** Lines 78-92 over the first n clades of a locus: the clades that have a
      private allele, each with its private alleles. */
  function PrivateAtLocus(d: LocusData, n: nat, errorTolerance: real): LocusPrivate
    requires n <= |d|
  {
    if n == 0 then []
    else
      var init := PrivateAtLocus(d, n - 1, errorTolerance);
      var (clade, rec) := d[n - 1];
      var privateSet := CladePrivateAlleles(d, clade, rec, errorTolerance);
      if privateSet != [] then init + [(clade, privateSet)] else init
  }

  /** identify_private_alleles: the loci, in table order, that are not
      skipped and have a private allele in some clade. */
  function Private(t: Table, errorTolerance: real): PrivateMap {
    if t == [] then []
    else
      var (locus, cladeData) := t[|t| - 1];
      var init := Private(t[..|t| - 1], errorTolerance);
      if Excluded(cladeData) then init
      else
        var atPos := PrivateAtLocus(cladeData, |cladeData|, errorTolerance);
        if atPos != [] then init + [(locus, atPos)] else init
  }

  /** identify_private_alleles: for every locus that is not skipped, and for
      every clade there, gathers the alleles the other clades have above the
      tolerance and keeps the clade's own alleles above it that are not
      among them. */
  method IdentifyPrivateAlleles(allAlleles: Table, errorTolerance: real) returns (privateAlleles: PrivateMap)
    ensures privateAlleles == Private(allAlleles, errorTolerance)
  {
    privateAlleles := [];
    for i := 0 to |allAlleles|
      invariant privateAlleles == Private(allAlleles[..i], errorTolerance)
    {
      var (locus, cladeData) := allAlleles[i];
      assert allAlleles[..i + 1][..i] == allAlleles[..i];
      if Excluded(cladeData) {
        continue;
      }
      var privateAllelesAtPos: LocusPrivate := [];
      for j := 0 to |cladeData|
        invariant privateAllelesAtPos == PrivateAtLocus(cladeData, j, errorTolerance)
      {
        var (clade, rec) := cladeData[j];
        var cladeAlleles := Above(rec.freqs, errorTolerance);
        var otherCladesAlleles: set<Allele> := {};
        for k := 0 to |cladeData|
          invariant otherCladesAlleles == OthersAbove(cladeData[..k], clade, errorTolerance)
        {
          var (otherClade, otherRec) := cladeData[k];
          if otherClade != clade {
            otherCladesAlleles := otherCladesAlleles + AboveSet(otherRec.freqs, errorTolerance);
          }
          assert cladeData[..k + 1][..k] == cladeData[..k];
        }
        assert cladeData[..|cladeData|] == cladeData;
        var privateAllelesSet := PrivateOf(cladeAlleles, otherCladesAlleles, rec.percGenotyped);
        if privateAllelesSet != [] {
          privateAllelesAtPos := privateAllelesAtPos + [(clade, privateAllelesSet)];
        }
      }
      if privateAllelesAtPos != [] {
        privateAlleles := privateAlleles + [(locus, privateAllelesAtPos)];
      }
    }
    assert allAlleles[..|allAlleles|] == allAlleles;
  }

  lemma {:induction false} AboveExact(freqs: AlleleFreqs, errorTolerance: real)
    ensures forall p :: p in Above(freqs, errorTolerance) <==> p in freqs && Gt(p.1, Num(errorTolerance))
  {
    if freqs != [] {
      AboveExact(freqs[..|freqs| - 1], errorTolerance);
      assert freqs == freqs[..|freqs| - 1] + [freqs[|freqs| - 1]];
    }
  }

  lemma {:induction false} OthersAboveExact(d: LocusData, clade: Clade, errorTolerance: real)
    ensures forall a :: a in OthersAbove(d, clade, errorTolerance) <==>
      exists p :: p in d && p.0 != clade && a in AboveSet(p.1.freqs, errorTolerance)
  {
    if d != [] {
      OthersAboveExact(d[..|d| - 1], clade, errorTolerance);
      assert d == d[..|d| - 1] + [d[|d| - 1]];
    }
  }

  lemma {:induction false} PrivateOfExact(above: AlleleFreqs, others: set<Allele>, percGenotyped: real)
    ensures forall a, e :: (a, e) in PrivateOf(above, others, percGenotyped) <==>
      (a, e.freq) in above && a !in others && e.percGenotyped == percGenotyped
  {
    if above != [] {
      PrivateOfExact(above[..|above| - 1], others, percGenotyped);
      assert above == above[..|above| - 1] + [above[|above| - 1]];
    }
  }

  lemma {:induction false} PrivateAtLocusExact(d: LocusData, n: nat, errorTolerance: real)
    requires n <= |d|
    ensures forall c: Clade, pm: CladePrivate :: (c, pm) in PrivateAtLocus(d, n, errorTolerance) <==>
      pm != [] && exists rec: CladeRecord :: (c, rec) in d[..n] && pm == CladePrivateAlleles(d, c, rec, errorTolerance)
  {
    if n > 0 {
      PrivateAtLocusExact(d, n - 1, errorTolerance);
      assert d[..n] == d[..n - 1] + [d[n - 1]];
      var (clade, rec) := d[n - 1];
      var r := PrivateAtLocus(d, n, errorTolerance);
      forall c: Clade, pm: CladePrivate
        ensures (c, pm) in r <==>
          pm != [] && exists rec': CladeRecord :: (c, rec') in d[..n] && pm == CladePrivateAlleles(d, c, rec', errorTolerance)
      {
        if c == clade && pm == CladePrivateAlleles(d, c, rec, errorTolerance) && pm != [] {
          assert (c, rec) in d[..n];
        }
      }
    }
  }

  lemma {:induction false} PrivateExact(t: Table, errorTolerance: real)
    ensures forall l: Locus, lp: LocusPrivate :: (l, lp) in Private(t, errorTolerance) <==>
      exists d: LocusData :: (l, d) in t && !Excluded(d) && lp == PrivateAtLocus(d, |d|, errorTolerance) && lp != []
  {
    if t != [] {
      PrivateExact(t[..|t| - 1], errorTolerance);
      assert t == t[..|t| - 1] + [t[|t| - 1]];
      var (locus, cladeData) := t[|t| - 1];
      forall l: Locus, lp: LocusPrivate
        ensures (l, lp) in Private(t, errorTolerance) <==>
          exists d: LocusData :: (l, d) in t && !Excluded(d) && lp == PrivateAtLocus(d, |d|, errorTolerance) && lp != []
      {
        if l == locus && !Excluded(cladeData) && lp == PrivateAtLocus(cladeData, |cladeData|, errorTolerance) && lp != [] {
          assert (l, cladeData) in t;
        }
      }
    }
  }

  /** Exclusion: a locus in the output has no clade with a zero genotyped
      fraction and no NaN frequency. */
  lemma PrivateLociAreFullyGenotyped(t: Table, errorTolerance: real)
    requires DistinctKeys(t)
    ensures forall l: Locus, lp: LocusPrivate, d: LocusData, c: Clade, rec: CladeRecord ::
      (l, lp) in Private(t, errorTolerance) && (l, d) in t && (c, rec) in d ==>
        rec.percGenotyped != 0.0 && !HasNaN(rec.freqs)
  {
    PrivateExact(t, errorTolerance);
    forall l: Locus, lp: LocusPrivate, d: LocusData, c: Clade, rec: CladeRecord
      | (l, lp) in Private(t, errorTolerance) && (l, d) in t && (c, rec) in d
      ensures rec.percGenotyped != 0.0 && !HasNaN(rec.freqs)
    {
      var d': LocusData :| (l, d') in t && !Excluded(d') && lp == PrivateAtLocus(d', |d'|, errorTolerance) && lp != [];
      SameKeySameValue(t, l, d, d');
      var j :| 0 <= j < |d| && d[j] == (c, rec);
    }
  }

  /** What a reported allele satisfies: it is above the tolerance in its
      clade `c` and in no other clade of the locus, and it carries its
      frequency and the clade's own genotyped fraction. */
  ghost predicate PrivateWitness(t: Table, l: Locus, c: Clade, a: Allele, e: PrivateEntry, errorTolerance: real) {
    exists d: LocusData, rec: CladeRecord
      :: && (l, d) in t && (c, rec) in d
         && e.percGenotyped == rec.percGenotyped
         && (a, e.freq) in rec.freqs && Gt(e.freq, Num(errorTolerance))
         && PrivateToClade(d, c, a, errorTolerance)
  }

  /** No clade of the locus other than `c` has allele `a` above the tolerance. */
  ghost predicate PrivateToClade(d: LocusData, c: Clade, a: Allele, errorTolerance: real) {
    forall other :: other in d && other.0 != c ==> a !in AboveSet(other.1.freqs, errorTolerance)
  }

  /** Content: every reported allele satisfies PrivateWitness, and a clade or
      locus is reported only with something private. */
  lemma PrivateAllelesContent(t: Table, errorTolerance: real)
    ensures forall l: Locus, lp: LocusPrivate :: (l, lp) in Private(t, errorTolerance) ==> lp != []
    ensures forall l: Locus, lp: LocusPrivate, c: Clade, pm: CladePrivate
      :: (l, lp) in Private(t, errorTolerance) && (c, pm) in lp ==> pm != []
    ensures forall l: Locus, lp: LocusPrivate, c: Clade, pm: CladePrivate, a: Allele, e: PrivateEntry ::
      (l, lp) in Private(t, errorTolerance) && (c, pm) in lp && (a, e) in pm ==>
        PrivateWitness(t, l, c, a, e, errorTolerance)
  {
    PrivateExact(t, errorTolerance);
    forall l: Locus, lp: LocusPrivate, c: Clade, pm: CladePrivate, a: Allele, e: PrivateEntry
      | (l, lp) in Private(t, errorTolerance) && (c, pm) in lp && (a, e) in pm
      ensures PrivateWitness(t, l, c, a, e, errorTolerance)
    {
      ReportedEntry(t, l, lp, c, pm, a, e, errorTolerance);
    }
    forall l: Locus, lp: LocusPrivate, c: Clade, pm: CladePrivate
      | (l, lp) in Private(t, errorTolerance) && (c, pm) in lp
      ensures pm != []
    {
      var d: LocusData :| (l, d) in t && !Excluded(d) && lp == PrivateAtLocus(d, |d|, errorTolerance) && lp != [];
      PrivateAtLocusExact(d, |d|, errorTolerance);
    }
  }

  /** One reported allele satisfies PrivateWitness. */
  lemma ReportedEntry(t: Table, l: Locus, lp: LocusPrivate, c: Clade, pm: CladePrivate, a: Allele, e: PrivateEntry,
                      errorTolerance: real)
    requires (l, lp) in Private(t, errorTolerance) && (c, pm) in lp && (a, e) in pm
    ensures PrivateWitness(t, l, c, a, e, errorTolerance)
  {
    PrivateExact(t, errorTolerance);
    var d: LocusData :| (l, d) in t && !Excluded(d) && lp == PrivateAtLocus(d, |d|, errorTolerance) && lp != [];
    var rec := EntryAtLocus(d, c, pm, a, e, errorTolerance);
  }

  /** One reported allele of one clade at one locus, and the record it
      comes from. */
  lemma EntryAtLocus(d: LocusData, c: Clade, pm: CladePrivate, a: Allele, e: PrivateEntry, errorTolerance: real)
    returns (rec: CladeRecord)
    requires (c, pm) in PrivateAtLocus(d, |d|, errorTolerance) && (a, e) in pm
    ensures (c, rec) in d && e.percGenotyped == rec.percGenotyped
    ensures (a, e.freq) in rec.freqs && Gt(e.freq, Num(errorTolerance))
    ensures PrivateToClade(d, c, a, errorTolerance)
  {
    PrivateAtLocusExact(d, |d|, errorTolerance);
    assert d[..|d|] == d;
    rec :| (c, rec) in d && pm == CladePrivateAlleles(d, c, rec, errorTolerance);
    PrivateOfExact(Above(rec.freqs, errorTolerance), OthersAbove(d, c, errorTolerance), rec.percGenotyped);
    AboveExact(rec.freqs, errorTolerance);
    OthersAboveExact(d, c, errorTolerance);
  }

  /** Completeness: at a locus that is not skipped, an allele above the
      tolerance in one clade and in no other is reported for that clade. */
  lemma PrivateAllelesComplete(t: Table, errorTolerance: real)
    ensures forall l: Locus, d: LocusData, c: Clade, rec: CladeRecord, a: Allele, f: Freq ::
      (l, d) in t && !Excluded(d) && (c, rec) in d && (a, f) in rec.freqs && Gt(f, Num(errorTolerance)) &&
      PrivateToClade(d, c, a, errorTolerance) ==>
        exists lp: LocusPrivate, pm: CladePrivate ::
          (l, lp) in Private(t, errorTolerance) && (c, pm) in lp && (a, PrivateEntry(f, rec.percGenotyped)) in pm
  {
    PrivateExact(t, errorTolerance);
    forall l: Locus, d: LocusData, c: Clade, rec: CladeRecord, a: Allele, f: Freq
      | && (l, d) in t && !Excluded(d) && (c, rec) in d
        && (a, f) in rec.freqs && Gt(f, Num(errorTolerance))
        && PrivateToClade(d, c, a, errorTolerance)
      ensures exists lp: LocusPrivate, pm: CladePrivate ::
        (l, lp) in Private(t, errorTolerance) && (c, pm) in lp && (a, PrivateEntry(f, rec.percGenotyped)) in pm
    {
      var pm := CladePrivateAlleles(d, c, rec, errorTolerance);
      PrivateOfExact(Above(rec.freqs, errorTolerance), OthersAbove(d, c, errorTolerance), rec.percGenotyped);
      AboveExact(rec.freqs, errorTolerance);
      OthersAboveExact(d, c, errorTolerance);
      assert (a, PrivateEntry(f, rec.percGenotyped)) in pm;
      PrivateAtLocusExact(d, |d|, errorTolerance);
      assert d[..|d|] == d;
      var lp := PrivateAtLocus(d, |d|, errorTolerance);
      assert (c, pm) in lp;
      assert (l, lp) in Private(t, errorTolerance);
    }
  }

  /** Two clades whose reports share an allele at one locus are the same. */
  lemma SameWitnessClade(t: Table, l: Locus, c1: Clade, e1: PrivateEntry, c2: Clade, e2: PrivateEntry, a: Allele,
                         errorTolerance: real)
    requires DistinctKeys(t)
    requires PrivateWitness(t, l, c1, a, e1, errorTolerance) && PrivateWitness(t, l, c2, a, e2, errorTolerance)
    ensures c1 == c2
  {
    var d1: LocusData, rec1: CladeRecord
      :| && (l, d1) in t && (c1, rec1) in d1
         && (a, e1.freq) in rec1.freqs && Gt(e1.freq, Num(errorTolerance))
         && PrivateToClade(d1, c1, a, errorTolerance);
    var d2: LocusData, rec2: CladeRecord
      :| && (l, d2) in t && (c2, rec2) in d2
         && (a, e2.freq) in rec2.freqs && Gt(e2.freq, Num(errorTolerance))
         && PrivateToClade(d2, c2, a, errorTolerance);
    SameKeySameValue(t, l, d1, d2);
    assert a in AboveSet(rec2.freqs, errorTolerance);
    assert (c2, rec2) in d1;
  }

  /** Hence an allele is reported for at most one clade name per locus. */
  lemma PrivateToOneClade(t: Table, errorTolerance: real)
    requires DistinctKeys(t)
    ensures forall l: Locus, lp: LocusPrivate, c1: Clade, pm1: CladePrivate, c2: Clade, pm2: CladePrivate, a: Allele ::
      (l, lp) in Private(t, errorTolerance) && (c1, pm1) in lp && (c2, pm2) in lp &&
      a in Keys(pm1) && a in Keys(pm2) ==>
        c1 == c2
  {
    forall l: Locus, lp: LocusPrivate, c1: Clade, pm1: CladePrivate, c2: Clade, pm2: CladePrivate, a: Allele
      | && (l, lp) in Private(t, errorTolerance) && (c1, pm1) in lp && (c2, pm2) in lp
        && a in Keys(pm1) && a in Keys(pm2)
      ensures c1 == c2
    {
      var i1 :| 0 <= i1 < |pm1| && Keys(pm1)[i1] == a;
      var i2 :| 0 <= i2 < |pm2| && Keys(pm2)[i2] == a;
      var e1, e2 := pm1[i1].1, pm2[i2].1;
      assert (a, e1) in pm1 && (a, e2) in pm2;
      ReportedEntry(t, l, lp, c1, pm1, a, e1, errorTolerance);
      ReportedEntry(t, l, lp, c2, pm2, a, e2, errorTolerance);
      SameWitnessClade(t, l, c1, e1, c2, e2, a, errorTolerance);
    }
  }
}
