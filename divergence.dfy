/** Per-locus divergence scores (compute_divergence_scores). */
module Divergence {
  import opened AssocList
  import opened PyFloat
  import opened AlleleTable

  /** `(max_diff, avg_genotyped)` */
  datatype Score = Score(spread: Freq, avgGenotyped: real)

  type ScoreMap = Assoc<Locus, Score>

  /** Line 135: `clade[1].get(allele, 0.0)`, an absent allele counting as 0. */
  function FreqOrZero(freqs: AlleleFreqs, a: Allele): Freq {
    GetOr(freqs, a, Num(0.0))
  }

  /** Line 135: the allele's frequency in every clade, in clade order. */
  function FreqsOf(recs: seq<CladeRecord>, a: Allele): (fs: seq<Freq>)
    ensures |fs| == |recs|
  {
    seq(|recs|, i requires 0 <= i < |recs| => FreqOrZero(recs[i].freqs, a))
  }

  /** Line 136: `max(freqs) - min(freqs)` for one allele. */
  function Spread(recs: seq<CladeRecord>, a: Allele): Freq
    requires |recs| > 0
  {
    Sub(PyMax(FreqsOf(recs, a)), PyMin(FreqsOf(recs, a)))
  }

  function AllelesOf(freqs: AlleleFreqs): set<Allele> {
    set p | p in freqs :: p.0
  }

  /** Line 130: the union of the alleles seen in any clade. */
  function AlleleUnion(recs: seq<CladeRecord>): set<Allele> {
    if recs == [] then {} else AlleleUnion(recs[..|recs| - 1]) + AllelesOf(recs[|recs| - 1].freqs)
  }

  /** Line 131: the sum of the clades' genotyped fractions. */
  function TotalGenotyped(recs: seq<CladeRecord>): real {
    if recs == [] then 0.0 else TotalGenotyped(recs[..|recs| - 1]) + recs[|recs| - 1].percGenotyped
  }

  /** The spread of each allele at a locus, as a function of the allele. */
  function SpreadOf(recs: seq<CladeRecord>): Allele -> Freq
    requires |recs| > 0
  {
    a => Spread(recs, a)
  }

  /** Lines 133-136: `f` summed over S starting from 0. The source visits a
      set in an order it does not control; SumRemove shows that any order
      gives this sum. */
  ghost function SumOver(f: Allele -> Freq, S: set<Allele>): Freq
    decreases |S|
  {
    if S == {} then Num(0.0)
    else
      var a :| a in S;
      Add(f(a), SumOver(f, S - {a}))
  }

  /** Lines 125-138: the score of the clades' records at one locus. */
  ghost function CladesScore(recs: seq<CladeRecord>): Score
    requires |recs| > 0
  {
    Score(SumOver(SpreadOf(recs), AlleleUnion(recs)), TotalGenotyped(recs) / |recs| as real)
  }

  /** Lines 120-139 for a locus with at least two clades. */
  ghost function LocusScore(d: LocusData): Score
    requires |d| >= 2
  {
    CladesScore(Values(d))
  }

  /** compute_divergence_scores: every locus with two clades or more, in
      table order, with its score. */
  ghost function Scores(t: Table): ScoreMap {
    if t == [] then []
    else
      var (locus, cladeData) := t[|t| - 1];
      var init := Scores(t[..|t| - 1]);
      if |cladeData| < 2 then init else init + [(locus, LocusScore(cladeData))]
  }

  /** compute_divergence_scores: every locus with at least two clades is
      scored, in table order. */
  method ComputeDivergenceScores(allAlleles: Table) returns (divergenceScores: ScoreMap)
    ensures divergenceScores == Scores(allAlleles)
  {
    divergenceScores := [];
    for i := 0 to |allAlleles|
      invariant divergenceScores == Scores(allAlleles[..i])
    {
      var (locus, cladeData) := allAlleles[i];
      assert allAlleles[..i + 1][..i] == allAlleles[..i];
      var cladeFreqs := Values(cladeData);
      if |cladeFreqs| < 2 {
        continue;
      }
      var score := ScoreClades(cladeFreqs);
      divergenceScores := divergenceScores + [(locus, score)];
    }
    assert allAlleles[..|allAlleles|] == allAlleles;
  }

  /** Lines 125-138: a first loop gathers the alleles and the genotyped
      total, a second sums the spreads over the alleles. */
  method ScoreClades(cladeFreqs: seq<CladeRecord>) returns (score: Score)
    requires |cladeFreqs| > 0
    ensures score == CladesScore(cladeFreqs)
  {
    var allAllelesSet: set<Allele> := {};
    var totalGenotyped := 0.0;
    var numClades := |cladeFreqs|;
    for j := 0 to |cladeFreqs|
      invariant allAllelesSet == AlleleUnion(cladeFreqs[..j])
      invariant totalGenotyped == TotalGenotyped(cladeFreqs[..j])
    {
      assert cladeFreqs[..j + 1][..j] == cladeFreqs[..j];
      allAllelesSet := allAllelesSet + AllelesOf(cladeFreqs[j].freqs);
      totalGenotyped := totalGenotyped + cladeFreqs[j].percGenotyped;
    }
    assert cladeFreqs[..|cladeFreqs|] == cladeFreqs;
    var maxDiff := SumSpreads(SpreadOf(cladeFreqs), allAllelesSet);
    var avgGenotyped := totalGenotyped / numClades as real;
    score := Score(maxDiff, avgGenotyped);
  }

  /** Lines 133-136: `max_diff` accumulates f over every allele of the
      set, visited in whatever order the set yields; f is the spread. */
  method SumSpreads(f: Allele -> Freq, allAllelesSet: set<Allele>) returns (maxDiff: Freq)
    ensures maxDiff == SumOver(f, allAllelesSet)
  {
    maxDiff := Num(0.0);
    var rest := allAllelesSet;
    while rest != {}
      invariant Add(maxDiff, SumOver(f, rest)) == SumOver(f, allAllelesSet)
      decreases |rest|
    {
      var allele :| allele in rest;
      SumRemove(f, rest, allele);
      AddAssoc(maxDiff, f(allele), SumOver(f, rest - {allele}));
      maxDiff := Add(maxDiff, f(allele));
      rest := rest - {allele};
    }
    AddZero(maxDiff);
  }

  /** The sum may be taken in any order: taking out any element first gives
      the same sum. */
  lemma {:induction false} SumRemove(f: Allele -> Freq, S: set<Allele>, a: Allele)
    requires a in S
    ensures SumOver(f, S) == Add(f(a), SumOver(f, S - {a}))
    decreases |S|
  {
    var b :| b in S && SumOver(f, S) == Add(f(b), SumOver(f, S - {b}));
    if b != a {
      SumRemove(f, S - {b}, a);
      SumRemove(f, S - {a}, b);
      assert S - {b} - {a} == S - {a} - {b};
      AddSwap(f(b), f(a), SumOver(f, S - {a} - {b}));
    }
  }

  /** A sum of numbers that are never negative is a number, never negative. */
  lemma {:induction false} SumNonNegative(f: Allele -> Freq, S: set<Allele>)
    requires forall a :: a in S ==> f(a).Num? && f(a).r >= 0.0
    ensures SumOver(f, S).Num? && SumOver(f, S).r >= 0.0
    decreases |S|
  {
    if S != {} {
      var a :| a in S && SumOver(f, S) == Add(f(a), SumOver(f, S - {a}));
      SumNonNegative(f, S - {a});
      var x := Add(f(a), SumOver(f, S - {a}));
      assert x.Num? && x.r >= 0.0;
    }
  }

  /** A sum of zeros is zero. */
  lemma {:induction false} SumZero(f: Allele -> Freq, S: set<Allele>)
    requires forall a :: a in S ==> f(a) == Num(0.0)
    ensures SumOver(f, S) == Num(0.0)
    decreases |S|
  {
    if S != {} {
      var a :| a in S && SumOver(f, S) == Add(f(a), SumOver(f, S - {a}));
      SumZero(f, S - {a});
      assert Add(f(a), SumOver(f, S - {a})) == Num(0.0);
    }
  }

  /** A sum is NaN exactly when one of its terms is. */
  lemma {:induction false} SumNaN(f: Allele -> Freq, S: set<Allele>)
    ensures SumOver(f, S).NaN? <==> exists a :: a in S && f(a).NaN?
    decreases |S|
  {
    if S != {} {
      var a :| a in S && SumOver(f, S) == Add(f(a), SumOver(f, S - {a}));
      SumNaN(f, S - {a});
      var x := Add(f(a), SumOver(f, S - {a}));
      assert x.NaN? <==> f(a).NaN? || SumOver(f, S - {a}).NaN?;
      assert SumOver(f, S) == x;
    }
  }

  /** Scores are given exactly to the loci with at least two clades. */
  lemma {:induction false} ScoredLoci(t: Table)
    ensures forall l: Locus, s: Score :: (l, s) in Scores(t) <==>
      exists d: LocusData :: (l, d) in t && |d| >= 2 && s == LocusScore(d)
  {
    if t != [] {
      ScoredLoci(t[..|t| - 1]);
      assert t == t[..|t| - 1] + [t[|t| - 1]];
      var (locus, cladeData) := t[|t| - 1];
      forall l: Locus, s: Score
        ensures (l, s) in Scores(t) <==> exists d: LocusData :: (l, d) in t && |d| >= 2 && s == LocusScore(d)
      {
        if l == locus && |cladeData| >= 2 && s == LocusScore(cladeData) {
          assert (l, cladeData) in t;
        }
      }
    }
  }

  /** With no NaN in the first clade, an allele's spread is a number and
      never negative: `max` and `min` start from the first clade's value and
      pass over any later NaN. */
  lemma SpreadNonNegative(recs: seq<CladeRecord>, a: Allele)
    requires |recs| > 0 && forall p :: p in recs[0].freqs ==> p.1.Num?
    ensures Spread(recs, a).Num? && Spread(recs, a).r >= 0.0
  {
    var fs := FreqsOf(recs, a);
    if Get(recs[0].freqs, a).Some? {
      GetSome(recs[0].freqs, a);
    }
    assert fs[0].Num?;
    MaxMinBoundFirst(fs);
  }

  /** With no NaN in the first clade, the divergence score is a number >= 0. */
  lemma ScoreNonNegative(d: LocusData)
    requires |d| >= 2 && forall p :: p in d[0].1.freqs ==> p.1.Num?
    ensures LocusScore(d).spread.Num? && LocusScore(d).spread.r >= 0.0
  {
    var recs := Values(d);
    assert recs[0] == d[0].1;
    forall a | a in AlleleUnion(recs) ensures SpreadOf(recs)(a).Num? && SpreadOf(recs)(a).r >= 0.0 {
      SpreadNonNegative(recs, a);
    }
    SumNonNegative(SpreadOf(recs), AlleleUnion(recs));
  }

  /** Clades that give every allele the same frequency have no spread. */
  lemma SpreadIdentical(recs: seq<CladeRecord>, a: Allele)
    requires |recs| > 0 && forall p :: p in recs[0].freqs ==> p.1.Num?
    requires forall i :: 0 <= i < |recs| ==> Get(recs[i].freqs, a) == Get(recs[0].freqs, a)
    ensures Spread(recs, a) == Num(0.0)
  {
    var fs := FreqsOf(recs, a);
    if Get(recs[0].freqs, a).Some? {
      GetSome(recs[0].freqs, a);
    }
    assert fs[0].Num?;
    assert forall i :: 0 <= i < |fs| ==> fs[i] == fs[0];
    assert fs[BestIndex(fs, true)] == fs[0] == fs[BestIndex(fs, false)];
  }

  /** Clades whose allele dicts are equal as Python dicts (the same
      frequency for every allele, in whatever order) score 0. */
  lemma IdenticalCladesScoreZero(d: LocusData)
    requires |d| >= 2 && forall p :: p in d[0].1.freqs ==> p.1.Num?
    requires forall i, a :: 0 <= i < |d| ==> Get(d[i].1.freqs, a) == Get(d[0].1.freqs, a)
    ensures LocusScore(d).spread == Num(0.0)
  {
    var recs := Values(d);
    assert recs[0] == d[0].1;
    forall a | a in AlleleUnion(recs) ensures SpreadOf(recs)(a) == Num(0.0) {
      assert forall i :: 0 <= i < |recs| ==> Get(recs[i].freqs, a) == Get(d[i].1.freqs, a);
      SpreadIdentical(recs, a);
    }
    SumZero(SpreadOf(recs), AlleleUnion(recs));
  }

  /** `max` and `min` return NaN exactly when their first argument is NaN,
      so an allele's spread is NaN exactly when the FIRST clade has a NaN
      frequency for it; a NaN in a later clade is passed over. */
  lemma SpreadNaN(recs: seq<CladeRecord>, a: Allele)
    requires |recs| > 0
    ensures Spread(recs, a).NaN? <==> FreqOrZero(recs[0].freqs, a).NaN?
  {
    BestIsNaNIffFirstIsNaN(FreqsOf(recs, a), true);
    BestIsNaNIffFirstIsNaN(FreqsOf(recs, a), false);
  }

  lemma {:induction false} AlleleUnionHas(recs: seq<CladeRecord>, i: nat, a: Allele)
    requires i < |recs| && a in AllelesOf(recs[i].freqs)
    ensures a in AlleleUnion(recs)
  {
    if i < |recs| - 1 {
      AlleleUnionHas(recs[..|recs| - 1], i, a);
    }
  }

  /** A NaN score comes from a NaN frequency in the first clade. */
  lemma NaNScoreFromFirstClade(d: LocusData)
    requires |d| >= 2 && LocusScore(d).spread.NaN?
    ensures exists p :: p in d[0].1.freqs && p.1.NaN?
  {
    var recs := Values(d);
    var first := d[0].1.freqs;
    assert recs[0].freqs == first;
    SumNaN(SpreadOf(recs), AlleleUnion(recs));
    var a :| a in AlleleUnion(recs) && SpreadOf(recs)(a).NaN?;
    SpreadNaN(recs, a);
    assert FreqOrZero(first, a).NaN?;
    GetSome(first, a);
    assert (a, Get(first, a).value) in first;
  }

  /** A NaN frequency in the first clade makes the score NaN. */
  lemma FirstCladeNaNMakesScoreNaN(d: LocusData, p: (Allele, Freq))
    requires |d| >= 2 && LocusWellFormed(d) && p in d[0].1.freqs && p.1.NaN?
    ensures LocusScore(d).spread.NaN?
  {
    var recs := Values(d);
    var first := d[0].1.freqs;
    assert recs[0].freqs == first;
    var k :| 0 <= k < |first| && first[k] == p;
    assert DistinctKeys(first) by { assert d[0] in d; }
    GetAt(first, k);
    SpreadNaN(recs, p.0);
    AlleleUnionHas(recs, 0, p.0);
    assert SpreadOf(recs)(p.0).NaN?;
    SumNaN(SpreadOf(recs), AlleleUnion(recs));
  }

  /** A locus scores NaN exactly when its first clade records a NaN
      frequency. */
  lemma ScoreNaNIffFirstCladeNaN(d: LocusData)
    requires |d| >= 2 && LocusWellFormed(d)
    ensures LocusScore(d).spread.NaN? <==> exists p :: p in d[0].1.freqs && p.1.NaN?
  {
    if LocusScore(d).spread.NaN? {
      NaNScoreFromFirstClade(d);
    }
    if exists p :: p in d[0].1.freqs && p.1.NaN? {
      var p :| p in d[0].1.freqs && p.1.NaN?;
      FirstCladeNaNMakesScoreNaN(d, p);
    }
  }

  /** A NaN in the second of two clades does not reach the score. */
  lemma LaterNaNIgnored()
    ensures var d := [("clade1", CladeRecord(1.0, [("A", Num(0.5))])),
                      ("clade2", CladeRecord(1.0, [("A", NaN)]))];
      LocusScore(d).spread == Num(0.0)
  {
    var d := [("clade1", CladeRecord(1.0, [("A", Num(0.5))])),
              ("clade2", CladeRecord(1.0, [("A", NaN)]))];
    var recs := Values(d);
    assert recs == [d[0].1, d[1].1];
    assert AllelesOf(d[0].1.freqs) == {"A"} by {
      assert d[0].1.freqs[0] in d[0].1.freqs;
    }
    assert AllelesOf(d[1].1.freqs) == {"A"} by {
      assert d[1].1.freqs[0] in d[1].1.freqs;
    }
    assert AlleleUnion(recs) == {"A"} by {
      assert recs[..1][..0] == [];
      assert AlleleUnion(recs[..1]) == AlleleUnion([]) + AllelesOf(d[0].1.freqs);
      assert recs[..|recs| - 1] == recs[..1];
    }
    var fs := FreqsOf(recs, "A");
    assert fs == [Num(0.5), NaN] by {
      assert fs[0] == Num(0.5);
      assert fs[1] == NaN;
    }
    assert BestIndexFrom(fs, true, 2, 0) == 0 && BestIndexFrom(fs, false, 2, 0) == 0;
    assert BestIndex(fs, true) == 0 && BestIndex(fs, false) == 0;
    assert SpreadOf(recs)("A") == Num(0.0);
    SumZero(SpreadOf(recs), {"A"});
  }

  /** The second component is the mean genotyped fraction, so it lies
      between the smallest and the largest fraction at the locus. */
  lemma {:induction false} TotalBetween(recs: seq<CladeRecord>, lo: real, hi: real)
    requires forall i :: 0 <= i < |recs| ==> lo <= recs[i].percGenotyped <= hi
    ensures |recs| as real * lo <= TotalGenotyped(recs) <= |recs| as real * hi
  {
    if recs != [] {
      TotalBetween(recs[..|recs| - 1], lo, hi);
    }
  }

  lemma AverageBetween(d: LocusData, lo: real, hi: real)
    requires |d| >= 2
    requires forall p :: p in d ==> lo <= p.1.percGenotyped <= hi
    ensures lo <= LocusScore(d).avgGenotyped <= hi
  {
    var recs := Values(d);
    forall i | 0 <= i < |recs| ensures lo <= recs[i].percGenotyped <= hi {
      assert d[i] in d;
    }
    TotalBetween(recs, lo, hi);
    var n := |recs| as real;
    var avg := TotalGenotyped(recs) / n;
    assert avg * n == TotalGenotyped(recs);
  }
}
