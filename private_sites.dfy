/** Loci genotyped in exactly one clade, and loci missing in exactly one
    clade (find_private_sites). */
module PrivateSites {
  import opened AssocList
  import opened AlleleTable

  /** `{clade: perc_genotyped}` for the clades with some genotyped sample. */
  type GenotypedClades = Assoc<Clade, real>
  type PrivateSiteMap = Assoc<Locus, (Clade, real)>
  type MissingSiteMap = Assoc<Locus, GenotypedClades>

  /** Line 104: the clades with a positive genotyped fraction, in order. */
  function Genotyped(d: LocusData): GenotypedClades {
    if d == [] then []
    else
      var (clade, rec) := d[|d| - 1];
      var init := Genotyped(d[..|d| - 1]);
      if rec.percGenotyped > 0.0 then init + [(clade, rec.percGenotyped)] else init
  }

  /** Line 105: the names of the clades with a zero genotyped fraction. */
  function Missing(d: LocusData): set<Clade> {
    set p | p in d && p.1.percGenotyped == 0.0 :: p.0
  }

  /** Lines 107-109: genotyped in one clade only and missing in some. */
  predicate IsPrivateSite(d: LocusData) {
    |Genotyped(d)| == 1 && |Missing(d)| > 0
  }

  /** Lines 111-112: genotyped in several clades and missing in one. */
  predicate IsUniquelyMissing(d: LocusData) {
    |Genotyped(d)| > 1 && |Missing(d)| == 1
  }

  function PrivateSitesOf(t: Table): PrivateSiteMap {
    if t == [] then []
    else
      var (locus, cladeData) := t[|t| - 1];
      var init := PrivateSitesOf(t[..|t| - 1]);
      if IsPrivateSite(cladeData) then init + [(locus, Genotyped(cladeData)[0])] else init
  }

  function UniquelyMissingOf(t: Table): MissingSiteMap {
    if t == [] then []
    else
      var (locus, cladeData) := t[|t| - 1];
      var init := UniquelyMissingOf(t[..|t| - 1]);
      if IsUniquelyMissing(cladeData) then init + [(locus, Genotyped(cladeData))] else init
  }

  /** find_private_sites: one pass over the loci fills both dictionaries. */
  method FindPrivateSites(allAlleles: Table) returns (privateSites: PrivateSiteMap, uniquelyMissingSites: MissingSiteMap)
    ensures privateSites == PrivateSitesOf(allAlleles)
    ensures uniquelyMissingSites == UniquelyMissingOf(allAlleles)
  {
    privateSites, uniquelyMissingSites := [], [];
    for i := 0 to |allAlleles|
      invariant privateSites == PrivateSitesOf(allAlleles[..i])
      invariant uniquelyMissingSites == UniquelyMissingOf(allAlleles[..i])
    {
      var (locus, cladeData) := allAlleles[i];
      assert allAlleles[..i + 1][..i] == allAlleles[..i];
      var genotypedClades := Genotyped(cladeData);
      var missingClades := Missing(cladeData);
      if |genotypedClades| == 1 && |missingClades| > 0 {
        privateSites := privateSites + [(locus, genotypedClades[0])];
      }
      if |genotypedClades| > 1 && |missingClades| == 1 {
        uniquelyMissingSites := uniquelyMissingSites + [(locus, genotypedClades)];
      }
    }
    assert allAlleles[..|allAlleles|] == allAlleles;
  }

  /** The genotyped dictionary holds exactly the clades with a positive
      fraction, each with its own fraction. */
  lemma {:induction false} GenotypedExact(d: LocusData)
    ensures forall c: Clade, p: real :: (c, p) in Genotyped(d) <==>
      p > 0.0 && exists rec: CladeRecord :: (c, rec) in d && rec.percGenotyped == p
  {
    if d != [] {
      GenotypedExact(d[..|d| - 1]);
      assert d == d[..|d| - 1] + [d[|d| - 1]];
      var (clade, rec) := d[|d| - 1];
      forall c: Clade, p: real
        ensures (c, p) in Genotyped(d) <==>
          p > 0.0 && exists rec': CladeRecord :: (c, rec') in d && rec'.percGenotyped == p
      {
        if c == clade && p == rec.percGenotyped && p > 0.0 {
          assert (c, rec) in d;
        }
      }
    }
  }

  /** Built from a dict, the genotyped dictionary has distinct keys too. */
  lemma {:induction false} GenotypedDistinct(d: LocusData)
    requires DistinctKeys(d)
    ensures DistinctKeys(Genotyped(d))
  {
    if d != [] {
      var init := d[..|d| - 1];
      var (clade, rec) := d[|d| - 1];
      GenotypedDistinct(init);
      GenotypedExact(init);
      var g := Genotyped(init);
      forall i | 0 <= i < |g| ensures g[i].0 != clade {
        assert g[i] in g;
        var rec': CladeRecord :| (g[i].0, rec') in init && rec'.percGenotyped == g[i].1;
        var j :| 0 <= j < |init| && init[j] == (g[i].0, rec');
        assert d[j] == init[j];
      }
    }
  }

  /** No clade is both genotyped and missing. */
  lemma GenotypedNotMissing(d: LocusData, c: Clade, p: real)
    requires DistinctKeys(d) && (c, p) in Genotyped(d)
    ensures c !in Missing(d)
  {
    GenotypedExact(d);
    var rec: CladeRecord :| (c, rec) in d && rec.percGenotyped == p;
    forall q | q in d && q.1.percGenotyped == 0.0 ensures q.0 != c {
      if q.0 == c {
        SameKeySameValue(d, c, rec, q.1);
      }
    }
  }

  /** Exactly one clade has a positive fraction: `c`, with fraction `p`. */
  ghost predicate OnlyGenotyped(d: LocusData, c: Clade, p: real) {
    && p > 0.0
    && (exists rec: CladeRecord :: (c, rec) in d && rec.percGenotyped == p)
    && forall q :: q in d && q.0 != c ==> q.1.percGenotyped <= 0.0
  }

  /** A genotyped dictionary of one entry means exactly one clade is
      genotyped, and that entry names it. */
  lemma SingleGenotyped(d: LocusData, c: Clade, p: real)
    requires DistinctKeys(d)
    ensures |Genotyped(d)| == 1 && Genotyped(d)[0] == (c, p) <==> OnlyGenotyped(d, c, p)
  {
    var g := Genotyped(d);
    GenotypedExact(d);
    if |g| == 1 && g[0] == (c, p) {
      forall q | q in d && q.0 != c ensures q.1.percGenotyped <= 0.0 {
        assert q.1.percGenotyped > 0.0 ==> (q.0, q.1.percGenotyped) in g;
      }
    }
    if OnlyGenotyped(d, c, p) {
      var rec: CladeRecord :| (c, rec) in d && rec.percGenotyped == p;
      assert (c, p) in g;
      forall i | 0 <= i < |g| ensures g[i] == (c, p) {
        assert g[i] in g;
        var rec': CladeRecord :| (g[i].0, rec') in d && rec'.percGenotyped == g[i].1;
        assert g[i].1 > 0.0;
        assert (g[i].0, rec') in d && rec'.percGenotyped > 0.0;
        assert g[i].0 == c;
        SameKeySameValue(d, c, rec, rec');
      }
      GenotypedDistinct(d);
      assert |g| > 1 ==> g[0].0 == g[1].0;
    }
  }

  /** The private sites are exactly the loci with one genotyped clade and at
      least one missing clade, each mapped to that clade and its fraction. */
  lemma {:induction false} PrivateSitesExact(t: Table)
    ensures forall l: Locus, c: Clade, p: real :: (l, (c, p)) in PrivateSitesOf(t) <==>
      exists d: LocusData :: (l, d) in t && IsPrivateSite(d) && Genotyped(d)[0] == (c, p)
  {
    if t != [] {
      PrivateSitesExact(t[..|t| - 1]);
      assert t == t[..|t| - 1] + [t[|t| - 1]];
      var (locus, cladeData) := t[|t| - 1];
      forall l: Locus, c: Clade, p: real
        ensures (l, (c, p)) in PrivateSitesOf(t) <==>
          exists d: LocusData :: (l, d) in t && IsPrivateSite(d) && Genotyped(d)[0] == (c, p)
      {
        if l == locus && IsPrivateSite(cladeData) && Genotyped(cladeData)[0] == (c, p) {
          assert (l, cladeData) in t;
        }
      }
    }
  }

  /** The uniquely missing sites are exactly the loci with several genotyped
      clades and one missing clade, each mapped to its genotyped clades. */
  lemma {:induction false} UniquelyMissingExact(t: Table)
    ensures forall l: Locus, g: GenotypedClades :: (l, g) in UniquelyMissingOf(t) <==>
      exists d: LocusData :: (l, d) in t && IsUniquelyMissing(d) && g == Genotyped(d)
  {
    if t != [] {
      UniquelyMissingExact(t[..|t| - 1]);
      assert t == t[..|t| - 1] + [t[|t| - 1]];
      var (locus, cladeData) := t[|t| - 1];
      forall l: Locus, g: GenotypedClades
        ensures (l, g) in UniquelyMissingOf(t) <==>
          exists d: LocusData :: (l, d) in t && IsUniquelyMissing(d) && g == Genotyped(d)
      {
        if l == locus && IsUniquelyMissing(cladeData) && g == Genotyped(cladeData) {
          assert (l, cladeData) in t;
        }
      }
    }
  }

  /** A recorded private site has its clade as the only genotyped one. */
  lemma PrivateSiteSound(t: Table, l: Locus, c: Clade, p: real)
    requires WellFormed(t) && (l, (c, p)) in PrivateSitesOf(t)
    ensures exists d: LocusData :: (l, d) in t && OnlyGenotyped(d, c, p) && Missing(d) != {}
  {
    PrivateSitesExact(t);
    var d: LocusData :| (l, d) in t && IsPrivateSite(d) && Genotyped(d)[0] == (c, p);
    assert LocusWellFormed(d);
    SingleGenotyped(d, c, p);
    assert |Missing(d)| > 0;
  }

  /** A locus genotyped only in clade c, and missing in some clade, is
      recorded with c and its fraction. */
  lemma PrivateSiteComplete(t: Table, l: Locus, d: LocusData, c: Clade, p: real)
    requires WellFormed(t) && (l, d) in t && OnlyGenotyped(d, c, p) && Missing(d) != {}
    ensures (l, (c, p)) in PrivateSitesOf(t)
  {
    PrivateSitesExact(t);
    assert LocusWellFormed(d);
    SingleGenotyped(d, c, p);
    assert |Missing(d)| > 0;
    assert IsPrivateSite(d);
  }

  /** A private site: its clade is the only one genotyped there, with the
      recorded fraction, and some clade there is entirely ungenotyped. */
  lemma PrivateSiteMeaning(t: Table)
    requires WellFormed(t)
    ensures forall l: Locus, c: Clade, p: real :: (l, (c, p)) in PrivateSitesOf(t) <==>
      exists d: LocusData :: (l, d) in t && OnlyGenotyped(d, c, p) && Missing(d) != {}
  {
    forall l: Locus, c: Clade, p: real
      ensures (l, (c, p)) in PrivateSitesOf(t) <==>
        exists d: LocusData :: (l, d) in t && OnlyGenotyped(d, c, p) && Missing(d) != {}
    {
      if (l, (c, p)) in PrivateSitesOf(t) {
        PrivateSiteSound(t, l, c, p);
      }
      if exists d: LocusData :: (l, d) in t && OnlyGenotyped(d, c, p) && Missing(d) != {} {
        var d: LocusData :| (l, d) in t && OnlyGenotyped(d, c, p) && Missing(d) != {};
        PrivateSiteComplete(t, l, d, c, p);
      }
    }
  }

  /** A locus is never both a private site and a uniquely missing site. */
  lemma SitesDisjoint(t: Table)
    requires DistinctKeys(t)
    ensures var ps, um := PrivateSitesOf(t), UniquelyMissingOf(t);
      forall i, j :: 0 <= i < |ps| && 0 <= j < |um| ==> ps[i].0 != um[j].0
  {
    PrivateSitesExact(t);
    UniquelyMissingExact(t);
    var ps, um := PrivateSitesOf(t), UniquelyMissingOf(t);
    forall i, j | 0 <= i < |ps| && 0 <= j < |um| ensures ps[i].0 != um[j].0 {
      var (l1, (c, p)) := ps[i];
      assert (l1, (c, p)) in ps;
      var d1: LocusData :| (l1, d1) in t && IsPrivateSite(d1) && Genotyped(d1)[0] == (c, p);
      var (l2, g) := um[j];
      assert (l2, g) in um;
      var d2: LocusData :| (l2, d2) in t && IsUniquelyMissing(d2) && g == Genotyped(d2);
      if l1 == l2 {
        SameKeySameValue(t, l1, d1, d2);
      }
    }
  }

  /** At one locus: a single missing clade name, not among the genotyped. */
  lemma SingleMissing(d: LocusData)
    requires DistinctKeys(d) && |Missing(d)| == 1
    ensures exists m: Clade :: Missing(d) == {m} && m !in Keys(Genotyped(d))
  {
    var g := Genotyped(d);
    var m :| m in Missing(d);
    assert |Missing(d) - {m}| == 0;
    assert Missing(d) == {m};
    forall k | 0 <= k < |g| ensures Keys(g)[k] != m {
      assert (g[k].0, g[k].1) in g;
      GenotypedNotMissing(d, g[k].0, g[k].1);
    }
  }

  /** One entry of the uniquely missing sites, traced back to its locus. */
  lemma UniquelyMissingEntry(t: Table, l: Locus, g: GenotypedClades)
    requires WellFormed(t) && (l, g) in UniquelyMissingOf(t)
    ensures exists d: LocusData, m: Clade :: (l, d) in t && g == Genotyped(d) && Missing(d) == {m} && m !in Keys(g) && |g| > 1
  {
    UniquelyMissingExact(t);
    var d: LocusData :| (l, d) in t && IsUniquelyMissing(d) && g == Genotyped(d);
    assert LocusWellFormed(d);
    SingleMissing(d);
    var m: Clade :| Missing(d) == {m} && m !in Keys(Genotyped(d));
    assert (l, d) in t && g == Genotyped(d) && Missing(d) == {m} && m !in Keys(g) && |g| > 1;
  }

  /** A uniquely missing site: exactly one clade name there is entirely
      ungenotyped, it is not among the recorded clades, and at least two
      clades are recorded. */
  lemma UniquelyMissingMeaning(t: Table)
    requires WellFormed(t)
    ensures forall l: Locus, g: GenotypedClades :: (l, g) in UniquelyMissingOf(t) ==>
      exists d: LocusData, m: Clade :: (l, d) in t && g == Genotyped(d) && Missing(d) == {m} && m !in Keys(g) && |g| > 1
  {
    forall l: Locus, g: GenotypedClades | (l, g) in UniquelyMissingOf(t)
      ensures exists d: LocusData, m: Clade :: (l, d) in t && g == Genotyped(d) && Missing(d) == {m} && m !in Keys(g) && |g| > 1
    {
      UniquelyMissingEntry(t, l, g);
    }
  }
}
