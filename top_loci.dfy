/** Choosing the most divergent loci for output (lines 144-145 of
    write_most_divergent_loci): drop NaN scores, sort by the score rounded
    to six decimals, largest first and stable among ties, and keep the first
    `num_div_loci`. */
module TopLoci {
  import opened PyFloat
  import opened AlleleTable
  import opened Divergence

  type Entry = (Locus, Score)

  /** Line 144: the entries whose score is not NaN, in order. */
  function NonNaN(scores: seq<Entry>): (r: seq<Entry>)
    ensures forall e :: e in r <==> e in scores && e.1.spread.Num?
  {
    if scores == [] then []
    else if scores[0].1.spread.Num? then [scores[0]] + NonNaN(scores[1..])
    else NonNaN(scores[1..])
  }

  /** The filter keeps input order: filtering two runs is filtering each. */
  lemma {:induction false} NonNaNAppend(a: seq<Entry>, b: seq<Entry>)
    ensures NonNaN(a + b) == NonNaN(a) + NonNaN(b)
  {
    if a == [] {
      assert a + b == b;
    } else {
      NonNaNAppend(a[1..], b);
      var h := if a[0].1.spread.Num? then [a[0]] else [];
      assert NonNaN(a) == h + NonNaN(a[1..]);
      assert NonNaN(a + b) == h + NonNaN(a[1..] + b) by {
        assert (a + b)[0] == a[0];
        assert (a + b)[1..] == a[1..] + b;
      }
      ConcatAssoc(h, NonNaN(a[1..]), NonNaN(b));
    }
  }

  lemma ConcatAssoc(x: seq<Entry>, y: seq<Entry>, z: seq<Entry>)
    ensures x + (y + z) == (x + y) + z
  {
  }

  /** Taking the entries with one key commutes with dropping NaN scores. */
  lemma {:induction false} WithKeyNonNaN(s: seq<Entry>, k: real)
    ensures WithKey(NonNaN(s), k) == NonNaN(WithKey(s, k))
  {
    if s != [] {
      WithKeyNonNaN(s[1..], k);
      var head := if Key(s[0]) == k then [s[0]] else [];
      var rest := NonNaN(s[1..]);
      assert NonNaN(WithKey(s, k)) == NonNaN(head) + NonNaN(WithKey(s[1..], k)) by {
        assert WithKey(s, k) == head + WithKey(s[1..], k);
        NonNaNAppend(head, WithKey(s[1..], k));
      }
      assert WithKey(NonNaN(s), k) == NonNaN(head) + WithKey(rest, k) by {
        WithKeyNonNaNHead(s, k);
      }
    }
  }

  /** The first entry's share of both sides of WithKeyNonNaN. */
  lemma WithKeyNonNaNHead(s: seq<Entry>, k: real)
    requires s != []
    ensures var head := if Key(s[0]) == k then [s[0]] else [];
      WithKey(NonNaN(s), k) == NonNaN(head) + WithKey(NonNaN(s[1..]), k)
  {
    var x := s[0];
    var rest := NonNaN(s[1..]);
    if x.1.spread.Num? {
      assert NonNaN(s) == [x] + rest;
      assert ([x] + rest)[0] == x && ([x] + rest)[1..] == rest;
      if Key(x) == k {
        assert NonNaN([x]) == [x] by {
          assert [x][1..] == [];
        }
      }
    } else {
      assert NonNaN(s) == rest;
      if Key(x) == k {
        assert NonNaN([x]) == [] by {
          assert [x][1..] == [];
        }
      }
    }
  }

  /** Without NaN scores the filter changes nothing. */
  lemma {:induction false} NonNaNKeepsAll(scores: seq<Entry>)
    requires forall e :: e in scores ==> e.1.spread.Num?
    ensures NonNaN(scores) == scores
  {
    if scores != [] {
      NonNaNKeepsAll(scores[1..]);
      assert scores == [scores[0]] + scores[1..];
    }
  }

  /** Line 145: `round(float(score), 6)`; NaN scores never reach it, and
      count as 0 here. */
  function Key(e: Entry): real {
    if e.1.spread.Num? then Round6(e.1.spread.r) else 0.0
  }

  /** Put x before the first entry whose key is not larger: x comes before
      every entry of s in the input, so it stays before those it ties with. */
  function InsertDesc(x: Entry, s: seq<Entry>): seq<Entry> {
    if s == [] || Key(s[0]) <= Key(x) then [x] + s
    else [s[0]] + InsertDesc(x, s[1..])
  }

  /** Line 145: `sorted(..., key=..., reverse=True)`, which keeps the input
      order among entries with equal keys. */
  function SortDesc(s: seq<Entry>): seq<Entry> {
    if s == [] then [] else InsertDesc(s[0], SortDesc(s[1..]))
  }

  /** Line 145: `xs[:n]`, where a negative n counts from the end. */
  function SliceTo<T>(xs: seq<T>, n: int): (r: seq<T>)
    ensures |r| == if n >= 0 then (if n < |xs| then n else |xs|)
                   else (if |xs| + n > 0 then |xs| + n else 0)
    ensures r == xs[..|r|]
  {
    if n >= 0 then (if n < |xs| then xs[..n] else xs)
    else (if |xs| + n > 0 then xs[..|xs| + n] else [])
  }

  /** The loci written out by write_most_divergent_loci, in output order. */
  function TopDivergent(scores: seq<Entry>, numDivLoci: int): seq<Entry> {
    SliceTo(SortDesc(NonNaN(scores)), numDivLoci)
  }

  predicate SortedDesc(s: seq<Entry>) {
    forall i, j :: 0 <= i < j < |s| ==> Key(s[i]) >= Key(s[j])
  }

  /** The entries of s with key k, in order. */
  function WithKey(s: seq<Entry>, k: real): seq<Entry> {
    if s == [] then []
    else (if Key(s[0]) == k then [s[0]] else []) + WithKey(s[1..], k)
  }

  lemma {:induction false} InsertDescPermutation(x: Entry, s: seq<Entry>)
    ensures multiset(InsertDesc(x, s)) == multiset(s) + multiset{x}
  {
    if s != [] && Key(s[0]) > Key(x) {
      InsertDescPermutation(x, s[1..]);
      assert s == [s[0]] + s[1..];
    }
  }

  lemma {:induction false} InsertDescSorted(x: Entry, s: seq<Entry>)
    requires SortedDesc(s)
    ensures SortedDesc(InsertDesc(x, s))
  {
    var r := InsertDesc(x, s);
    if s != [] && Key(s[0]) > Key(x) {
      var rest := InsertDesc(x, s[1..]);
      InsertDescSorted(x, s[1..]);
      InsertDescPermutation(x, s[1..]);
      assert r == [s[0]] + rest;
      forall j | 0 <= j < |rest| ensures Key(s[0]) >= Key(rest[j]) {
        assert rest[j] in multiset(rest);
        if rest[j] != x {
          var m :| 0 <= m < |s[1..]| && s[1..][m] == rest[j];
          assert s[m + 1] == rest[j];
        }
      }
    } else {
      assert r == [x] + s;
    }
  }

  lemma {:induction false} InsertDescWithKey(x: Entry, s: seq<Entry>, k: real)
    ensures WithKey(InsertDesc(x, s), k) == if Key(x) == k then [x] + WithKey(s, k) else WithKey(s, k)
  {
    if s != [] && Key(s[0]) > Key(x) {
      InsertDescWithKey(x, s[1..], k);
      assert InsertDesc(x, s)[1..] == InsertDesc(x, s[1..]);
      if Key(x) == k {
        assert Key(s[0]) != k;
      }
    } else {
      assert ([x] + s)[1..] == s;
    }
  }

  /** The sort orders by key, largest first, and keeps every entry. */
  lemma {:induction false} SortDescSortedPermutation(s: seq<Entry>)
    ensures SortedDesc(SortDesc(s))
    ensures multiset(SortDesc(s)) == multiset(s)
  {
    if s != [] {
      SortDescSortedPermutation(s[1..]);
      InsertDescSorted(s[0], SortDesc(s[1..]));
      InsertDescPermutation(s[0], SortDesc(s[1..]));
      assert s == [s[0]] + s[1..];
    }
  }

  /** The sort is stable: the entries with any one key keep their order. */
  lemma {:induction false} SortDescStable(s: seq<Entry>, k: real)
    ensures WithKey(SortDesc(s), k) == WithKey(s, k)
  {
    if s != [] {
      SortDescStable(s[1..], k);
      InsertDescWithKey(s[0], SortDesc(s[1..]), k);
    }
  }

  /** Entries written with equal rounded scores appear in the order of the
      divergence map, the order the filter at line 144 keeps. */
  lemma TiesInInputOrder(scores: seq<Entry>, k: real)
    ensures WithKey(SortDesc(NonNaN(scores)), k) == NonNaN(WithKey(scores, k))
  {
    SortDescStable(NonNaN(scores), k);
    WithKeyNonNaN(scores, k);
  }

  /** What is written: no NaN score, at most num_div_loci entries (a
      negative count drops that many from the end), largest rounded score
      first, ties in input order, and each entry one of the inputs. */
  lemma TopDivergentSpec(scores: seq<Entry>, numDivLoci: int)
    ensures var r, kept := TopDivergent(scores, numDivLoci), NonNaN(scores);
      && (forall e :: e in r ==> e in scores && e.1.spread.Num?)
      && |r| == (if numDivLoci >= 0 then (if numDivLoci < |kept| then numDivLoci else |kept|)
                 else (if |kept| + numDivLoci > 0 then |kept| + numDivLoci else 0))
      && SortedDesc(r)
      && r == SortDesc(kept)[..|r|]
      && multiset(SortDesc(kept)) == multiset(kept)
      && forall k :: WithKey(SortDesc(kept), k) == WithKey(kept, k)
  {
    var kept := NonNaN(scores);
    var sorted := SortDesc(kept);
    SortDescSortedPermutation(kept);
    forall k ensures WithKey(sorted, k) == WithKey(kept, k) {
      SortDescStable(kept, k);
    }
    var r := TopDivergent(scores, numDivLoci);
    forall e | e in r ensures e in scores && e.1.spread.Num? {
      assert e in multiset(sorted);
    }
  }

  /** In a list sorted largest first, every entry of a prefix has a key at
      least that of every entry outside it. */
  lemma SortedPrefixBeatsRest(s: seq<Entry>, k: nat)
    requires SortedDesc(s) && k <= |s|
    ensures forall x, y :: x in s[..k] && y in s && y !in s[..k] ==> Key(x) >= Key(y)
  {
    var r := s[..k];
    forall m | 0 <= m < k ensures s[m] in r {
      assert r[m] == s[m];
    }
    forall x, y | x in r && y in s && y !in r ensures Key(x) >= Key(y) {
      var j :| 0 <= j < |s| && s[j] == y;
      var i :| 0 <= i < k && r[i] == x;
      assert i < k <= j;
      assert s[i] == x;
    }
  }

  /** Every entry written has a rounded score at least that of every
      non-NaN entry left out. */
  lemma TopBeatsDropped(scores: seq<Entry>, numDivLoci: int)
    ensures var r := TopDivergent(scores, numDivLoci);
      forall x, y :: x in r && y in NonNaN(scores) && y !in r ==> Key(x) >= Key(y)
  {
    var kept := NonNaN(scores);
    var sorted := SortDesc(kept);
    SortDescSortedPermutation(kept);
    var r := SliceTo(sorted, numDivLoci);
    assert r == sorted[..|r|];
    SortedPrefixBeatsRest(sorted, |r|);
    forall y | y in kept ensures y in sorted {
      assert y in multiset(sorted);
    }
  }

  /** Ordering by the rounded score puts an entry after another only if its
      exact score is at most 10^-6 larger. */
  lemma SortedNearlyByScore(s: seq<Entry>)
    requires SortedDesc(s) && forall e :: e in s ==> e.1.spread.Num?
    ensures forall i, j :: 0 <= i < j < |s| ==> s[j].1.spread.r <= s[i].1.spread.r + 0.000001
  {
    forall i, j | 0 <= i < j < |s| ensures s[j].1.spread.r <= s[i].1.spread.r + 0.000001 {
      assert s[i] in s && s[j] in s;
    }
  }
}
