// Domain segmentation of `find_domains` (alpha.py:128-149): the residue
// numbers of confidently placed CA atoms are deduplicated, sorted, and cut
// wherever two neighbours are more than `MaxGap` apart; every piece of at
// least `MinDomainSize` residues is reported as `(first, last)`.
//
// Runs are described by index ranges `[lo, hi)` into the sorted residue
// list, built one residue at a time exactly as the scan builds
// `current_domain`.

module Domains {

  /** Neighbours at most this far apart stay in the same run. */
  const MaxGap: int := 3

  /** Shorter runs are not reported. */
  const MinDomainSize: nat := 20

  predicate StrictlyIncreasing(xs: seq<int>) {
    forall i, j :: 0 <= i < j < |xs| ==> xs[i] < xs[j]
  }

  // ---------------------------------------------------------------------
  // `sorted()` of a set and `min()`/`max()` of a list

  /** Some element of a non-empty set.  (Stated for any element type: the
      verifier finds the witness more readily there than for `int`.) */
  lemma Pick<T>(s: set<T>) returns (x: T)
    requires s != {}
    ensures x in s
  {
    x :| x in s;
  }

  lemma {:induction false} SetMinExists(s: set<int>)
    requires s != {}
    ensures exists m :: m in s && forall y :: y in s ==> m <= y
    decreases |s|
  {
    var x := Pick(s);
    if s != {x} {
      var rest := s - {x};
      assert s == rest + {x};
      SetMinExists(rest);
    }
  }

  /** The least element of a non-empty set. */
  function Least(s: set<int>): (m: int)
    requires s != {}
    ensures m in s && forall y :: y in s ==> m <= y
  {
    SetMinExists(s);
    var m :| m in s && forall y :: y in s ==> m <= y;
    m
  }

  lemma ConsIncreasing(m: int, rest: seq<int>)
    requires StrictlyIncreasing(rest)
    requires forall k :: 0 <= k < |rest| ==> m < rest[k]
    ensures StrictlyIncreasing([m] + rest)
  {
    var xs := [m] + rest;
    forall i, j | 0 <= i < j < |xs| ensures xs[i] < xs[j] {
      assert xs[j] == rest[j - 1];
      if i > 0 {
        assert xs[i] == rest[i - 1];
      }
    }
  }

  /** `sorted(s)` for a set of integers: its elements in ascending order,
      each once. */
  function Sorted(s: set<int>): (xs: seq<int>)
    ensures StrictlyIncreasing(xs)
    ensures forall x :: x in xs <==> x in s
    ensures |xs| == |s|
    decreases |s|
  {
    if s == {} then []
    else
      var m := Least(s);
      var rest := Sorted(s - {m});
      assert forall k :: 0 <= k < |rest| ==> m < rest[k] by {
        forall k | 0 <= k < |rest| ensures m < rest[k] {
          assert rest[k] in s - {m};
        }
      }
      ConsIncreasing(m, rest);
      [m] + rest
  }

  /** `min()` of a non-empty list. */
  function Min(s: seq<int>): (m: int)
    requires |s| > 0
    ensures m in s && forall x :: x in s ==> m <= x
  {
    if |s| == 1 then s[0]
    else
      var r := Min(s[1..]);
      assert forall x :: x in s ==> x == s[0] || x in s[1..];
      if s[0] <= r then s[0] else r
  }

  /** `max()` of a non-empty list. */
  function Max(s: seq<int>): (m: int)
    requires |s| > 0
    ensures m in s && forall x :: x in s ==> x <= m
  {
    if |s| == 1 then s[0]
    else
      var r := Max(s[1..]);
      assert forall x :: x in s ==> x == s[0] || x in s[1..];
      if s[0] >= r then s[0] else r
  }

  /** On an ascending list `min` and `max` are its ends. */
  lemma MinMaxSorted(s: seq<int>)
    requires |s| > 0 && StrictlyIncreasing(s)
    ensures Min(s) == s[0] && Max(s) == s[|s| - 1]
  {
    var lo, hi := Min(s), Max(s);
    assert lo <= s[0] && s[|s| - 1] <= hi;
    var i :| 0 <= i < |s| && s[i] == lo;
    var j :| 0 <= j < |s| && s[j] == hi;
    assert s[0] <= s[i] && s[j] <= s[|s| - 1];
  }

  // ---------------------------------------------------------------------
  // Runs

  /** Residue `k` stays in the run of residue `k - 1`. */
  predicate Close(xs: seq<int>, k: int)
    requires 0 < k < |xs|
  {
    xs[k] - xs[k - 1] <= MaxGap
  }

  /** `[lo, hi)` is a run as the scan forms it: no cut inside, and a cut
      (or the start of the list) right before it. */
  predicate RunOk(xs: seq<int>, r: (nat, nat)) {
    && r.0 < r.1 <= |xs|
    && (forall k :: r.0 < k < r.1 ==> Close(xs, k))
    && (r.0 > 0 ==> !Close(xs, r.0))
  }

  /** Run `i + 1` starts where run `i` ends. */
  predicate Adjacent(rs: seq<(nat, nat)>, i: int)
    requires 0 <= i < |rs| - 1
  {
    rs[i].1 == rs[i + 1].0
  }

  /** `rs` cuts `[0, n)` into consecutive non-empty ranges, in order. */
  predicate Tiling(rs: seq<(nat, nat)>, n: nat) {
    && (|rs| == 0 <==> n == 0)
    && (|rs| > 0 ==> rs[0].0 == 0 && rs[|rs| - 1].1 == n)
    && (forall i :: 0 <= i < |rs| ==> rs[i].0 < rs[i].1 <= n)
    && (forall i :: 0 <= i < |rs| - 1 ==> Adjacent(rs, i))
    && (forall i, j :: 0 <= i < j < |rs| ==> rs[i].1 <= rs[j].0)
  }

  /** Growing the last range of a tiling by one position keeps it a tiling. */
  lemma TilingExtend(rs: seq<(nat, nat)>, n: nat)
    requires Tiling(rs, n) && n > 0
    ensures Tiling(rs[..|rs| - 1] + [(rs[|rs| - 1].0, n + 1)], n + 1)
  {
    var rs' := rs[..|rs| - 1] + [(rs[|rs| - 1].0, n + 1)];
    forall i | 0 <= i < |rs'| - 1 ensures Adjacent(rs', i) {
      assert Adjacent(rs, i);
    }
  }

  /** Appending the range `[n, n + 1)` to a tiling of `[0, n)` tiles `[0, n + 1)`. */
  lemma TilingCut(rs: seq<(nat, nat)>, n: nat)
    requires Tiling(rs, n) && n > 0
    ensures Tiling(rs + [(n, n + 1)], n + 1)
  {
    var rs' := rs + [(n, n + 1)];
    forall i | 0 <= i < |rs'| - 1 ensures Adjacent(rs', i) {
      if i < |rs| - 1 {
        assert Adjacent(rs, i);
      }
    }
  }

  /** Every range of `rs` is a run of `xs`. */
  predicate AllRuns(xs: seq<int>, rs: seq<(nat, nat)>) {
    forall i :: 0 <= i < |rs| ==> RunOk(xs, rs[i])
  }

  /** Residue `n` joins the open run when it is close to its predecessor ... */
  lemma ExtendOk(xs: seq<int>, rs: seq<(nat, nat)>, n: nat)
    requires 0 < n < |xs| && Close(xs, n)
    requires |rs| > 0 && rs[|rs| - 1].1 == n
    requires AllRuns(xs, rs)
    ensures AllRuns(xs, rs[..|rs| - 1] + [(rs[|rs| - 1].0, n + 1)])
  {
    assert RunOk(xs, rs[|rs| - 1]);
  }

  /** ... and opens a run of its own otherwise. */
  lemma CutOk(xs: seq<int>, rs: seq<(nat, nat)>, n: nat)
    requires 0 < n < |xs| && !Close(xs, n)
    requires AllRuns(xs, rs)
    ensures AllRuns(xs, rs + [(n, n + 1)])
  {
  }

  /** The last range of `rs` is non-empty and ends at `n`: it is the open run
      after `n` residues. */
  predicate Open(rs: seq<(nat, nat)>, n: nat) {
    |rs| > 0 && rs[|rs| - 1].0 < rs[|rs| - 1].1 == n
  }

  /** One iteration of the scan: residue `n` either joins the open run or
      opens a new one. */
  function Step(xs: seq<int>, rs: seq<(nat, nat)>, n: nat): (rs': seq<(nat, nat)>)
    requires 0 < n < |xs| && Open(rs, n)
    ensures Open(rs', n + 1)
  {
    if Close(xs, n) then rs[..|rs| - 1] + [(rs[|rs| - 1].0, n + 1)]
    else rs + [(n, n + 1)]
  }

  /** A step keeps a tiling of the scanned prefix whose ranges are runs. */
  lemma StepOk(xs: seq<int>, rs: seq<(nat, nat)>, n: nat)
    requires 0 < n < |xs| && Tiling(rs, n) && AllRuns(xs, rs)
    ensures Tiling(Step(xs, rs, n), n + 1) && AllRuns(xs, Step(xs, rs, n))
  {
    if Close(xs, n) {
      TilingExtend(rs, n);
      ExtendOk(xs, rs, n);
    } else {
      TilingCut(rs, n);
      CutOk(xs, rs, n);
    }
  }

  /** The runs among the first `n` sorted residues: `current_domain` grows
      while the gap to the previous residue is at most `MaxGap` and starts
      afresh otherwise. */
  function Runs(xs: seq<int>, n: nat): (rs: seq<(nat, nat)>)
    requires n <= |xs|
    ensures n == 0 ==> rs == []
    ensures n > 0 ==> Open(rs, n)
  {
    if n == 0 then []
    else if n == 1 then [(0, 1)]
    else Step(xs, Runs(xs, n - 1), n - 1)
  }

  /** The runs tile the scanned prefix, and each is a run of `xs`. */
  lemma {:induction false} RunsOk(xs: seq<int>, n: nat)
    requires n <= |xs|
    ensures Tiling(Runs(xs, n), n) && AllRuns(xs, Runs(xs, n))
  {
    if n > 1 {
      RunsOk(xs, n - 1);
      StepOk(xs, Runs(xs, n - 1), n - 1);
    }
  }

  /** Every position lies in some run of a tiling. */
  lemma {:induction false} Covered(rs: seq<(nat, nat)>, n: nat, k: nat)
    requires Tiling(rs, n) && k < n
    ensures exists i :: 0 <= i < |rs| && rs[i].0 <= k < rs[i].1
    decreases |rs|
  {
    var m := |rs| - 1;
    if k < rs[m].0 {
      var init := rs[..m];
      assert m > 0 && Adjacent(rs, m - 1);
      forall i | 0 <= i < |init| - 1 ensures Adjacent(init, i) {
        assert Adjacent(rs, i);
      }
      Covered(init, rs[m].0, k);
      var i :| 0 <= i < |init| && init[i].0 <= k < init[i].1;
      assert rs[i] == init[i];
    }
  }

  /** `[lo, hi)` is a maximal stretch of the sorted residues in which every
      neighbour is within `MaxGap`. */
  predicate MaximalRun(xs: seq<int>, lo: nat, hi: nat) {
    && lo < hi <= |xs|
    && (forall k :: lo < k < hi ==> Close(xs, k))
    && (lo > 0 ==> !Close(xs, lo))
    && (hi < |xs| ==> !Close(xs, hi))
  }

  /** Every run of the scan is maximal ... */
  lemma RunsMaximal(xs: seq<int>, i: nat)
    requires i < |Runs(xs, |xs|)|
    ensures MaximalRun(xs, Runs(xs, |xs|)[i].0, Runs(xs, |xs|)[i].1)
  {
    RunsOk(xs, |xs|);
    TilingMaximal(xs, Runs(xs, |xs|), i);
  }

  lemma TilingMaximal(xs: seq<int>, rs: seq<(nat, nat)>, i: nat)
    requires Tiling(rs, |xs|) && AllRuns(xs, rs) && i < |rs|
    ensures MaximalRun(xs, rs[i].0, rs[i].1)
  {
    assert rs[i] in rs && RunOk(xs, rs[i]);
    if rs[i].1 < |xs| {
      assert i < |rs| - 1 && Adjacent(rs, i);
      assert rs[i + 1] in rs && RunOk(xs, rs[i + 1]);
    }
  }

  /** ... and every maximal stretch is one of the runs. */
  lemma MaximalIsRun(xs: seq<int>, lo: nat, hi: nat)
    requires MaximalRun(xs, lo, hi)
    ensures (lo, hi) in Runs(xs, |xs|)
  {
    RunsOk(xs, |xs|);
    MaximalInTiling(xs, Runs(xs, |xs|), lo, hi);
  }

  lemma MaximalInTiling(xs: seq<int>, rs: seq<(nat, nat)>, lo: nat, hi: nat)
    requires Tiling(rs, |xs|) && AllRuns(xs, rs)
    requires MaximalRun(xs, lo, hi)
    ensures (lo, hi) in rs
  {
    Covered(rs, |xs|, lo);
    var i :| 0 <= i < |rs| && rs[i].0 <= lo < rs[i].1;
    var r := rs[i];
    assert RunOk(xs, r);
    assert r.0 == lo;
    assert i < |rs| - 1 ==> Adjacent(rs, i) && RunOk(xs, rs[i + 1]);
    assert r.1 == hi;
  }

  // ---------------------------------------------------------------------
  // From runs to domains

  /** The runs long enough to report, in order. */
  function BigRuns(rs: seq<(nat, nat)>): (big: seq<(nat, nat)>)
    ensures forall r :: r in big <==> r in rs && r.1 - r.0 >= MinDomainSize
  {
    if |rs| == 0 then []
    else
      var last := rs[|rs| - 1];
      assert rs == rs[..|rs| - 1] + [last];
      var init := BigRuns(rs[..|rs| - 1]);
      if last.1 - last.0 >= MinDomainSize then init + [last] else init
  }

  predicate Ordered(rs: seq<(nat, nat)>) {
    forall i, j :: 0 <= i < j < |rs| ==> rs[i].1 <= rs[j].0
  }

  /** Dropping short runs keeps the rest in order. */
  lemma {:induction false} BigRunsOrdered(rs: seq<(nat, nat)>)
    requires Ordered(rs)
    ensures Ordered(BigRuns(rs))
  {
    if |rs| > 0 {
      var init, last := rs[..|rs| - 1], rs[|rs| - 1];
      assert forall i :: 0 <= i < |init| ==> init[i] == rs[i];
      BigRunsOrdered(init);
      var before := BigRuns(init);
      if last.1 - last.0 >= MinDomainSize {
        forall i | 0 <= i < |before| ensures before[i].1 <= last.0 {
          assert before[i] in before;
          var k := IndexOf(init, before[i]);
          assert rs[k] == init[k];
        }
        OrderedSnoc(before, last);
      }
    }
  }

  lemma OrderedSnoc(rs: seq<(nat, nat)>, r: (nat, nat))
    requires Ordered(rs) && forall i :: 0 <= i < |rs| ==> rs[i].1 <= r.0
    ensures Ordered(rs + [r])
  {
  }

  /** The pair reported for the run `[lo, hi)`: its first and last residue
      number (on the ascending list these are `min(current_domain)` and
      `max(current_domain)`, see `EmitAscending`). */
  function DomainOf(xs: seq<int>, r: (nat, nat)): (int, int)
    requires r.0 < r.1 <= |xs|
  {
    (xs[r.0], xs[r.1 - 1])
  }

  predicate Within(xs: seq<int>, rs: seq<(nat, nat)>) {
    forall r :: r in rs ==> r.0 < r.1 <= |xs|
  }

  function DomainsOf(xs: seq<int>, rs: seq<(nat, nat)>): (ds: seq<(int, int)>)
    requires Within(xs, rs)
    ensures |ds| == |rs|
  {
    seq(|rs|, k requires 0 <= k < |rs| => DomainOf(xs, rs[k]))
  }

  /** Long runs lie inside the residue list. */
  lemma BigRunsWithin(xs: seq<int>, rs: seq<(nat, nat)>)
    requires AllRuns(xs, rs)
    ensures Within(xs, BigRuns(rs))
  {
    forall r | r in BigRuns(rs) ensures r.0 < r.1 <= |xs| {
      var i :| 0 <= i < |rs| && rs[i] == r;
      assert RunOk(xs, rs[i]);
    }
  }

  /** What `find_domains` returns for the sorted residue list `xs`. */
  function SortedDomains(xs: seq<int>): seq<(int, int)> {
    RunsOk(xs, |xs|);
    BigRunsWithin(xs, Runs(xs, |xs|));
    DomainsOf(xs, BigRuns(Runs(xs, |xs|)))
  }

  // ---------------------------------------------------------------------
  // What the reported domains are

  /** Exactly the maximal stretches of at least `MinDomainSize` residues,
      each reported by its first and last residue number. */
  lemma DomainsCharacterised(xs: seq<int>, d: (int, int))
    ensures d in SortedDomains(xs) <==>
            exists lo: nat, hi: nat :: MaximalRun(xs, lo, hi) && hi - lo >= MinDomainSize && d == (xs[lo], xs[hi - 1])
  {
    var rs := Runs(xs, |xs|);
    RunsOk(xs, |xs|);
    BigRunsWithin(xs, rs);
    if d in SortedDomains(xs) {
      ReportedSound(xs, rs, d);
    }
    if exists lo: nat, hi: nat :: MaximalRun(xs, lo, hi) && hi - lo >= MinDomainSize && d == (xs[lo], xs[hi - 1]) {
      var lo: nat, hi: nat :| MaximalRun(xs, lo, hi) && hi - lo >= MinDomainSize && d == (xs[lo], xs[hi - 1]);
      ReportedComplete(xs, rs, lo, hi);
    }
  }

  lemma IndexOf<T>(s: seq<T>, x: T) returns (k: nat)
    requires x in s
    ensures k < |s| && s[k] == x
  {
    k :| 0 <= k < |s| && s[k] == x;
  }

  lemma ReportedSound(xs: seq<int>, rs: seq<(nat, nat)>, d: (int, int))
    requires Tiling(rs, |xs|) && AllRuns(xs, rs) && Within(xs, BigRuns(rs))
    requires d in DomainsOf(xs, BigRuns(rs))
    ensures exists lo: nat, hi: nat :: MaximalRun(xs, lo, hi) && hi - lo >= MinDomainSize && d == (xs[lo], xs[hi - 1])
  {
    var big := BigRuns(rs);
    var ds := DomainsOf(xs, big);
    var k := IndexOf(ds, d);
    BigRunMaximal(xs, rs, k);
    var r := big[k];
    assert d == DomainOf(xs, r);
    assert MaximalRun(xs, r.0, r.1) && r.1 - r.0 >= MinDomainSize && d == (xs[r.0], xs[r.1 - 1]);
  }

  lemma ReportedComplete(xs: seq<int>, rs: seq<(nat, nat)>, lo: nat, hi: nat)
    requires Tiling(rs, |xs|) && AllRuns(xs, rs) && Within(xs, BigRuns(rs))
    requires MaximalRun(xs, lo, hi) && hi - lo >= MinDomainSize
    ensures (xs[lo], xs[hi - 1]) in DomainsOf(xs, BigRuns(rs))
  {
    var k := BigRunIndex(xs, rs, lo, hi);
    assert DomainsOf(xs, BigRuns(rs))[k] == (xs[lo], xs[hi - 1]);
  }

  /** Every long run is a maximal stretch ... */
  lemma BigRunMaximal(xs: seq<int>, rs: seq<(nat, nat)>, k: nat)
    requires Tiling(rs, |xs|) && AllRuns(xs, rs) && k < |BigRuns(rs)|
    ensures MaximalRun(xs, BigRuns(rs)[k].0, BigRuns(rs)[k].1)
    ensures BigRuns(rs)[k].1 - BigRuns(rs)[k].0 >= MinDomainSize
  {
    var r := BigRuns(rs)[k];
    assert r in BigRuns(rs);
    var i :| 0 <= i < |rs| && rs[i] == r;
    TilingMaximal(xs, rs, i);
  }

  /** ... and every long maximal stretch is a long run. */
  lemma BigRunIndex(xs: seq<int>, rs: seq<(nat, nat)>, lo: nat, hi: nat) returns (k: nat)
    requires Tiling(rs, |xs|) && AllRuns(xs, rs)
    requires MaximalRun(xs, lo, hi) && hi - lo >= MinDomainSize
    ensures k < |BigRuns(rs)| && BigRuns(rs)[k] == (lo, hi)
  {
    MaximalInTiling(xs, rs, lo, hi);
    assert (lo, hi) in BigRuns(rs);
    k :| 0 <= k < |BigRuns(rs)| && BigRuns(rs)[k] == (lo, hi);
  }

  /** Each `(start, end)` has `start <= end`, and more than `MaxGap`
      separates one domain's end from the next one's start, so the domains
      are in ascending order and never overlap. */
  predicate Separated(ds: seq<(int, int)>) {
    && (forall i :: 0 <= i < |ds| ==> ds[i].0 <= ds[i].1)
    && (forall i, j :: 0 <= i < j < |ds| ==> ds[i].1 + MaxGap < ds[j].0)
  }

  /** Domains found on an ascending residue list are separated. */
  lemma DomainsOrdered(xs: seq<int>)
    requires StrictlyIncreasing(xs)
    ensures Separated(SortedDomains(xs))
  {
    var rs := Runs(xs, |xs|);
    RunsOk(xs, |xs|);
    BigRunsWithin(xs, rs);
    ReportedOrdered(xs, rs);
  }

  lemma ReportedOrdered(xs: seq<int>, rs: seq<(nat, nat)>)
    requires StrictlyIncreasing(xs) && Tiling(rs, |xs|) && AllRuns(xs, rs) && Within(xs, BigRuns(rs))
    ensures Separated(DomainsOf(xs, BigRuns(rs)))
  {
    var big := BigRuns(rs);
    var ds := DomainsOf(xs, big);
    BigRunsOrdered(rs);
    forall i | 0 <= i < |ds| ensures ds[i].0 <= ds[i].1 {
      assert big[i] in big;
      AscendingEnds(xs, big[i].0, big[i].1 - 1);
    }
    forall i, j | 0 <= i < j < |ds| ensures ds[i].1 + MaxGap < ds[j].0 {
      assert big[i] in big && big[j] in big;
      RunOkMember(xs, rs, big[j]);
      RunsApart(xs, big[i], big[j]);
    }
  }

  /** A run that starts after the end of another is more than `MaxGap` above it. */
  lemma RunsApart(xs: seq<int>, p: (nat, nat), q: (nat, nat))
    requires StrictlyIncreasing(xs) && p.0 < p.1 <= q.0 && RunOk(xs, q)
    ensures DomainOf(xs, p).1 + MaxGap < DomainOf(xs, q).0
  {
    assert !Close(xs, q.0);
    AscendingEnds(xs, p.1 - 1, q.0 - 1);
  }

  lemma RunOkMember(xs: seq<int>, rs: seq<(nat, nat)>, r: (nat, nat))
    requires AllRuns(xs, rs) && r in rs
    ensures RunOk(xs, r)
  {
  }

  lemma AscendingEnds(xs: seq<int>, i: nat, j: nat)
    requires StrictlyIncreasing(xs) && i <= j < |xs|
    ensures xs[i] <= xs[j]
  {
  }

  /** With fewer than `MinDomainSize` residues there is nothing to report;
      in particular an empty list gives no domains. */
  lemma FewResidues(xs: seq<int>)
    requires |xs| < MinDomainSize
    ensures SortedDomains(xs) == []
  {
    var rs := Runs(xs, |xs|);
    RunsOk(xs, |xs|);
    forall i | 0 <= i < |rs| ensures rs[i].1 - rs[i].0 < MinDomainSize {
      assert RunOk(xs, rs[i]);
    }
    BigRunsNone(rs);
  }

  lemma {:induction false} BigRunsNone(rs: seq<(nat, nat)>)
    requires forall i :: 0 <= i < |rs| ==> rs[i].1 - rs[i].0 < MinDomainSize
    ensures BigRuns(rs) == []
  {
    if |rs| > 0 {
      BigRunsNone(rs[..|rs| - 1]);
    }
  }

  // ---------------------------------------------------------------------
  // Domains as clusters of the residue set

  /** Strictly ascending integers spread at least one apart per step. */
  lemma {:induction false} Spread(xs: seq<int>, i: nat, j: nat)
    requires StrictlyIncreasing(xs) && i <= j < |xs|
    ensures xs[j] - xs[i] >= j - i
    decreases j - i
  {
    if i < j {
      Spread(xs, i + 1, j);
    }
  }

  /** Inside a maximal stretch, every residue but the last has a successor
      within `MaxGap`. */
  lemma ClusterInterior(xs: seq<int>, lo: nat, hi: nat, n: int) returns (m: int)
    requires StrictlyIncreasing(xs) && MaximalRun(xs, lo, hi)
    requires n in xs && xs[lo] <= n < xs[hi - 1]
    ensures m in xs && n < m <= n + MaxGap
  {
    var k :| 0 <= k < |xs| && xs[k] == n;
    assert lo <= k < hi - 1;
    assert Close(xs, k + 1);
    m := xs[k + 1];
  }

  /** Nothing in the list lies within `MaxGap` before a maximal stretch ... */
  lemma ClusterIsolatedBelow(xs: seq<int>, lo: nat, hi: nat, m: int)
    requires StrictlyIncreasing(xs) && MaximalRun(xs, lo, hi) && m in xs
    ensures !(xs[lo] - MaxGap <= m < xs[lo])
  {
    var k :| 0 <= k < |xs| && xs[k] == m;
    if k < lo {
      assert !Close(xs, lo);
      AscendingEnds(xs, k, lo - 1);
    } else {
      AscendingEnds(xs, lo, k);
    }
  }

  /** ... or after it. */
  lemma ClusterIsolatedAbove(xs: seq<int>, lo: nat, hi: nat, m: int)
    requires StrictlyIncreasing(xs) && MaximalRun(xs, lo, hi) && m in xs
    ensures !(xs[hi - 1] < m <= xs[hi - 1] + MaxGap)
  {
    var k :| 0 <= k < |xs| && xs[k] == m;
    if k >= hi {
      assert !Close(xs, hi);
      AscendingEnds(xs, hi, k);
    } else {
      AscendingEnds(xs, k, hi - 1);
    }
  }

  /** The maximal stretch behind a reported domain. */
  lemma DomainRun(xs: seq<int>, d: (int, int)) returns (lo: nat, hi: nat)
    requires d in SortedDomains(xs)
    ensures MaximalRun(xs, lo, hi) && hi - lo >= MinDomainSize
    ensures d == (xs[lo], xs[hi - 1])
  {
    DomainsCharacterised(xs, d);
    lo, hi :| MaximalRun(xs, lo, hi) && hi - lo >= MinDomainSize && d == (xs[lo], xs[hi - 1]);
  }

  /** A domain found on an ascending residue list starts and ends at
      residues of the list, and spans at least `MinDomainSize` numbers. */
  lemma DomainEnds(xs: seq<int>, d: (int, int))
    requires StrictlyIncreasing(xs) && d in SortedDomains(xs)
    ensures d.0 in xs && d.1 in xs && d.1 - d.0 >= MinDomainSize - 1
  {
    var lo, hi := DomainRun(xs, d);
    Spread(xs, lo, hi - 1);
  }

  /** Within a domain, every residue but the last has a successor in the
      list at most `MaxGap` above it. */
  lemma DomainGaps(xs: seq<int>, d: (int, int), n: int)
    requires StrictlyIncreasing(xs) && d in SortedDomains(xs)
    requires n in xs && d.0 <= n < d.1
    ensures exists m :: m in xs && n < m <= n + MaxGap
  {
    var lo, hi := DomainRun(xs, d);
    var m := ClusterInterior(xs, lo, hi, n);
  }

  /** A domain cannot be extended: no residue of the list lies within
      `MaxGap` below its start or above its end. */
  lemma DomainIsolated(xs: seq<int>, d: (int, int), m: int)
    requires StrictlyIncreasing(xs) && d in SortedDomains(xs) && m in xs
    ensures !(d.0 - MaxGap <= m < d.0) && !(d.1 < m <= d.1 + MaxGap)
  {
    var lo, hi := DomainRun(xs, d);
    ClusterIsolatedBelow(xs, lo, hi, m);
    ClusterIsolatedAbove(xs, lo, hi, m);
  }

  // ---------------------------------------------------------------------
  // The scan, one residue at a time

  /** What closing the open run `current` adds to the report. */
  function Emit(current: seq<int>): seq<(int, int)> {
    if |current| >= MinDomainSize then [(Min(current), Max(current))] else []
  }

  /** The state of the scan after `i` residues: `current` is the open run and
      `domains` holds what the closed runs reported. */
  ghost predicate Scanned(xs: seq<int>, i: nat, current: seq<int>, domains: seq<(int, int)>) {
    && 1 <= i <= |xs|
    && var rs := Runs(xs, i);
    && current == xs[rs[|rs| - 1].0..i]
    && Within(xs, BigRuns(rs[..|rs| - 1]))
    && domains == DomainsOf(xs, BigRuns(rs[..|rs| - 1]))
  }

  lemma SliceIncreasing(xs: seq<int>, lo: nat, hi: nat)
    requires StrictlyIncreasing(xs) && lo <= hi <= |xs|
    ensures StrictlyIncreasing(xs[lo..hi])
  {
    var s := xs[lo..hi];
    forall i, j | 0 <= i < j < |s| ensures s[i] < s[j] {
      assert s[i] == xs[lo + i] && s[j] == xs[lo + j];
    }
  }

  lemma DomainsOfSnoc(xs: seq<int>, rs: seq<(nat, nat)>, r: (nat, nat))
    requires Within(xs, rs) && r.0 < r.1 <= |xs|
    ensures Within(xs, rs + [r]) && DomainsOf(xs, rs + [r]) == DomainsOf(xs, rs) + [DomainOf(xs, r)]
  {
    forall q | q in rs + [r] ensures q.0 < q.1 <= |xs| {
      assert q in rs || q == r;
    }
  }

  /** A long ascending run reports its first and last residue. */
  lemma EmitRun(xs: seq<int>, r: (nat, nat), current: seq<int>)
    requires r.0 < r.1 <= |xs| && r.1 - r.0 >= MinDomainSize
    requires current == xs[r.0..r.1] && StrictlyIncreasing(current)
    ensures Emit(current) == [DomainOf(xs, r)]
  {
    EmitAscending(current);
    assert current[0] == xs[r.0] && current[|current| - 1] == xs[r.1 - 1];
  }

  lemma EmitAscending(current: seq<int>)
    requires |current| >= MinDomainSize && StrictlyIncreasing(current)
    ensures Emit(current) == [(current[0], current[|current| - 1])]
  {
    MinMaxSorted(current);
  }

  /** Closing the run `last` adds what `find_domains` appends for it: on an
      ascending run `(min, max)` is its first and last residue. */
  lemma EmitLast(xs: seq<int>, init: seq<(nat, nat)>, last: (nat, nat), current: seq<int>, domains: seq<(int, int)>)
    requires last.0 < last.1 <= |xs|
    requires current == xs[last.0..last.1] && StrictlyIncreasing(current)
    requires Within(xs, BigRuns(init)) && domains == DomainsOf(xs, BigRuns(init))
    ensures Within(xs, BigRuns(init + [last]))
    ensures domains + Emit(current) == DomainsOf(xs, BigRuns(init + [last]))
  {
    var rs := init + [last];
    assert rs[..|rs| - 1] == init;
    var big := BigRuns(init);
    if last.1 - last.0 >= MinDomainSize {
      assert BigRuns(rs) == big + [last];
      EmitRun(xs, last, current);
      DomainsOfSnoc(xs, big, last);
    } else {
      assert BigRuns(rs) == big;
      assert domains + [] == domains;
    }
  }

  lemma ScanStart(xs: seq<int>)
    requires |xs| > 0
    ensures Scanned(xs, 1, [xs[0]], [])
  {
    assert Runs(xs, 1) == [(0, 1)];
  }

  /** A residue close to its predecessor joins the open run. */
  lemma ScanExtend(xs: seq<int>, i: nat, current: seq<int>, domains: seq<(int, int)>)
    requires Scanned(xs, i, current, domains) && i < |xs| && Close(xs, i)
    ensures Scanned(xs, i + 1, current + [xs[i]], domains)
  {
    var rs := Runs(xs, i);
    var lo := rs[|rs| - 1].0;
    var rs' := Runs(xs, i + 1);
    assert rs' == rs[..|rs| - 1] + [(lo, i + 1)];
    assert rs'[..|rs'| - 1] == rs[..|rs| - 1];
    assert xs[lo..i + 1] == xs[lo..i] + [xs[i]];
  }

  /** A residue far from its predecessor closes the open run, which is
      reported when it is long enough, and opens a new one. */
  lemma ScanBreak(xs: seq<int>, i: nat, current: seq<int>, domains: seq<(int, int)>)
    requires StrictlyIncreasing(xs)
    requires Scanned(xs, i, current, domains) && i < |xs| && !Close(xs, i)
    ensures Scanned(xs, i + 1, [xs[i]], domains + Emit(current))
  {
    var rs := Runs(xs, i);
    var last := rs[|rs| - 1];
    var rs' := Runs(xs, i + 1);
    assert rs' == rs + [(i, i + 1)];
    assert rs'[..|rs'| - 1] == rs;
    assert rs == rs[..|rs| - 1] + [last];
    SliceIncreasing(xs, last.0, i);
    EmitLast(xs, rs[..|rs| - 1], last, current, domains);
  }

  /** After the last residue, closing the open run completes the report. */
  lemma ScanFinish(xs: seq<int>, current: seq<int>, domains: seq<(int, int)>)
    requires StrictlyIncreasing(xs)
    requires Scanned(xs, |xs|, current, domains)
    ensures domains + Emit(current) == SortedDomains(xs)
  {
    var rs := Runs(xs, |xs|);
    var last := rs[|rs| - 1];
    assert rs == rs[..|rs| - 1] + [last];
    SliceIncreasing(xs, last.0, |xs|);
    EmitLast(xs, rs[..|rs| - 1], last, current, domains);
  }
}
