/** The chained CPU-jump comparator that both scripts share: every report is
    compared with the report just before it, reading by reading, and each
    reading that rose by 40 percent or more is recorded as a finding. */
module Comparator {
  import opened Wrappers
  import opened FilterMaps

  /** Identifier of a report file, as found by the directory walk. */
  type Path = string

  /** The number parser (Python's `float`), abstracted as a partial function:
      `None` stands for the `ValueError` it raises. */
  type NumberParser = string -> Option<real>

  /** One report: the file it came from and its CPU readings in document order. */
  datatype Report = Report(path: Path, readings: seq<real>)

  /** One detected jump: the earlier reading, the later reading, and the file
      of the later reading. */
  datatype Finding = Finding(prev: real, curr: real, path: Path)

  /** The jump (in percent) at or above which a finding is recorded. */
  const ThresholdPercent: real := 40.0

  /** The decision rule: the previous reading is positive (so the division is
      defined) and the relative increase is at least the threshold. */
  predicate Significant(prev: real, curr: real)
    ensures Significant(prev, curr) ==> prev > 0.0 && curr > prev
  {
    prev > 0.0 && (curr - prev) / prev * 100.0 >= ThresholdPercent
  }

  /** The rule without division: a positive reading that grows to at least
      1.4 times its value. */
  lemma SignificantIff(prev: real, curr: real)
    ensures Significant(prev, curr) <==> prev > 0.0 && 10.0 * curr >= 14.0 * prev
  {
    if prev > 0.0 {
      var q := (curr - prev) / prev;
      assert q * prev == curr - prev;
      if q * 100.0 >= 40.0 {
        assert (q - 0.4) * prev >= 0.0;
      } else {
        assert (0.4 - q) * prev > 0.0;
      }
    }
  }

  /** Python's `zip`: pairs the two lists position by position and stops at
      the end of the shorter one. */
  function Zip(prev: seq<real>, curr: seq<real>): (pairs: seq<(real, real)>)
    ensures |pairs| == (if |prev| <= |curr| then |prev| else |curr|)
    ensures forall i :: 0 <= i < |pairs| ==> pairs[i] == (prev[i], curr[i])
  {
    if |prev| == 0 || |curr| == 0 then []
    else [(prev[0], curr[0])] + Zip(prev[1..], curr[1..])
  }

  /** What one aligned pair of readings contributes to the findings of `path`. */
  function Flag(path: Path): ((real, real)) -> Option<Finding>
  {
    (pair: (real, real)) => if Significant(pair.0, pair.1) then Some(Finding(pair.0, pair.1, path)) else None
  }

  /** The findings of one file against its predecessor, in position order. */
  function PairFindings(prev: seq<real>, curr: seq<real>, path: Path): seq<Finding>
  {
    FilterMap(Zip(prev, curr), Flag(path))
  }

  /** The positions of the aligned pairs that yield a finding. */
  ghost function PairPositions(prev: seq<real>, curr: seq<real>, path: Path): seq<nat>
  {
    Kept(Zip(prev, curr), Flag(path))
  }

  /** Comparing two lists yields one finding per aligned significant pair, at
      most one per position below the shorter length, in position order, each
      carrying the path of the later file; every other position yields none. */
  lemma PairFindingsSpec(prev: seq<real>, curr: seq<real>, path: Path)
    ensures |PairFindings(prev, curr, path)| == |PairPositions(prev, curr, path)|
    ensures |PairFindings(prev, curr, path)| <= |prev| && |PairFindings(prev, curr, path)| <= |curr|
    ensures forall m :: 0 <= m < |PairPositions(prev, curr, path)| ==>
              var i := PairPositions(prev, curr, path)[m];
              i < |prev| && i < |curr| && Significant(prev[i], curr[i]) &&
              PairFindings(prev, curr, path)[m] == Finding(prev[i], curr[i], path)
    ensures forall m, m' :: 0 <= m < m' < |PairPositions(prev, curr, path)| ==>
              PairPositions(prev, curr, path)[m] < PairPositions(prev, curr, path)[m']
    ensures forall i :: 0 <= i < |prev| && i < |curr| ==>
              (Significant(prev[i], curr[i]) <==> i in PairPositions(prev, curr, path))
  {
    var pairs := Zip(prev, curr);
    FilterMapKept(pairs, Flag(path));
    forall i | 0 <= i < |prev| && i < |curr|
      ensures Significant(prev[i], curr[i]) <==> i in PairPositions(prev, curr, path)
    {
      assert pairs[i] == (prev[i], curr[i]);
    }
  }

  /** The findings of a whole run: each report after the first is compared
      with the report immediately before it, in file order. */
  function Chain(rs: seq<Report>): seq<Finding>
  {
    if |rs| < 2 then []
    else Chain(rs[..|rs| - 1]) + PairFindings(rs[|rs| - 2].readings, rs[|rs| - 1].readings, rs[|rs| - 1].path)
  }

  /** Position `i` of report `k` is compared (report `k` has a predecessor and
      both have a reading there) and the jump is significant. */
  predicate Candidate(rs: seq<Report>, k: nat, i: nat)
  {
    1 <= k < |rs| && i < |rs[k - 1].readings| && i < |rs[k].readings| &&
    Significant(rs[k - 1].readings[i], rs[k].readings[i])
  }

  /** The finding that position `i` of report `k` would produce. */
  function FindingAt(rs: seq<Report>, k: nat, i: nat): Finding
    requires 1 <= k < |rs| && i < |rs[k - 1].readings| && i < |rs[k].readings|
  {
    Finding(rs[k - 1].readings[i], rs[k].readings[i], rs[k].path)
  }

  /** Lexicographic order on (file index, position). */
  predicate Before(a: (nat, nat), b: (nat, nat))
  {
    a.0 < b.0 || (a.0 == b.0 && a.1 < b.1)
  }

  /** Labels each position of `ps` with the file index `k`. */
  function InFile(k: nat, ps: seq<nat>): (r: seq<(nat, nat)>)
    ensures |r| == |ps|
    ensures forall m :: 0 <= m < |ps| ==> r[m] == (k, ps[m])
  {
    seq(|ps|, m requires 0 <= m < |ps| => (k, ps[m]))
  }

  /** Where each finding of the run comes from: (file index, position). */
  ghost function Origins(rs: seq<Report>): seq<(nat, nat)>
  {
    if |rs| < 2 then []
    else Origins(rs[..|rs| - 1]) +
         InFile(|rs| - 1, PairPositions(rs[|rs| - 2].readings, rs[|rs| - 1].readings, rs[|rs| - 1].path))
  }

  /** Dropping the last report changes nothing about the earlier ones. */
  lemma PrefixAgrees(rs: seq<Report>, k: nat, i: nat)
    requires 1 <= k < |rs| - 1
    ensures Candidate(rs[..|rs| - 1], k, i) == Candidate(rs, k, i)
    ensures Candidate(rs, k, i) ==> FindingAt(rs[..|rs| - 1], k, i) == FindingAt(rs, k, i)
  {
    var init := rs[..|rs| - 1];
    assert init[k] == rs[k] && init[k - 1] == rs[k - 1];
  }

  /** One finding per origin. */
  lemma {:induction false} ChainLength(rs: seq<Report>)
    ensures |Chain(rs)| == |Origins(rs)|
  {
    if |rs| >= 2 {
      var n := |rs| - 1;
      ChainLength(rs[..n]);
      PairFindingsSpec(rs[n - 1].readings, rs[n].readings, rs[n].path);
    }
  }

  /** The finding at index `j` of one comparison comes from a significant
      aligned position. One clause of `PairFindingsSpec`, on its own so that
      the chain proofs see only the facts they use and stay cheap. */
  lemma PairFindingAt(prev: seq<real>, curr: seq<real>, path: Path, j: nat)
    requires j < |PairPositions(prev, curr, path)|
    ensures |PairFindings(prev, curr, path)| == |PairPositions(prev, curr, path)|
    ensures var i := PairPositions(prev, curr, path)[j];
            i < |prev| && i < |curr| && Significant(prev[i], curr[i]) &&
            PairFindings(prev, curr, path)[j] == Finding(prev[i], curr[i], path)
  {
    PairFindingsSpec(prev, curr, path);
  }

  /** Every finding is a significant aligned pair of a report and its
      predecessor, and carries the later report's path. The first clause
      repeats `ChainLength` so that callers need only this lemma. */
  lemma {:induction false} ChainSound(rs: seq<Report>)
    ensures |Chain(rs)| == |Origins(rs)|
    ensures forall m :: 0 <= m < |Origins(rs)| ==>
              Candidate(rs, Origins(rs)[m].0, Origins(rs)[m].1) &&
              Chain(rs)[m] == FindingAt(rs, Origins(rs)[m].0, Origins(rs)[m].1)
  {
    ChainLength(rs);
    if |rs| >= 2 {
      var n := |rs| - 1;
      var init := rs[..n];
      var prev, curr, path := rs[n - 1].readings, rs[n].readings, rs[n].path;
      var os0, out0 := Origins(init), Chain(init);
      var ps, added := PairPositions(prev, curr, path), PairFindings(prev, curr, path);
      var os, out := Origins(rs), Chain(rs);
      assert os == os0 + InFile(n, ps);
      assert out == out0 + added;
      ChainLength(init);
      forall m | 0 <= m < |os|
        ensures Candidate(rs, os[m].0, os[m].1) && out[m] == FindingAt(rs, os[m].0, os[m].1)
      {
        if m < |os0| {
          ChainSound(init);
          assert os[m] == os0[m] && out[m] == out0[m];
          assert Candidate(init, os0[m].0, os0[m].1);
          PrefixAgrees(rs, os0[m].0, os0[m].1);
        } else {
          var j := m - |os0|;
          PairFindingAt(prev, curr, path, j);
          assert os[m] == (n, ps[j]) && out[m] == added[j];
        }
      }
    }
  }

  /** The positions that yield findings strictly increase. One clause of
      `PairFindingsSpec`, on its own to keep the proof of `ChainOrdered` cheap. */
  lemma PairPositionsIncreasing(prev: seq<real>, curr: seq<real>, path: Path)
    ensures forall m, m' :: 0 <= m < m' < |PairPositions(prev, curr, path)| ==>
              PairPositions(prev, curr, path)[m] < PairPositions(prev, curr, path)[m']
  {
    PairFindingsSpec(prev, curr, path);
  }

  /** Findings are ordered by file, then by position within the file. */
  lemma {:induction false} ChainOrdered(rs: seq<Report>)
    ensures forall m :: 0 <= m < |Origins(rs)| ==> 1 <= Origins(rs)[m].0 < |rs|
    ensures forall m, m' :: 0 <= m < m' < |Origins(rs)| ==> Before(Origins(rs)[m], Origins(rs)[m'])
  {
    if |rs| >= 2 {
      var n := |rs| - 1;
      var init := rs[..n];
      ChainOrdered(init);
      var prev, curr, path := rs[n - 1].readings, rs[n].readings, rs[n].path;
      PairPositionsIncreasing(prev, curr, path);
      var os0, ps := Origins(init), PairPositions(prev, curr, path);
      var os := Origins(rs);
      assert os == os0 + InFile(n, ps);
      forall m | 0 <= m < |os|
        ensures 1 <= os[m].0 < |rs|
      {
        if m < |os0| {
          assert os[m] == os0[m];
        }
      }
      forall m, m' | 0 <= m < m' < |os|
        ensures Before(os[m], os[m'])
      {
        if m' < |os0| {
          assert os[m] == os0[m] && os[m'] == os0[m'];
        } else if m < |os0| {
          assert os[m] == os0[m];
        } else {
          assert os[m] == (n, ps[m - |os0|]) && os[m'] == (n, ps[m' - |os0|]);
        }
      }
    }
  }

  /** Every significant aligned position is among the positions that yield
      findings. One clause of `PairFindingsSpec`, on its own to keep the proof
      of `ChainComplete` cheap. */
  lemma PairPositionsComplete(prev: seq<real>, curr: seq<real>, path: Path, i: nat)
    requires i < |prev| && i < |curr| && Significant(prev[i], curr[i])
    ensures i in PairPositions(prev, curr, path)
  {
    PairFindingsSpec(prev, curr, path);
  }

  /** Labelling keeps membership. */
  lemma InFileContains(k: nat, ps: seq<nat>, i: nat)
    requires i in ps
    ensures (k, i) in InFile(k, ps)
  {
    var j :| 0 <= j < |ps| && ps[j] == i;
    assert InFile(k, ps)[j] == (k, i);
  }

  /** Every significant aligned pair of consecutive reports yields a finding;
      in particular a jump of exactly 40 percent counts. */
  lemma {:induction false} ChainComplete(rs: seq<Report>)
    ensures forall k: nat, i: nat :: Candidate(rs, k, i) ==> (k, i) in Origins(rs)
  {
    if |rs| >= 2 {
      var n := |rs| - 1;
      var init := rs[..n];
      ChainComplete(init);
      var prev, curr, path := rs[n - 1].readings, rs[n].readings, rs[n].path;
      var os0, ps := Origins(init), PairPositions(prev, curr, path);
      assert Origins(rs) == os0 + InFile(n, ps);
      forall k: nat, i: nat | Candidate(rs, k, i)
        ensures (k, i) in os0 + InFile(n, ps)
      {
        if k < n {
          PrefixAgrees(rs, k, i);
          assert (k, i) in os0;
        } else {
          PairPositionsComplete(prev, curr, path, i);
          InFileContains(n, ps, i);
        }
      }
    }
  }

  /** A value is a finding of the run exactly when it is the finding of some
      significant aligned pair of consecutive reports. */
  lemma ChainMembership(rs: seq<Report>, f: Finding)
    ensures f in Chain(rs) <==> exists k: nat, i: nat :: Candidate(rs, k, i) && f == FindingAt(rs, k, i)
  {
    ChainSound(rs);
    ChainComplete(rs);
    if f in Chain(rs) {
      var m :| 0 <= m < |Chain(rs)| && Chain(rs)[m] == f;
      assert Candidate(rs, Origins(rs)[m].0, Origins(rs)[m].1);
    }
    if exists k: nat, i: nat :: Candidate(rs, k, i) && f == FindingAt(rs, k, i) {
      var k: nat, i: nat :| Candidate(rs, k, i) && f == FindingAt(rs, k, i);
      var m :| 0 <= m < |Origins(rs)| && Origins(rs)[m] == (k, i);
      assert Chain(rs)[m] == f;
    }
  }

  /** A previous reading that is zero or negative never produces a finding,
      whatever the current reading; every finding is a rise to at least 1.4
      times the earlier reading. */
  lemma FindingsArePositiveJumps(rs: seq<Report>)
    ensures forall f :: f in Chain(rs) ==> f.prev > 0.0 && 10.0 * f.curr >= 14.0 * f.prev
  {
    forall f | f in Chain(rs)
      ensures f.prev > 0.0 && 10.0 * f.curr >= 14.0 * f.prev
    {
      ChainMembership(rs, f);
      var k: nat, i: nat :| Candidate(rs, k, i) && f == FindingAt(rs, k, i);
      SignificantIff(f.prev, f.curr);
    }
  }

  /** Appending a report adds exactly its comparison with the report that was
      last: each report is compared only with its immediate predecessor, the
      first report of a run adds nothing, and neither does a report whose
      predecessor has no readings. */
  lemma ChainExtend(rs: seq<Report>, r: Report)
    ensures Chain(rs + [r]) ==
              Chain(rs) + (if |rs| == 0 || rs[|rs| - 1].readings == [] then []
                           else PairFindings(rs[|rs| - 1].readings, r.readings, r.path))
  {
    assert (rs + [r])[..|rs|] == rs;
    if |rs| > 0 && rs[|rs| - 1].readings == [] {
      assert Zip(rs[|rs| - 1].readings, r.readings) == [];
    }
  }

  /** `ChainExtend` for the prefixes of one run. */
  lemma ChainStep(rs: seq<Report>, k: nat)
    requires k < |rs|
    ensures Chain(rs[..k + 1]) ==
              Chain(rs[..k]) + (if k == 0 || rs[k - 1].readings == [] then []
                                else PairFindings(rs[k - 1].readings, rs[k].readings, rs[k].path))
  {
    ChainExtend(rs[..k], rs[k]);
    assert rs[..k + 1] == rs[..k] + [rs[k]];
  }

  /** A report with no readings cannot be a predecessor: the report after it
      produces no findings, as if the run began there. */
  lemma {:induction false} ChainDropEmptyHead(rs: seq<Report>)
    requires |rs| >= 1 && rs[0].readings == []
    ensures Chain(rs) == Chain(rs[1..])
  {
    var n := |rs|;
    if n == 2 {
      assert Zip(rs[0].readings, rs[1].readings) == [];
    } else if n > 2 {
      var init := rs[..n - 1];
      ChainDropEmptyHead(init);
      var tail := rs[1..];
      assert tail[..|tail| - 1] == init[1..];
      assert tail[|tail| - 2] == rs[n - 2] && tail[|tail| - 1] == rs[n - 1];
    }
  }

  /** When report `k - 1` has no readings, report `k` yields no finding. */
  lemma NothingAfterEmpty(rs: seq<Report>, k: nat)
    requires 1 <= k < |rs| && rs[k - 1].readings == []
    ensures forall m :: 0 <= m < |Origins(rs)| ==> Origins(rs)[m].0 != k
  {
    ChainSound(rs);
  }

  /** The number of aligned positions of consecutive reports. */
  function AlignedPairs(rs: seq<Report>): nat
  {
    if |rs| < 2 then 0
    else AlignedPairs(rs[..|rs| - 1]) + |Zip(rs[|rs| - 2].readings, rs[|rs| - 1].readings)|
  }

  /** At most one finding per aligned position: unmatched tail readings never
      produce findings. */
  lemma {:induction false} ChainBound(rs: seq<Report>)
    ensures |Chain(rs)| <= AlignedPairs(rs)
  {
    if |rs| >= 2 {
      var n := |rs| - 1;
      ChainBound(rs[..n]);
      FilterMapKept(Zip(rs[n - 1].readings, rs[n].readings), Flag(rs[n].path));
    }
  }

  /** A rise of exactly 40 percent counts: against [10, 50], the report
      [14, 45] rises by exactly 40 percent at position 0 and falls at
      position 1. */
  lemma ExactlyFortyPercentCounts(path: Path)
    ensures PairFindings([10.0, 50.0], [14.0, 45.0], path) == [Finding(10.0, 14.0, path)]
  {
    var pairs := Zip([10.0, 50.0], [14.0, 45.0]);
    assert pairs == [(10.0, 14.0), (50.0, 45.0)];
    assert pairs[..1] == [(10.0, 14.0)];
    assert pairs[..1][..0] == [];
    assert Flag(path)((10.0, 14.0)) == Some(Finding(10.0, 14.0, path));
    assert Flag(path)((50.0, 45.0)) == None;
    assert FilterMap(pairs[..1], Flag(path)) == [Finding(10.0, 14.0, path)];
  }

  /** The inner loop of `compare_reports`: walks the zipped readings of the
      previous and current report and collects the significant jumps. */
  method ComparePair(prev: seq<real>, curr: seq<real>, path: Path) returns (found: seq<Finding>)
    ensures found == PairFindings(prev, curr, path)
  {
    var pairs := Zip(prev, curr);
    found := [];
    var i := 0;
    while i < |pairs|
      invariant 0 <= i <= |pairs|
      invariant found == FilterMap(pairs[..i], Flag(path))
    {
      var (p, c) := pairs[i];
      if p > 0.0 && (c - p) / p * 100.0 >= ThresholdPercent {
        found := found + [Finding(p, c, path)];
      }
      assert pairs[..i + 1][..i] == pairs[..i];
      i := i + 1;
    }
    assert pairs[..i] == pairs;
  }
}
