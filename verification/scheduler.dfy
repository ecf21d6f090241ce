/**
  One iteration of `distributeWorkIndex` in interListener.go: the work list is
  refreshed from the live list and sorted, a ceiling is derived from the
  largest count of a connected worker, and every connected worker below the
  ceiling has its OuterIP pushed into the channel once per missing client.
  The channel pushes are returned as a sequence.
 */
module Scheduler {
  import opened Common
  import opened Registry

  /** The ceiling used when no connected worker reports any client, and the escalation step. */
  const Step := 10

  /** `var index int = 0`: the first cycle never escalates. */
  const InitialIndex := 0

  /** A worker receives pushes in a cycle with ceiling `ceiling`. */
  predicate Eligible(x: ConnectionInfo, ceiling: int)
  {
    x.connected && (x.count as int) < ceiling
  }

  /** The largest Count among connected records, 0 when there is none. */
  ghost function MaxConnected(s: seq<ConnectionInfo>): (r: int)
    ensures r >= 0
    ensures forall i :: 0 <= i < |s| && s[i].connected ==> s[i].count as int <= r
    ensures r == 0 || exists i :: 0 <= i < |s| && s[i].connected && s[i].count as int == r
  {
    if |s| == 0 then 0
    else
      var m := MaxConnected(s[..|s| - 1]);
      var x := s[|s| - 1];
      if x.connected && x.count as int > m then x.count as int else m
  }

  /** The ceiling of a cycle: the largest connected Count (or `Step` if that is 0), plus `Step` after a cycle that pushed nothing. */
  ghost function Ceiling(s: seq<ConnectionInfo>, prevIndex: int): int
  {
    (if MaxConnected(s) == 0 then Step else MaxConnected(s)) + (if prevIndex == -1 then Step else 0)
  }

  function Repeat(x: string, k: nat): (r: seq<string>)
    ensures |r| == k
    ensures forall i :: 0 <= i < k ==> r[i] == x
  {
    if k == 0 then [] else Repeat(x, k - 1) + [x]
  }

  /** What one record contributes to the channel: `ceiling - Count` copies of its OuterIP when eligible, nothing otherwise. */
  function Block(x: ConnectionInfo, ceiling: int): seq<string>
  {
    if Eligible(x, ceiling) then Repeat(x.outerIP, ceiling - x.count as int) else []
  }

  /** The pushes of a whole scan, record by record in index order. */
  ghost function Emission(s: seq<ConnectionInfo>, ceiling: int): seq<string>
  {
    if |s| == 0 then [] else Emission(s[..|s| - 1], ceiling) + Block(s[|s| - 1], ceiling)
  }

  /** `maxCount += 10` must not wrap around: every connected Count leaves room for the step. */
  ghost predicate Headroom(s: seq<ConnectionInfo>)
  {
    forall i :: 0 <= i < |s| && s[i].connected ==> s[i].count as int + Step < 0x1_0000_0000
  }

  /**
    The scan over the sorted work list: compute the largest connected Count,
    derive the ceiling, then push `ceiling - Count` copies of the OuterIP of
    every eligible worker in index order. `index` ends as the last eligible
    index, or -1 when nobody was eligible.
   */
  method Scan(work: Connections, prevIndex: int) returns (ceiling: int, emitted: seq<string>, index: int)
    requires Valid(work)
    requires prevIndex == -1 ==> Headroom(Elements(work))
    ensures ceiling == Ceiling(Elements(work), prevIndex)
    ensures 0 < ceiling < 0x1_0000_0000
    ensures emitted == Emission(Elements(work), ceiling)
    ensures LastEligible(Elements(work), ceiling, Count(work), index)
  {
    var maxCount := MaxCount(work);
    ceiling := if maxCount == 0 then Step else maxCount as int;
    if prevIndex == -1 {
      ceiling := ceiling + Step;
    }
    emitted, index := Push(work, ceiling);
  }

  /** The first loop of the cycle: `maxCount` over the connected records. */
  method MaxCount(work: Connections) returns (maxCount: uint32)
    requires Valid(work)
    ensures maxCount as int == MaxConnected(Elements(work))
  {
    ghost var s := Elements(work);
    maxCount := 0;
    var i := 0;
    while i < Count(work)
      invariant 0 <= i <= Count(work)
      invariant maxCount as int == MaxConnected(s[..i])
    {
      var x := At(work, i).value;
      if x.connected && x.count > maxCount {
        maxCount := x.count;
      }
      assert s[..i + 1][..i] == s[..i];
      i := i + 1;
    }
    assert s[..i] == s;
  }

  /** No record among the first `n` is eligible. */
  ghost predicate NoneEligible(s: seq<ConnectionInfo>, ceiling: int, n: int)
    requires 0 <= n <= |s|
  {
    forall k :: 0 <= k < n ==> !Eligible(s[k], ceiling)
  }

  /** `index` is the last eligible record among the first `n`, or -1 when none of them is eligible. */
  ghost predicate LastEligible(s: seq<ConnectionInfo>, ceiling: int, n: int, index: int)
    requires 0 <= n <= |s|
  {
    if index == -1 then NoneEligible(s, ceiling, n)
    else 0 <= index < n && Eligible(s[index], ceiling) && forall k :: index < k < n ==> !Eligible(s[k], ceiling)
  }

  lemma LastEligibleStep(s: seq<ConnectionInfo>, ceiling: int, n: int, index: int)
    requires 0 <= n < |s| && LastEligible(s, ceiling, n, index)
    ensures LastEligible(s, ceiling, n + 1, if Eligible(s[n], ceiling) then n else index)
  {
  }

  /** The second loop of the cycle: the channel pushes and the last eligible index. */
  method Push(work: Connections, ceiling: int) returns (emitted: seq<string>, index: int)
    requires Valid(work)
    ensures emitted == Emission(Elements(work), ceiling)
    ensures LastEligible(Elements(work), ceiling, Count(work), index)
  {
    ghost var s := Elements(work);
    emitted := [];
    index := -1;
    var i := 0;
    while i < Count(work)
      invariant 0 <= i <= Count(work) == |s|
      invariant emitted == Emission(s[..i], ceiling)
      invariant LastEligible(s, ceiling, i, index)
    {
      var x := At(work, i).value;
      assert x == s[i];
      assert s[..i + 1][..i] == s[..i];
      assert Emission(s[..i + 1], ceiling) == Emission(s[..i], ceiling) + Block(x, ceiling);
      LastEligibleStep(s, ceiling, i, index);
      if x.connected && (x.count as int) < ceiling {
        index := i;
        var block := Pushes(x.outerIP, x.count as int, ceiling);
        emitted := emitted + block;
      }
      i := i + 1;
    }
    assert s[..i] == s;
  }

  /** The inner loop: one push of `outerIP` for every value from `from` up to the ceiling. */
  method Pushes(outerIP: string, from: int, ceiling: int) returns (pushes: seq<string>)
    requires from <= ceiling
    ensures pushes == Repeat(outerIP, ceiling - from)
  {
    pushes := [];
    var j := from;
    while j < ceiling
      invariant from <= j <= ceiling
      invariant pushes == Repeat(outerIP, j - from)
    {
      pushes := pushes + [outerIP];
      j := j + 1;
    }
  }

  /** The outcome of one loop iteration: nothing to do, or the sorted work list and the scan's results. */
  datatype CycleOutcome = Idle | Ran(work: Connections, ceiling: int, emitted: seq<string>, index: int)

  /**
    One iteration of `distributeWorkIndex`: with both lists empty it only
    waits; otherwise the work list becomes a sorted copy of the live list and
    is scanned. The ceiling depends on the live records only, not on how the
    sort arranged them.
   */
  method Cycle(work: Connections, live: Connections, prevIndex: int) returns (r: CycleOutcome)
    requires Valid(work) && Valid(live)
    requires work.capacity == live.capacity && Count(work) <= Count(live)
    requires prevIndex == -1 ==> Headroom(Elements(live))
    ensures r.Idle? <==> Count(work) <= 0 && Count(live) <= 0
    ensures r.Ran? ==> Valid(r.work) && r.work.capacity == live.capacity && Count(r.work) == Count(live)
    ensures r.Ran? ==> multiset(Elements(r.work)) == multiset(Elements(live)) && SortedByCount(Elements(r.work))
    ensures r.Ran? ==> r.ceiling == Ceiling(Elements(live), prevIndex)
    ensures r.Ran? ==> r.emitted == Emission(Elements(r.work), r.ceiling)
    ensures r.Ran? ==> LastEligible(Elements(r.work), r.ceiling, Count(r.work), r.index)
    ensures r.Ran? ==> (r.index == -1 <==> forall k :: 0 <= k < Count(live) ==> !Eligible(Elements(live)[k], r.ceiling))
  {
    if Count(work) <= 0 && Count(live) <= 0 {
      return Idle;
    }
    var w := Copy(work, live);
    w := Sort(w);
    if prevIndex == -1 {
      HeadroomPermutation(Elements(live), Elements(w));
    }
    MaxConnectedPermutation(Elements(live), Elements(w));
    var ceiling, emitted, index := Scan(w, prevIndex);
    NoneEligiblePermutation(Elements(live), Elements(w), ceiling);
    r := Ran(w, ceiling, emitted, index);
  }

  /** Sequences with the same multiset hold the same records. */
  lemma PermutationKeepsRecords(a: seq<ConnectionInfo>, b: seq<ConnectionInfo>)
    requires multiset(a) == multiset(b)
    ensures forall i :: 0 <= i < |b| ==> b[i] in a
    ensures forall j :: 0 <= j < |a| ==> a[j] in b
  {
    forall i | 0 <= i < |b|
      ensures b[i] in a
    {
      assert b[i] in multiset(b);
    }
    forall j | 0 <= j < |a|
      ensures a[j] in b
    {
      assert a[j] in multiset(a);
    }
  }

  lemma HeadroomPermutation(a: seq<ConnectionInfo>, b: seq<ConnectionInfo>)
    requires multiset(a) == multiset(b) && Headroom(a)
    ensures Headroom(b)
  {
    PermutationKeepsRecords(a, b);
    forall i | 0 <= i < |b| && b[i].connected
      ensures b[i].count as int + Step < 0x1_0000_0000
    {
      var j :| 0 <= j < |a| && a[j] == b[i];
    }
  }

  /** The largest connected Count does not depend on the order of the records. */
  lemma MaxConnectedPermutation(a: seq<ConnectionInfo>, b: seq<ConnectionInfo>)
    requires multiset(a) == multiset(b)
    ensures MaxConnected(a) == MaxConnected(b)
  {
    PermutationKeepsRecords(a, b);
    var ma, mb := MaxConnected(a), MaxConnected(b);
    if ma != 0 {
      var j :| 0 <= j < |a| && a[j].connected && a[j].count as int == ma;
      var i :| 0 <= i < |b| && b[i] == a[j];
      assert ma <= mb;
    }
    if mb != 0 {
      var i :| 0 <= i < |b| && b[i].connected && b[i].count as int == mb;
      var j :| 0 <= j < |a| && a[j] == b[i];
      assert mb <= ma;
    }
  }

  lemma NoneEligiblePermutation(a: seq<ConnectionInfo>, b: seq<ConnectionInfo>, ceiling: int)
    requires multiset(a) == multiset(b)
    ensures (forall k :: 0 <= k < |a| ==> !Eligible(a[k], ceiling)) <==> (forall k :: 0 <= k < |b| ==> !Eligible(b[k], ceiling))
  {
    PermutationKeepsRecords(a, b);
    if exists k :: 0 <= k < |a| && Eligible(a[k], ceiling) {
      var k :| 0 <= k < |a| && Eligible(a[k], ceiling);
      var i :| 0 <= i < |b| && b[i] == a[k];
    }
    if exists k :: 0 <= k < |b| && Eligible(b[k], ceiling) {
      var k :| 0 <= k < |b| && Eligible(b[k], ceiling);
      var j :| 0 <= j < |a| && a[j] == b[k];
    }
  }

  /** The pushes of a concatenation are the pushes of its parts, in order. */
  lemma {:induction false} EmissionAppend(a: seq<ConnectionInfo>, b: seq<ConnectionInfo>, ceiling: int)
    ensures Emission(a + b, ceiling) == Emission(a, ceiling) + Emission(b, ceiling)
    decreases |b|
  {
    if |b| > 0 {
      var n := |b|;
      assert (a + b)[..|a + b| - 1] == a + b[..n - 1];
      EmissionAppend(a, b[..n - 1], ceiling);
    } else {
      assert a + b == a;
    }
  }

  /**
    Record `i` contributes exactly `ceiling - Count` copies of its OuterIP when
    eligible and nothing otherwise, between the pushes of the records before it
    and those after it.
   */
  lemma EmissionAt(s: seq<ConnectionInfo>, ceiling: int, i: int)
    requires 0 <= i < |s|
    ensures Emission(s, ceiling) == Emission(s[..i], ceiling) + Block(s[i], ceiling) + Emission(s[i + 1..], ceiling)
    ensures Eligible(s[i], ceiling) ==> |Block(s[i], ceiling)| == ceiling - s[i].count as int
    ensures !Eligible(s[i], ceiling) ==> Block(s[i], ceiling) == []
  {
    assert s == s[..i] + [s[i]] + s[i + 1..];
    EmissionAppend(s[..i] + [s[i]], s[i + 1..], ceiling);
    EmissionAppend(s[..i], [s[i]], ceiling);
    assert Emission([s[i]], ceiling) == Block(s[i], ceiling) by {
      assert [s[i]][..0] == [];
    }
  }

  /** `x` is the OuterIP of some eligible record of `s`. */
  ghost predicate FromEligible(s: seq<ConnectionInfo>, ceiling: int, x: string)
  {
    exists i :: 0 <= i < |s| && Eligible(s[i], ceiling) && x == s[i].outerIP
  }

  /** Every push carries the OuterIP of an eligible record. */
  lemma {:induction false} EmissionOnlyEligible(s: seq<ConnectionInfo>, ceiling: int)
    ensures forall k :: 0 <= k < |Emission(s, ceiling)| ==> FromEligible(s, ceiling, Emission(s, ceiling)[k])
  {
    if |s| > 0 {
      var n := |s|;
      var init := s[..n - 1];
      EmissionOnlyEligible(init, ceiling);
      var e, ei := Emission(s, ceiling), Emission(init, ceiling);
      assert e == ei + Block(s[n - 1], ceiling);
      forall k | 0 <= k < |e|
        ensures FromEligible(s, ceiling, e[k])
      {
        if k < |ei| {
          assert FromEligible(init, ceiling, ei[k]);
          var i :| 0 <= i < |init| && Eligible(init[i], ceiling) && ei[k] == init[i].outerIP;
          assert s[i] == init[i];
        } else {
          assert e[k] == Block(s[n - 1], ceiling)[k - |ei|];
          assert Eligible(s[n - 1], ceiling);
          assert s[n - 1].outerIP == e[k];
        }
      }
    }
  }

  /** A scan pushes nothing exactly when no record is eligible. */
  lemma {:induction false} EmissionEmptyIff(s: seq<ConnectionInfo>, ceiling: int)
    ensures Emission(s, ceiling) == [] <==> forall i :: 0 <= i < |s| ==> !Eligible(s[i], ceiling)
  {
    if Emission(s, ceiling) == [] {
      forall i | 0 <= i < |s|
        ensures !Eligible(s[i], ceiling)
      {
        EmissionAt(s, ceiling, i);
      }
    }
    if forall i :: 0 <= i < |s| ==> !Eligible(s[i], ceiling) {
      NoneEligibleEmitsNothing(s, ceiling);
    }
  }

  lemma {:induction false} NoneEligibleEmitsNothing(s: seq<ConnectionInfo>, ceiling: int)
    requires forall i :: 0 <= i < |s| ==> !Eligible(s[i], ceiling)
    ensures Emission(s, ceiling) == []
  {
    if |s| > 0 {
      var init := s[..|s| - 1];
      assert forall i :: 0 <= i < |init| ==> init[i] == s[i];
      NoneEligibleEmitsNothing(init, ceiling);
      assert !Eligible(s[|s| - 1], ceiling);
    }
  }

  /**
    Escalation prevents starvation: after a cycle that pushed nothing, the next
    cycle over the same records finds every connected worker below its ceiling.
   */
  lemma EscalationReachesAll(s: seq<ConnectionInfo>)
    ensures forall i :: 0 <= i < |s| && s[i].connected ==> Eligible(s[i], Ceiling(s, -1))
  {
  }

  /**
    Without escalation the most loaded connected worker is skipped when its
    Count is positive. `Ceiling` takes the previous index but no previous
    ceiling, so the ceiling is at most one step above the base whatever came
    before, and the initial index 0 does not escalate.
   */
  lemma CeilingTiers(s: seq<ConnectionInfo>, prevIndex: int)
    ensures prevIndex != -1 && MaxConnected(s) > 0 ==>
      exists i :: 0 <= i < |s| && s[i].connected && !Eligible(s[i], Ceiling(s, prevIndex))
    ensures Ceiling(s, prevIndex) <= (if MaxConnected(s) == 0 then Step else MaxConnected(s)) + Step
    ensures Ceiling(s, InitialIndex) == (if MaxConnected(s) == 0 then Step else MaxConnected(s))
  {
  }
}
