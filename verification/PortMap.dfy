/** Assigning packet cores to ports, src/tpg_port.c: the max-c allocator over a
    layout of physical ports, pairs of ring ports and KNI ports, in this order. */
module PortMap {
  import opened Prelude
  import opened Arithmetic

  type Core = nat

  datatype Layout = Layout(phys: nat, ringPairs: nat, kni: nat) {
    function NonKni(): nat {
      phys + 2 * ringPairs
    }

    function Ports(): nat {
      NonKni() + kni
    }

    predicate IsKni(p: nat) {
      NonKni() <= p < Ports()
    }

    predicate IsRing(p: nat) {
      phys <= p < NonKni()
    }
  }

  // ----- the shares

  /** How often port p has its turn when the first i turns go once around all ports
      and then around the non-KNI ports only. */
  function Turns(l: Layout, i: nat, p: nat): nat
    requires l.NonKni() > 0
  {
    if i <= l.Ports() then (if p < i then 1 else 0)
    else 1 + if p < l.NonKni() then Share(i - l.Ports(), l.NonKni(), p) else 0
  }

  /** t turns around m ports. */
  function Share(t: nat, m: nat, p: nat): nat
    requires m > 0
  {
    t / m + if p < t % m then 1 else 0
  }

  /** The port that has turn i. */
  function PortAt(l: Layout, i: nat): nat
    requires l.NonKni() > 0
  {
    if i < l.Ports() then i else (i - l.Ports()) % l.NonKni()
  }

  lemma DivideNext(t: nat, m: nat)
    requires m > 0
    ensures if t % m + 1 < m then (t + 1) / m == t / m && (t + 1) % m == t % m + 1
            else (t + 1) / m == t / m + 1 && (t + 1) % m == 0
  {
    assert t == m * (t / m) + t % m;
    if t % m + 1 < m {
      QuotientIsUnique(t + 1, m, t / m, t % m + 1);
    } else {
      assert t + 1 == m * (t / m + 1);
      QuotientIsUnique(t + 1, m, t / m + 1, 0);
    }
  }

  /** One more turn goes to its port and to no other. */
  lemma OneMoreTurn(l: Layout, i: nat, p: nat)
    requires l.NonKni() > 0 && p < l.Ports()
    ensures Turns(l, i + 1, p) == Turns(l, i, p) + if p == PortAt(l, i) then 1 else 0
  {
    if i >= l.Ports() {
      DivideNext(i - l.Ports(), l.NonKni());
      QuotientIsUnique(0, l.NonKni(), 0, 0);
    }
  }

  /** The turns of the non-KNI ports differ by at most one, and an earlier port
      never has fewer. */
  lemma TurnsAreEven(l: Layout, i: nat, p: nat, q: nat)
    requires l.NonKni() > 0 && p <= q < l.NonKni() && i >= l.Ports()
    ensures Turns(l, i, q) <= Turns(l, i, p) <= Turns(l, i, q) + 1
  {
  }

  /** How many turns max-c takes. */
  function TurnCount(l: Layout, cores: nat): nat {
    Max(l.Ports(), cores)
  }

  /** What each port has in the end. The first port of a ring pair gives back the
      one core it may have more than the second. */
  function FinalCores(l: Layout, cores: nat, p: nat): nat
    requires p < l.Ports()
  {
    if l.NonKni() == 0 then 1
    else if l.IsRing(p) && (p - l.phys) % 2 == 0 && p + 1 < l.Ports() then Turns(l, TurnCount(l, cores), p + 1)
    else Turns(l, TurnCount(l, cores), p)
  }

  /** Every port gets a core, a KNI port exactly one, both ports of a ring pair the
      same number, and any two non-KNI ports numbers that differ by at most
      one, in favour of the earlier physical ports. With no more cores than ports
      that is one each. */
  lemma FinalCoresAreFair(l: Layout, cores: nat, p: nat, q: nat)
    requires p < l.Ports() && q < l.Ports()
    ensures FinalCores(l, cores, p) >= 1
    ensures l.IsKni(p) ==> FinalCores(l, cores, p) == 1
    ensures l.IsRing(p) && (p - l.phys) % 2 == 0 ==>
              p + 1 < l.Ports() && l.IsRing(p + 1) && FinalCores(l, cores, p) == FinalCores(l, cores, p + 1)
    ensures !l.IsKni(p) && !l.IsKni(q) ==> FinalCores(l, cores, p) <= FinalCores(l, cores, q) + 1
    ensures p <= q < l.phys ==> FinalCores(l, cores, q) <= FinalCores(l, cores, p)
    ensures cores <= l.Ports() ==> FinalCores(l, cores, p) == 1
  {
    if l.NonKni() > 0 {
      if l.IsRing(p) && (p - l.phys) % 2 == 0 {
        assert p + 1 < l.NonKni();
        assert (p + 1 - l.phys) % 2 == 1;
      }
    }
  }

  lemma PairShares(l: Layout, cores: nat, pair: nat)
    requires pair < l.ringPairs
    ensures var p, i := l.phys + 2 * pair, TurnCount(l, cores);
            && p + 1 < l.NonKni()
            && FinalCores(l, cores, p) == FinalCores(l, cores, p + 1) == Turns(l, i, p + 1)
            && Turns(l, i, p + 1) <= Turns(l, i, p) <= Turns(l, i, p + 1) + 1
  {
    var p := l.phys + 2 * pair;
    OddAndEven(p - l.phys, pair);
    TurnsAreEven(l, TurnCount(l, cores), p, p + 1);
  }

  lemma OddAndEven(x: int, pair: int)
    requires x == 2 * pair
    ensures x % 2 == 0 && (x + 1) % 2 == 1
  {
  }

  // ----- which core goes where

  /** The cores that port p gets in the first i turns, none of which uses a core twice. */
  function Given(l: Layout, cores: seq<Core>, i: nat, p: nat): set<Core>
    requires l.NonKni() > 0 && i <= |cores|
  {
    set j | 0 <= j < i && PortAt(l, j) == p :: cores[j]
  }

  lemma GivenNext(l: Layout, cores: seq<Core>, i: nat, p: nat)
    requires l.NonKni() > 0 && i < |cores|
    ensures Given(l, cores, i + 1, p) == Given(l, cores, i, p) + if p == PortAt(l, i) then {cores[i]} else {}
  {
  }

  lemma PortAtExists(l: Layout, i: nat)
    requires l.NonKni() > 0
    ensures PortAt(l, i) < l.Ports()
  {
  }

  /** With no more turns than cores every core that had its turn is in exactly one mask. */
  lemma EachCoreOnce(l: Layout, cores: seq<Core>, i: nat, j: nat, p: nat)
    requires l.NonKni() > 0 && j < i <= |cores| && Distinct(cores)
    ensures PortAt(l, j) < l.Ports()
    ensures cores[j] in Given(l, cores, i, p) <==> p == PortAt(l, j)
  {
    PortAtExists(l, j);
  }

  /** The ports are handled by independent cores. */
  ghost predicate Independent(masks: seq<set<Core>>) {
    forall p, q :: 0 <= p < q < |masks| ==> masks[p] !! masks[q]
  }

  lemma GivenAreIndependent(l: Layout, cores: seq<Core>, given: seq<set<Core>>, masks: seq<set<Core>>)
    requires l.NonKni() > 0 && Distinct(cores) && |given| == |masks|
    requires forall p :: 0 <= p < |given| ==> given[p] == Given(l, cores, |cores|, p) && masks[p] <= given[p]
    ensures Independent(masks)
  {
    forall p, q | 0 <= p < q < |masks|
      ensures masks[p] !! masks[q]
    {
      forall c | c in given[p]
        ensures c !in given[q]
      {
        var j :| 0 <= j < |cores| && PortAt(l, j) == p && cores[j] == c;
        EachCoreOnce(l, cores, |cores|, j, q);
      }
    }
  }

  /** Some port has the core. */
  ghost predicate Used(masks: seq<set<Core>>, c: Core) {
    exists p :: 0 <= p < |masks| && c in masks[p]
  }

  /** The packet cores that no port has. */
  ghost function Idle(cores: seq<Core>, masks: seq<set<Core>>): set<Core> {
    set c | c in cores && !Used(masks, c)
  }

  /** The masks lost only these cores. */
  ghost predicate LostOnly(before: seq<set<Core>>, after: seq<set<Core>>, removed: set<Core>) {
    |before| == |after| && forall p :: 0 <= p < |before| ==> before[p] <= after[p] + removed
  }

  /** Taking cores out of masks that had them all leaves at most these idle. */
  lemma IdleAreRemoved(cores: seq<Core>, before: seq<set<Core>>, after: seq<set<Core>>, removed: set<Core>)
    requires LostOnly(before, after, removed) && forall c :: c in cores ==> Used(before, c)
    ensures Idle(cores, after) <= removed && |Idle(cores, after)| <= |removed|
  {
    forall c | c in Idle(cores, after)
      ensures c in removed
    {
      var p :| 0 <= p < |before| && c in before[p];
      assert c in after[p] + removed && c !in after[p];
    }
    SubsetSize(Idle(cores, after), removed);
  }

  lemma {:induction false} SubsetSize(a: set<Core>, b: set<Core>)
    requires a <= b
    ensures |a| <= |b|
  {
    if a != {} {
      var x :| x in a;
      SubsetSize(a - {x}, b - {x});
    }
  }

  /** Independent masks need a core each. */
  lemma {:induction false} IndependentFit(masks: seq<set<Core>>, all: set<Core>)
    requires Independent(masks) && forall p :: 0 <= p < |masks| ==> masks[p] != {} && masks[p] <= all
    ensures |masks| <= |all|
    decreases |masks|
  {
    if masks != [] {
      var n := |masks| - 1;
      var left := all - masks[n];
      forall p | 0 <= p < n
        ensures masks[..n][p] <= left
      {
        assert masks[p] !! masks[n];
      }
      IndependentFit(masks[..n], left);
    }
  }

  lemma {:induction false} CoreSetSize(cores: seq<Core>, all: set<Core>)
    requires all <= set c | c in cores
    ensures |all| <= |cores|
    decreases |cores|
  {
    if cores == [] {
      assert all == {};
    } else {
      CoreSetSize(cores[1..], all - {cores[0]});
      assert |all| <= |all - {cores[0]}| + 1 by {
        if cores[0] !in all {
          assert all - {cores[0]} == all;
        }
      }
    }
  }

  /** After i turns: every port has as many cores as it had turns, each core that had
      its turn is in use, and as long as no core is used twice every port has
      exactly those of its turns. */
  ghost predicate TurnsTaken(l: Layout, cores: seq<Core>, masks: seq<set<Core>>, counts: seq<nat>, i: nat)
    requires l.NonKni() > 0 && |masks| == |counts| == l.Ports()
  {
    && (forall p :: 0 <= p < |masks| ==> counts[p] == Turns(l, i, p) == |masks[p]|)
    && (forall p, c :: 0 <= p < |masks| && c in masks[p] ==> c in cores)
    && (forall j :: 0 <= j < i && j < |cores| ==> Used(masks, cores[j]))
    && (i <= |cores| ==> forall p :: 0 <= p < |masks| ==> masks[p] == Given(l, cores, i, p))
  }

  /** The core of turn i is not in the mask of its port yet. */
  lemma CoreIsNew(l: Layout, cores: seq<Core>, masks: seq<set<Core>>, counts: seq<nat>, i: nat, core: nat)
    requires l.NonKni() > 0 && |masks| == |counts| == l.Ports() && TurnsTaken(l, cores, masks, counts, i)
    requires cores != [] && Distinct(cores) && i < TurnCount(l, |cores|) && core == i % |cores|
    ensures PortAt(l, i) < l.Ports() && cores[core] !in masks[PortAt(l, i)] && (i < |cores| ==> core == i)
  {
    PortAtExists(l, i);
    if i < |cores| {
      QuotientIsUnique(i, |cores|, 0, i);
    }
    if i < l.Ports() {
      assert Turns(l, i, PortAt(l, i)) == 0 && |masks[PortAt(l, i)]| == 0;
    }
  }

  lemma OneCoreMore(l: Layout, cores: seq<Core>, masks: seq<set<Core>>, counts: seq<nat>, i: nat, port: nat, core: nat)
    requires l.NonKni() > 0 && |masks| == |counts| == l.Ports() && TurnsTaken(l, cores, masks, counts, i)
    requires port == PortAt(l, i) < l.Ports() && core < |cores|
    requires cores[core] !in masks[port] && (i < |cores| ==> core == i)
    ensures TurnsTaken(l, cores, masks[port := masks[port] + {cores[core]}], counts[port := counts[port] + 1], i + 1)
  {
    forall p | 0 <= p < |masks|
      ensures (if p == port then counts[p] + 1 else counts[p]) == Turns(l, i + 1, p)
    {
      OneMoreTurn(l, i, p);
    }
    UsedOneMore(cores, masks, i, port, core);
    if i < |cores| {
      forall p | 0 <= p < |masks|
        ensures Given(l, cores, i + 1, p) == if p == port then masks[p] + {cores[core]} else masks[p]
      {
        GivenNext(l, cores, i, p);
      }
    }
  }

  lemma UsedOneMore(cores: seq<Core>, masks: seq<set<Core>>, i: nat, port: nat, core: nat)
    requires port < |masks| && core < |cores| && (i < |cores| ==> core == i)
    requires forall j :: 0 <= j < i && j < |cores| ==> Used(masks, cores[j])
    ensures forall j :: 0 <= j < i + 1 && j < |cores| ==> Used(masks[port := masks[port] + {cores[core]}], cores[j])
  {
    var after := masks[port := masks[port] + {cores[core]}];
    forall j | 0 <= j < i + 1 && j < |cores|
      ensures Used(after, cores[j])
    {
      if j == i {
        assert cores[j] in after[port];
      } else {
        var p :| 0 <= p < |masks| && cores[j] in masks[p];
        assert cores[j] in after[p];
      }
    }
  }

  // ----- the allocator

  class Allocator {
    const masks: array<set<Core>>      // pcore_mask
    const counts: array<nat>           // cores_per_port

    constructor (ports: nat)
      ensures masks.Length == ports && counts.Length == ports && fresh(masks) && fresh(counts)
      ensures forall p :: 0 <= p < ports ==> masks[p] == {} && counts[p] == 0
    {
      masks := new set<Core>[ports](_ => {});
      counts := new nat[ports](_ => 0);
    }

    ghost predicate AfterTurns(l: Layout, cores: seq<Core>, i: nat)
      requires l.NonKni() > 0
      reads this, masks, counts
    {
      masks.Length == counts.Length == l.Ports() && TurnsTaken(l, cores, masks[..], counts[..], i)
    }

    /** Lines 926-950 for a layout with at least one port that is not KNI. */
    method TakeTurns(l: Layout, cores: seq<Core>)
      requires l.NonKni() > 0 && cores != [] && Distinct(cores) && AfterTurns(l, cores, 0)
      modifies masks, counts
      ensures AfterTurns(l, cores, TurnCount(l, |cores|))
      ensures forall c :: c in cores ==> Used(masks[..], c)
    {
      var max := TurnCount(l, |cores|);
      var port, core := 0, 0;
      QuotientIsUnique(0, |cores|, 0, 0);
      for i := 0 to max
        invariant port == PortAt(l, i) && port < l.Ports() && core == i % |cores|
        invariant AfterTurns(l, cores, i)
      {
        AddCore(l, cores, i, port, core);
        port := NextPort(l, i, port);
        DivideNext(i, |cores|);
        core := if core + 1 == |cores| then 0 else core + 1;
      }
    }

    /** Lines 927-928. The core is not in the mask yet. */
    method AddCore(l: Layout, cores: seq<Core>, i: nat, port: nat, core: nat)
      requires l.NonKni() > 0 && cores != [] && Distinct(cores) && AfterTurns(l, cores, i)
      requires i < TurnCount(l, |cores|) && port == PortAt(l, i) < l.Ports() && core == i % |cores|
      modifies masks, counts
      ensures AfterTurns(l, cores, i + 1)
    {
      CoreIsNew(l, cores, masks[..], counts[..], i, core);
      OneCoreMore(l, cores, masks[..], counts[..], i, port, core);
      masks[port] := masks[port] + {cores[core]};
      counts[port] := counts[port] + 1;
    }

    /** Lines 934-945: the next port, skipping KNI ports that have their core. */
    method NextPort(l: Layout, i: nat, port: nat) returns (next: nat)
      requires l.NonKni() > 0 && port == PortAt(l, i) < l.Ports()
      requires masks.Length == counts.Length == l.Ports()
      requires forall p :: 0 <= p < l.Ports() ==> |masks[p]| == Turns(l, i + 1, p)
      ensures next == PortAt(l, i + 1) && next < l.Ports()
    {
      var n := l.Ports();
      next := (port + 1) % n;
      NextOf(l, i, port);
      while l.IsKni(next) && masks[next] != {}
        invariant next < n
        invariant i + 1 < n ==> next == i + 1
        invariant i + 1 >= n ==> next == PortAt(l, i + 1) || (l.IsKni(next) && PortAt(l, i + 1) == 0)
        decreases if next == 0 then 0 else n - next
      {
        if next + 1 < n {
          QuotientIsUnique(next + 1, n, 0, next + 1);
        } else {
          QuotientIsUnique(n, n, 1, 0);
        }
        next := (next + 1) % n;
      }
    }

    /** Lines 926-950 for KNI ports only: one turn for each, then return. */
    method TakeTurnsAllKni(l: Layout, cores: seq<Core>)
      requires l.NonKni() == 0 && l.Ports() > 0 && cores != []
      requires masks.Length == counts.Length == l.Ports()
      requires forall p :: 0 <= p < l.Ports() ==> masks[p] == {}
      modifies masks, counts
      ensures forall p :: 0 <= p < l.Ports() ==> |masks[p]| == 1 && masks[p] <= (set c | c in cores)
      ensures forall p :: 0 <= p < l.Ports() && p < |cores| ==> masks[p] == {cores[p]}
    {
      var port, core := 0, 0;
      for i := 0 to TurnCount(l, |cores|)
        invariant port == i < l.Ports() && core < |cores| && (i < |cores| ==> core == i)
        invariant forall p :: 0 <= p < port ==> |masks[p]| == 1 && masks[p] <= (set c | c in cores)
        invariant forall p :: 0 <= p < port && p < |cores| ==> masks[p] == {cores[p]}
        invariant forall p :: port <= p < l.Ports() ==> masks[p] == {}
      {
        assert cores[core] in cores;
        masks[port] := masks[port] + {cores[core]};
        counts[port] := counts[port] + 1;
        port := port + 1;
        if port == l.Ports() {
          return;
        }
        core := if core + 1 == |cores| then 0 else core + 1;
      }
    }

    /** Lines 960-985, pair by pair. At most one core goes for each. */
    method AdjustRings(l: Layout, cores: seq<Core>) returns (ghost removed: set<Core>)
      requires masks.Length == counts.Length == l.Ports() && Adjustable(l, cores, counts[..], masks[..])
      modifies masks
      ensures Adjusted(l, counts[..], old(masks[..]), masks[..], l.ringPairs, removed)
    {
      var port := l.phys;
      ghost var done, was := 0, masks[..];
      removed := {};
      NothingAdjusted(l, counts[..], was);
      while port < l.Ports() && l.IsRing(port)
        invariant done <= l.ringPairs && port == l.phys + 2 * done
        invariant Adjusted(l, counts[..], was, masks[..], done, removed)
        decreases l.Ports() - port
      {
        removed := AdjustNext(l, cores, port, was, done, removed);
        port, done := port + 2, done + 1;
      }
    }

    method AdjustNext(l: Layout, cores: seq<Core>, port: nat, ghost was: seq<set<Core>>, ghost done: nat,
                      ghost before: set<Core>)
      returns (ghost removed: set<Core>)
      requires masks.Length == counts.Length == l.Ports() == |was| && Adjustable(l, cores, counts[..], was)
      requires done < l.ringPairs && port == l.phys + 2 * done
      requires Adjusted(l, counts[..], was, masks[..], done, before)
      modifies masks
      ensures Adjusted(l, counts[..], was, masks[..], done + 1, removed)
    {
      ghost var now := masks[..];
      PairIsReady(l, cores, counts[..], was, now, done, before);
      ghost var gone := AdjustPair(l, cores, port);
      PairAdjusted(l, counts[..], was, now, masks[..], done, before, gone);
      removed := before + gone;
    }

    /** The first port of a pair has as many cores as the second or one more, so the
        abort at line 971 is not reached; it gives up at most one. */
    method AdjustPair(l: Layout, cores: seq<Core>, port: nat) returns (ghost gone: set<Core>)
      requires masks.Length == counts.Length == l.Ports() && port + 1 < l.Ports()
      requires PairReady(cores, counts[..], masks[..], port)
      modifies masks
      ensures masks[..] == old(masks[..][port := masks[port] - gone])
      ensures |masks[port]| == counts[port + 1] && |gone| <= 1
    {
      gone := {};
      ghost var was := masks[..];
      assert was[port] - gone == was[port];
      if counts[port] != counts[port + 1] {
        assert counts[port] == counts[port + 1] + 1;
        ghost var k := RemoveFirst(cores, port);
        gone := {cores[k]};
        assert masks[..] == was[port := was[port] - gone];
      }
    }

    /** Lines 978-983: take the first core of the mask away. */
    method RemoveFirst(cores: seq<Core>, port: nat) returns (k: nat)
      requires port < masks.Length && masks[port] != {}
      requires forall c :: c in masks[port] ==> c in cores
      modifies masks
      ensures k < |cores| && cores[k] in old(masks[port]) && masks[port] == old(masks[port]) - {cores[k]}
      ensures forall j :: 0 <= j < k ==> cores[j] !in old(masks[port])
      ensures forall p :: 0 <= p < masks.Length && p != port ==> masks[p] == old(masks[p])
    {
      ghost var some :| some in masks[port];
      ghost var at :| 0 <= at < |cores| && cores[at] == some;
      k := 0;
      while cores[k] !in masks[port]
        invariant k <= at && forall j :: 0 <= j < k ==> cores[j] !in masks[port]
        decreases at - k
      {
        k := k + 1;
      }
      masks[port] := masks[port] - {cores[k]};
    }

    /** port_handle_cmdline_opt_qmap_maxc, on masks that are still empty. Its purpose is
        met if and only if there are enough cores: then no two ports share one. No
        core stays idle, except for one per ring pair or on KNI ports only. */
    method MaxC(l: Layout, cores: seq<Core>)
      requires cores != [] && Distinct(cores) && masks.Length == counts.Length == l.Ports()
      requires forall p :: 0 <= p < l.Ports() ==> masks[p] == {} && counts[p] == 0
      modifies masks, counts
      ensures forall p :: 0 <= p < l.Ports() ==>
                |masks[p]| == FinalCores(l, |cores|, p) && masks[p] <= (set c | c in cores)
      ensures Independent(masks[..]) <==> l.Ports() <= |cores|
      ensures l.NonKni() > 0 ==> |Idle(cores, masks[..])| <= l.ringPairs
      ensures l.NonKni() == 0 ==> forall p :: 0 <= p < l.Ports() && p < |cores| ==> masks[p] == {cores[p]}
    {
      if l.Ports() == 0 {
        return;
      }
      ghost var given := masks[..];
      if l.NonKni() == 0 {
        TakeTurnsAllKni(l, cores);
      } else {
        TakeTurns(l, cores);
        given := masks[..];
        PairsAreOk(counts[..], l, |cores|);
        ghost var removed := AdjustRings(l, cores);
        IdleAreRemoved(cores, given, masks[..], removed);
        PairsAreFinal(masks[..], counts[..], l, |cores|);
        if l.Ports() <= |cores| {
          GivenAreIndependent(l, cores, given, masks[..]);
        }
      }
      FewCoresAreShared(l, cores, masks[..]);
    }
  }

  /** With fewer cores than ports two ports share one. */
  lemma FewCoresAreShared(l: Layout, cores: seq<Core>, masks: seq<set<Core>>)
    requires |masks| == l.Ports()
    requires forall p :: 0 <= p < l.Ports() ==>
               |masks[p]| == FinalCores(l, |cores|, p) && masks[p] <= (set c | c in cores)
    ensures |cores| < l.Ports() ==> !Independent(masks)
  {
    forall p | 0 <= p < l.Ports()
      ensures masks[p] != {}
    {
      FinalCoresAreFair(l, |cores|, p, p);
    }
    if Independent(masks) {
      var all := set c | c in cores;
      IndependentFit(masks, all);
      CoreSetSize(cores, all);
    }
  }

  /** After the turns the first port of a pair is at most one core ahead. */
  lemma PairsAreOk(counts: seq<nat>, l: Layout, cores: nat)
    requires l.NonKni() > 0 && |counts| == l.Ports()
    requires forall p :: 0 <= p < l.Ports() ==> counts[p] == Turns(l, TurnCount(l, cores), p)
    ensures forall pair :: 0 <= pair < l.ringPairs ==> PairOk(counts, l, pair)
  {
    forall pair | 0 <= pair < l.ringPairs
      ensures PairOk(counts, l, pair)
    {
      PairShares(l, cores, pair);
    }
  }

  /** After the adjustment every port has what it should have. */
  lemma PairsAreFinal(masks: seq<set<Core>>, counts: seq<nat>, l: Layout, cores: nat)
    requires l.NonKni() > 0 && |masks| == |counts| == l.Ports()
    requires forall p :: 0 <= p < l.Ports() ==> counts[p] == Turns(l, TurnCount(l, cores), p)
    requires forall p :: 0 <= p < l.Ports() && !l.IsRing(p) ==> |masks[p]| == counts[p]
    requires forall pair :: 0 <= pair < l.ringPairs ==> PairEven(masks, counts, l, pair)
    ensures forall p :: 0 <= p < l.Ports() ==> |masks[p]| == FinalCores(l, cores, p)
  {
    forall p | 0 <= p < l.Ports()
      ensures |masks[p]| == FinalCores(l, cores, p)
    {
      if l.IsRing(p) {
        var pair := (p - l.phys) / 2;
        assert PairEven(masks, counts, l, pair);
        PairShares(l, cores, pair);
      }
    }
  }

  /** What the adjustment starts from. */
  ghost predicate Adjustable(l: Layout, cores: seq<Core>, counts: seq<nat>, masks: seq<set<Core>>)
    requires |counts| == |masks| == l.Ports()
  {
    && (forall p :: 0 <= p < l.Ports() ==> counts[p] == |masks[p]|)
    && (forall p, c :: 0 <= p < l.Ports() && c in masks[p] ==> c in cores)
    && forall pair :: 0 <= pair < l.ringPairs ==> PairOk(counts, l, pair)
  }

  /** Port and the next one have the cores that they are counted with. */
  ghost predicate PairReady(cores: seq<Core>, counts: seq<nat>, masks: seq<set<Core>>, port: nat)
    requires |counts| == |masks| && port + 1 < |counts|
  {
    && counts[port] == |masks[port]| && counts[port + 1] == |masks[port + 1]|
    && counts[port + 1] <= counts[port] <= counts[port + 1] + 1
    && forall c :: c in masks[port] ==> c in cores
  }

  lemma NothingAdjusted(l: Layout, counts: seq<nat>, was: seq<set<Core>>)
    requires |counts| == |was| == l.Ports()
    ensures Adjusted(l, counts, was, was, 0, {})
  {
  }

  lemma PairIsReady(l: Layout, cores: seq<Core>, counts: seq<nat>, was: seq<set<Core>>, now: seq<set<Core>>,
                    done: nat, removed: set<Core>)
    requires |counts| == |was| == l.Ports() && done < l.ringPairs
    requires Adjustable(l, cores, counts, was) && Adjusted(l, counts, was, now, done, removed)
    ensures l.phys + 2 * done + 1 < l.Ports() && PairReady(cores, counts, now, l.phys + 2 * done)
  {
    assert PairOk(counts, l, done);
  }

  /** The first done pairs have lost cores so that both ports have the same number. */
  ghost predicate Adjusted(l: Layout, counts: seq<nat>, was: seq<set<Core>>, now: seq<set<Core>>, done: nat,
                           removed: set<Core>)
    requires |counts| == l.Ports() && done <= l.ringPairs
  {
    && |was| == |now| == l.Ports()
    && (forall p :: 0 <= p < l.Ports() ==> now[p] <= was[p])
    && (forall p :: 0 <= p < l.Ports() && (!l.IsRing(p) || p >= l.phys + 2 * done) ==> now[p] == was[p])
    && |removed| <= done && LostOnly(was, now, removed)
    && forall pair :: 0 <= pair < done ==> PairEven(now, counts, l, pair)
  }

  lemma PairAdjusted(l: Layout, counts: seq<nat>, was: seq<set<Core>>, now: seq<set<Core>>, next: seq<set<Core>>,
                     done: nat, removed: set<Core>, gone: set<Core>)
    requires |counts| == l.Ports() && done < l.ringPairs && Adjusted(l, counts, was, now, done, removed)
    requires var port := l.phys + 2 * done;
             && next == now[port := now[port] - gone] && |gone| <= 1
             && |next[port]| == |next[port + 1]| == counts[port + 1]
    ensures Adjusted(l, counts, was, next, done + 1, removed + gone)
  {
    forall pair | 0 <= pair < done
      ensures PairEven(next, counts, l, pair)
    {
      assert PairEven(now, counts, l, pair);
    }
    LosesMore(was, now, next, l.phys + 2 * done, removed, gone);
  }

  lemma LosesMore(was: seq<set<Core>>, now: seq<set<Core>>, next: seq<set<Core>>, port: nat, removed: set<Core>,
                  gone: set<Core>)
    requires port < |now| && LostOnly(was, now, removed) && next == now[port := now[port] - gone]
    ensures LostOnly(was, next, removed + gone) && |removed + gone| <= |removed| + |gone|
  {
    forall p | 0 <= p < |was|
      ensures was[p] <= next[p] + (removed + gone)
    {
      assert was[p] <= now[p] + removed;
    }
  }

  /** The first port of the pair has as many cores as the second, or one more. */
  predicate PairOk(counts: seq<nat>, l: Layout, pair: nat)
    requires |counts| == l.Ports() && pair < l.ringPairs
  {
    var p := l.phys + 2 * pair;
    counts[p + 1] <= counts[p] <= counts[p + 1] + 1
  }

  predicate PairEven(masks: seq<set<Core>>, counts: seq<nat>, l: Layout, pair: nat)
    requires |masks| == |counts| == l.Ports() && pair < l.ringPairs
  {
    var p := l.phys + 2 * pair;
    |masks[p]| == |masks[p + 1]| == counts[p + 1]
  }

  /** Where the search for the next port starts. */
  lemma NextOf(l: Layout, i: nat, port: nat)
    requires l.NonKni() > 0 && port == PortAt(l, i) < l.Ports()
    ensures var next := (port + 1) % l.Ports();
            && next < l.Ports()
            && (i + 1 < l.Ports() ==> next == i + 1)
            && (i + 1 >= l.Ports() ==>
                  next == PortAt(l, i + 1) || (l.IsKni(next) && PortAt(l, i + 1) == 0))
  {
    var n, m := l.Ports(), l.NonKni();
    if port + 1 < n {
      QuotientIsUnique(port + 1, n, 0, port + 1);
    } else {
      QuotientIsUnique(n, n, 1, 0);
    }
    if i >= n {
      DivideNext(i - n, m);
    } else {
      QuotientIsUnique(0, m, 0, 0);
    }
  }
}
