/** The queues of one port, src/tpg_port.c and src/tpg_lookup.c: which core reads
    which queue, how the port spreads packets over the queues, and what the
    software predicts about it. */
module QueueMap {
  import opened Prelude
  import opened Arithmetic

  type Core = nat

  const GROUP := 64      // RTE_RETA_GROUP_SIZE
  const NO_QUEUE := -1   // CORE_PORT_QINVALID

  // ----- cores and queues

  /** The worker cores of the mask, in the order in which they are visited, up to
      the first that does not process packets. */
  function Taken(workers: seq<Core>, mask: set<Core>, isPkt: Core -> bool): seq<Core> {
    if workers == [] then []
    else if workers[0] !in mask then Taken(workers[1..], mask, isPkt)
    else if isPkt(workers[0]) then [workers[0]] + Taken(workers[1..], mask, isPkt)
    else []
  }

  predicate AllPkt(workers: seq<Core>, mask: set<Core>, isPkt: Core -> bool) {
    forall i :: 0 <= i < |workers| && workers[i] in mask ==> isPkt(workers[i])
  }

  lemma {:induction false} TakenAreWorkers(workers: seq<Core>, mask: set<Core>, isPkt: Core -> bool)
    requires Distinct(workers)
    ensures Distinct(Taken(workers, mask, isPkt))
    ensures forall c :: c in Taken(workers, mask, isPkt) ==> c in workers && c in mask && isPkt(c)
    ensures AllPkt(workers, mask, isPkt)
            ==> forall c :: c in workers && c in mask ==> c in Taken(workers, mask, isPkt)
  {
    if workers != [] {
      TakenAreWorkers(workers[1..], mask, isPkt);
    }
  }

  lemma {:induction false} TakenJoin(a: seq<Core>, b: seq<Core>, mask: set<Core>, isPkt: Core -> bool)
    ensures Taken(a + b, mask, isPkt)
            == Taken(a, mask, isPkt) + if AllPkt(a, mask, isPkt) then Taken(b, mask, isPkt) else []
  {
    if a == [] {
      assert a + b == b;
    } else {
      assert (a + b)[0] == a[0] && (a + b)[1..] == a[1..] + b;
      assert AllPkt(a, mask, isPkt) <==> (a[0] in mask ==> isPkt(a[0])) && AllPkt(a[1..], mask, isPkt) by {
        assert a == [a[0]] + a[1..];
      }
      TakenJoin(a[1..], b, mask, isPkt);
    }
  }

  /** One turn of the loop over the worker cores. */
  lemma {:induction false} TakenNext(workers: seq<Core>, i: nat, mask: set<Core>, isPkt: Core -> bool)
    requires i < |workers| && AllPkt(workers[..i], mask, isPkt)
    ensures workers[i] in mask && !isPkt(workers[i])
            ==> Taken(workers, mask, isPkt) == Taken(workers[..i], mask, isPkt) && !AllPkt(workers, mask, isPkt)
    ensures !(workers[i] in mask && !isPkt(workers[i]))
            ==> AllPkt(workers[..i + 1], mask, isPkt)
                && Taken(workers[..i + 1], mask, isPkt)
                   == Taken(workers[..i], mask, isPkt) + if workers[i] in mask then [workers[i]] else []
  {
    TakenJoin(workers[..i], workers[i..], mask, isPkt);
    assert workers[..i] + workers[i..] == workers;
    TakenJoin(workers[..i], [workers[i]], mask, isPkt);
    assert workers[..i] + [workers[i]] == workers[..i + 1];
    assert workers[i..][0] == workers[i];
  }

  /** The last place of a core. */
  function LastIndex(cores: seq<Core>, c: Core): int {
    if cores == [] then NO_QUEUE
    else if cores[|cores| - 1] == c then |cores| - 1
    else LastIndex(cores[..|cores| - 1], c)
  }

  lemma {:induction false} LastIndexMeans(cores: seq<Core>, c: Core)
    ensures var r := LastIndex(cores, c);
            && NO_QUEUE <= r < |cores| && (r >= 0 ==> cores[r] == c)
            && forall k :: 0 <= k < |cores| && r < k ==> cores[k] != c
  {
    if cores != [] && cores[|cores| - 1] != c {
      LastIndexMeans(cores[..|cores| - 1], c);
    }
  }

  /** The queue ids are handed out in the order of cores; a core that gets one again
      forgets the former. */
  ghost predicate Numbers(queueOf: seq<int>, cores: seq<Core>) {
    && (forall c :: c in cores ==> c < |queueOf|)
    && forall c :: 0 <= c < |queueOf| ==> queueOf[c] == LastIndex(cores, c)
  }

  lemma NumbersNext(queueOf: seq<int>, cores: seq<Core>, core: Core)
    requires Numbers(queueOf, cores) && core < |queueOf|
    ensures Numbers(queueOf[core := |cores|], cores + [core])
  {
    assert (cores + [core])[..|cores|] == cores;
  }

  /** Core c, and no other, reads queue q. */
  ghost predicate OnlyReader(queueOf: seq<int>, c: Core, q: nat) {
    c < |queueOf| && forall d :: 0 <= d < |queueOf| ==> (queueOf[d] == q <==> d == c)
  }

  ghost predicate HasOneReader(queueOf: seq<int>, q: nat) {
    exists c :: OnlyReader(queueOf, c, q)
  }

  lemma LastPlaceIsRead(queueOf: seq<int>, cores: seq<Core>, q: nat)
    requires Numbers(queueOf, cores) && q < |cores| && LastIndex(cores, cores[q]) == q
    ensures OnlyReader(queueOf, cores[q], q)
  {
    assert cores[q] in cores;
    forall d: Core | d < |queueOf|
      ensures queueOf[d] == q <==> d == cores[q]
    {
      LastIndexMeans(cores, d);
    }
  }

  /** The cores of a port and its queues correspond one to one if and only if no core was
      given a queue twice; and then they do so in order. */
  lemma QueuesAreCoresIff(queueOf: seq<int>, cores: seq<Core>)
    requires Numbers(queueOf, cores)
    ensures (forall q: nat :: q < |cores| ==> HasOneReader(queueOf, q)) <==> Distinct(cores)
    ensures Distinct(cores) ==> forall q: nat :: q < |cores| ==> OnlyReader(queueOf, cores[q], q)
  {
    if Distinct(cores) {
      forall q: nat | q < |cores|
        ensures OnlyReader(queueOf, cores[q], q) && HasOneReader(queueOf, q)
      {
        LastIndexMeans(cores, cores[q]);
        LastPlaceIsRead(queueOf, cores, q);
      }
    } else {
      var i: nat, j: nat :| i < j < |cores| && cores[i] == cores[j];
      if HasOneReader(queueOf, i) {
        var c :| OnlyReader(queueOf, c, i);
        LastIndexMeans(cores, c);
      }
    }
  }

  // ----- hashes and queues

  /** The part of port_adjust_info about the redirection table: none for a port that
      has no table but several queues. */
  function AdjustedRetaSize(retaSize: nat, queues: nat): Option<nat> {
    if retaSize != 0 then Some(retaSize)
    else if queues > 1 then None
    else Some(1)
  }

  /** tlkp_get_qindex_from_hash. */
  function QIndex(hash: nat, adjusted: nat, queues: nat): nat
    requires adjusted > 0 && queues > 0
  {
    (hash % adjusted) % queues
  }

  /** A group of the redirection table: which entries are meant, and their queues. */
  datatype Group = Group(mask: set<nat>, reta: seq<nat>)

  const EMPTY: Group := Group({}, seq(GROUP, _ => 0))

  function Groups(retaSize: nat): nat {
    (retaSize + GROUP - 1) / GROUP
  }

  /** The port looks up a hash in its redirection table; without one everything goes
      to the first queue. */
  function PortQueue(table: seq<Group>, retaSize: nat, hash: nat): Option<nat>
    requires |table| == Groups(retaSize)
    requires forall g :: 0 <= g < |table| ==> |table[g].reta| == GROUP
  {
    if retaSize == 0 then Some(0)
    else
      var entry := hash % retaSize;
      InTable(entry, retaSize);
      if entry % GROUP in table[entry / GROUP].mask then Some(table[entry / GROUP].reta[entry % GROUP])
      else None
  }

  lemma InTable(entry: nat, retaSize: nat)
    requires entry < retaSize
    ensures entry / GROUP < Groups(retaSize)
  {
  }

  /** The first n entries go around the queues, the rest is not set yet. */
  ghost predicate RoundRobin(table: seq<Group>, n: nat, queues: nat)
    requires queues > 0
  {
    && (forall g :: 0 <= g < |table| ==> |table[g].reta| == GROUP)
    && forall g, s :: 0 <= g < |table| && 0 <= s < GROUP ==>
         if g * GROUP + s < n then s in table[g].mask && table[g].reta[s] == (g * GROUP + s) % queues
         else s !in table[g].mask
  }

  /** The table that the port gets, whatever the size: the software predicts the
      queue of every hash. */
  lemma SoftwarePredictsPort(table: seq<Group>, retaSize: nat, queues: nat, hash: nat)
    requires queues > 0 && |table| == Groups(retaSize) && RoundRobin(table, retaSize, queues)
    requires AdjustedRetaSize(retaSize, queues).Some?
    ensures PortQueue(table, retaSize, hash)
            == Some(QIndex(hash, AdjustedRetaSize(retaSize, queues).value, queues))
  {
    if retaSize != 0 {
      var entry := hash % retaSize;
      InTable(entry, retaSize);
      assert (entry / GROUP) * GROUP + entry % GROUP == entry;
    }
  }

  /** Every hash is predicted to arrive at exactly one core. */
  lemma HashHasOneCore(queueOf: seq<int>, cores: seq<Core>, hash: nat, adjusted: nat)
    requires Numbers(queueOf, cores) && Distinct(cores) && cores != [] && adjusted > 0
    ensures exists c :: c in cores && OnlyReader(queueOf, c, QIndex(hash, adjusted, |cores|))
  {
    QueuesAreCoresIff(queueOf, cores);
    var q := QIndex(hash, adjusted, |cores|);
    assert cores[q] in cores && OnlyReader(queueOf, cores[q], q);
  }

  lemma SmallRemainder(q: nat, m: nat)
    requires q < m
    ensures q % m == q
  {
  }

  /** The hashes go over the entries of the table in turn, and these over the queues: the
      first entries are those of queues 0, 1, 2 and so on, and queues entries
      further, as well as a whole table further, it is the same queue again. */
  lemma QueuesTakeTurns(hash: nat, adjusted: nat, queues: nat)
    requires 0 < adjusted && 0 < queues
    ensures hash < adjusted && hash < queues ==> QIndex(hash, adjusted, queues) == hash
    ensures hash + queues < adjusted ==> QIndex(hash + queues, adjusted, queues) == QIndex(hash, adjusted, queues)
    ensures QIndex(hash + adjusted, adjusted, queues) == QIndex(hash, adjusted, queues)
  {
    OneTurnOn(hash, adjusted);
    if hash < adjusted {
      SmallRemainder(hash, adjusted);
      OneTurnOn(hash, queues);
      if hash < queues {
        SmallRemainder(hash, queues);
      }
      if hash + queues < adjusted {
        SmallRemainder(hash + queues, adjusted);
      }
    }
  }

  lemma OneTurnOn(x: nat, m: nat)
    requires m > 0
    ensures (x + m) % m == x % m
  {
    assert x + m == m * (x / m + 1) + x % m;
    QuotientIsUnique(x + m, m, x / m + 1, x % m);
  }

  /** A queue gets packets exactly when the table has an entry for it: a table that is
      smaller than the number of queues starves the last ones. */
  lemma QueueIsReachedIff(q: nat, adjusted: nat, queues: nat)
    requires 0 < adjusted && q < queues
    ensures (exists hash: nat :: QIndex(hash, adjusted, queues) == q) <==> q < adjusted
  {
    if q < adjusted {
      SmallRemainder(q, adjusted);
      SmallRemainder(q, queues);
      assert QIndex(q, adjusted, queues) == q;
    } else {
      forall hash: nat
        ensures QIndex(hash, adjusted, queues) != q
      {
        SmallRemainder(hash % adjusted, queues);
      }
    }
  }

  // ----- the port

  class Port {
    const maxCores: nat
    const queueOf: array<int>       // pcc_qport_map of every core, for this port
    var coreMask: set<Core>
    var coreDefault: Core
    var queues: nat

    constructor (maxCores: nat)
      ensures this.maxCores == maxCores && fresh(queueOf) && Assigned([])
    {
      this.maxCores := maxCores;
      queueOf := new int[maxCores](_ => NO_QUEUE);
      coreMask, coreDefault, queues := {}, 0, 0;
    }

    /** The port was given these cores, in this order. */
    ghost predicate Assigned(cores: seq<Core>)
      reads this, queueOf
    {
      && queueOf.Length == maxCores && queues == |cores|
      && coreMask == (set c | c in cores)
      && (cores != [] ==> coreDefault == cores[0])
      && Numbers(queueOf[..], cores)
    }

    /** The part of port_parse_mappings after the text is parsed, for a port that has the
        cores before already. */
    method AssignCores(mask: set<Core>, workers: seq<Core>, isPkt: Core -> bool, ghost before: seq<Core>)
      returns (ok: bool)
      requires Assigned(before) && forall c :: c in workers ==> c < maxCores
      modifies this, queueOf
      ensures Assigned(before + Taken(workers, mask, isPkt))
      ensures ok <==> AllPkt(workers, mask, isPkt) && before + Taken(workers, mask, isPkt) != []
    {
      var i := 0;
      assert before + Taken(workers[..0], mask, isPkt) == before;
      while i < |workers|
        invariant i <= |workers| && AllPkt(workers[..i], mask, isPkt)
        invariant Assigned(before + Taken(workers[..i], mask, isPkt))
      {
        var core := workers[i];
        TakenNext(workers, i, mask, isPkt);
        ghost var taken := Taken(workers[..i], mask, isPkt);
        if core in mask {
          if !isPkt(core) {
            return false;
          }
          assert core in workers;
          AddCore(core, before + taken);
          assert before + taken + [core] == before + (taken + [core]);
        } else {
          assert taken + [] == taken;
        }
        i := i + 1;
      }
      assert workers[..i] == workers;
      ok := queues != 0;
    }

    method AddCore(core: Core, ghost cores: seq<Core>)
      requires Assigned(cores) && core < maxCores
      modifies this, queueOf
      ensures Assigned(cores + [core])
    {
      NumbersNext(queueOf[..], cores, core);
      queueOf[core] := queues;
      coreMask := coreMask + {core};
      if queues == 0 {
        coreDefault := core;
      }
      queues := queues + 1;
    }

    /** With one queue map, whose cores are visited once each, queues and cores
        correspond one to one and the default core reads queue 0. */
    lemma OneMapIsOneToOne(mask: set<Core>, workers: seq<Core>, isPkt: Core -> bool)
      requires Distinct(workers) && Assigned(Taken(workers, mask, isPkt))
      ensures forall q: nat :: q < queues ==> HasOneReader(queueOf[..], q)
      ensures queues > 0 ==> OnlyReader(queueOf[..], coreDefault, 0)
    {
      TakenAreWorkers(workers, mask, isPkt);
      QueuesAreCoresIff(queueOf[..], Taken(workers, mask, isPkt));
    }

    /** port_setup_reta_table, up to handing the table to the port. */
    method SetupReta(retaSize: nat) returns (table: array<Group>)
      requires queues > 0
      ensures fresh(table) && table.Length == Groups(retaSize) && RoundRobin(table[..], retaSize, queues)
    {
      table := new Group[Groups(retaSize)](_ => EMPTY);
      var entry := 0;
      while entry < retaSize
        invariant entry <= retaSize && RoundRobin(table[..], entry, queues)
      {
        var idx, shift := entry / GROUP, entry % GROUP;
        InTable(entry, retaSize);
        var group := table[idx];
        ghost var was := table[..];
        table[idx] := Group(group.mask + {shift}, group.reta[shift := entry % queues]);
        OneMoreEntry(was, table[..], entry, queues);
        entry := entry + 1;
      }
    }
  }

  lemma OneMoreEntry(was: seq<Group>, now: seq<Group>, entry: nat, queues: nat)
    requires queues > 0 && RoundRobin(was, entry, queues) && entry / GROUP < |was|
    requires var idx, shift := entry / GROUP, entry % GROUP;
             now == was[idx := Group(was[idx].mask + {shift}, was[idx].reta[shift := entry % queues])]
    ensures RoundRobin(now, entry + 1, queues)
  {
    var idx, shift := entry / GROUP, entry % GROUP;
    assert idx * GROUP + shift == entry;
  }
}
