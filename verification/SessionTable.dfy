/** The session lookup table, src/tpg_lookup.c and inc/tpg_lookup.h: a bucketed
    hash table behaves like the list of the control blocks in it, newest
    first. */
module SessionTable {
  import opened Prelude

  const BUCKET_SIZE := 0x10_0000   // TPG_HASH_BUCKET_SIZE, 20 bits

  /** The connection as the receiver of a packet sees it. */
  datatype Tuple = Tuple(hash: bv32, localAddr: nat, remoteAddr: nat, localPort: nat, remotePort: nat)

  /** A control block: who it is, the port it is on, and its connection. */
  datatype Block = Block(id: nat, port: nat, tuple: Tuple)

  /** TPG_HASH_MOD. */
  function HashMod(hash: bv32): (r: nat)
    ensures r < BUCKET_SIZE
  {
    (((hash >> 20) ^ hash) & 0xF_FFFF) as int
  }

  /** tlkp_get_hash_bucket, as an index into the table. */
  function BucketOf(port: nat, hash: bv32): nat {
    port * BUCKET_SIZE + HashMod(hash)
  }

  function BlockBucket(b: Block): nat {
    BucketOf(b.port, b.tuple.hash)
  }

  /** Different ports never share a bucket. */
  lemma PortsShareNoBucket(p: nat, h: bv32, q: nat, g: bv32)
    requires BucketOf(p, h) == BucketOf(q, g)
    ensures p == q
  {
  }

  /** The blocks of a list that belong in bucket i. */
  function InBucket(blocks: seq<Block>, i: nat): seq<Block> {
    if blocks == [] then []
    else if BlockBucket(blocks[0]) == i then [blocks[0]] + InBucket(blocks[1..], i)
    else InBucket(blocks[1..], i)
  }

  function Without(blocks: seq<Block>, id: nat): seq<Block> {
    if blocks == [] then []
    else if blocks[0].id == id then blocks[1..]
    else [blocks[0]] + Without(blocks[1..], id)
  }

  /** The newest block on the port with the same connection. */
  function Newest(blocks: seq<Block>, port: nat, t: Tuple): Option<Block> {
    if blocks == [] then None
    else if blocks[0].port == port && blocks[0].tuple == t then Some(blocks[0])
    else Newest(blocks[1..], port, t)
  }

  predicate DistinctIds(blocks: seq<Block>) {
    forall i, j :: 0 <= i < j < |blocks| ==> blocks[i].id != blocks[j].id
  }

  lemma {:induction false} NewestInBucket(blocks: seq<Block>, port: nat, t: Tuple)
    ensures Newest(InBucket(blocks, BucketOf(port, t.hash)), port, t) == Newest(blocks, port, t)
  {
    if blocks != [] {
      NewestInBucket(blocks[1..], port, t);
    }
  }

  lemma {:induction false} BucketHasItsPort(blocks: seq<Block>, port: nat, hash: bv32, k: nat)
    requires k < |InBucket(blocks, BucketOf(port, hash))|
    ensures InBucket(blocks, BucketOf(port, hash))[k].port == port
    ensures InBucket(blocks, BucketOf(port, hash))[k] in blocks
  {
    var i := BucketOf(port, hash);
    if BlockBucket(blocks[0]) == i {
      PortsShareNoBucket(blocks[0].port, blocks[0].tuple.hash, port, hash);
      if k > 0 {
        BucketHasItsPort(blocks[1..], port, hash, k - 1);
      }
    } else {
      BucketHasItsPort(blocks[1..], port, hash, k);
    }
  }

  lemma {:induction false} InBucketWithout(blocks: seq<Block>, b: Block, i: nat)
    requires b in blocks && DistinctIds(blocks)
    ensures InBucket(Without(blocks, b.id), i)
            == if i == BlockBucket(b) then Without(InBucket(blocks, i), b.id) else InBucket(blocks, i)
    decreases |blocks|
  {
    if blocks[0] == b {
      if i != BlockBucket(b) {
      } else {
        assert InBucket(blocks, i)[1..] == InBucket(blocks[1..], i);
      }
    } else {
      assert blocks[0].id != b.id;
      InBucketWithout(blocks[1..], b, i);
      assert BlockBucket(blocks[0]) == i ==> InBucket(blocks, i)[1..] == InBucket(blocks[1..], i);
    }
  }

  lemma AddedInFront(blocks: seq<Block>, b: Block)
    requires DistinctIds(blocks) && forall c :: c in blocks ==> c.id != b.id
    ensures DistinctIds([b] + blocks)
    ensures forall i: nat :: InBucket([b] + blocks, i)
                             == if i == BlockBucket(b) then [b] + InBucket(blocks, i) else InBucket(blocks, i)
  {
    assert ([b] + blocks)[1..] == blocks;
    assert forall k :: 0 <= k < |blocks| ==> blocks[k] in blocks;
  }

  lemma HeadOrRest(blocks: seq<Block>)
    requires blocks != []
    ensures forall b :: b in blocks <==> b == blocks[0] || b in blocks[1..]
  {
    assert blocks == [blocks[0]] + blocks[1..];
  }

  lemma {:induction false} WithoutMembers(blocks: seq<Block>, id: nat, b: Block)
    requires DistinctIds(blocks)
    ensures b in Without(blocks, id) <==> b in blocks && b.id != id
  {
    if blocks != [] {
      HeadOrRest(blocks);
      if blocks[0].id == id {
        assert b in blocks[1..] ==> b.id != id;
      } else {
        WithoutMembers(blocks[1..], id, b);
        var r := Without(blocks, id);
        HeadOrRest(r);
        assert r[1..] == Without(blocks[1..], id);
      }
    }
  }

  lemma {:induction false} WithoutIsDistinct(blocks: seq<Block>, id: nat)
    requires DistinctIds(blocks)
    ensures DistinctIds(Without(blocks, id))
  {
    if blocks != [] && blocks[0].id != id {
      WithoutIsDistinct(blocks[1..], id);
      var r := Without(blocks[1..], id);
      forall k | 0 <= k < |r|
        ensures r[k].id != blocks[0].id
      {
        WithoutMembers(blocks[1..], id, r[k]);
      }
    }
  }

  lemma WithoutKeepsDistinct(blocks: seq<Block>, id: nat)
    requires DistinctIds(blocks)
    ensures DistinctIds(Without(blocks, id))
    ensures forall b :: b in Without(blocks, id) <==> b in blocks && b.id != id
  {
    WithoutIsDistinct(blocks, id);
    forall b
      ensures b in Without(blocks, id) <==> b in blocks && b.id != id
    {
      WithoutMembers(blocks, id, b);
    }
  }

  // ----- histories

  datatype Op = Add(b: Block) | Delete(b: Block)

  /** The blocks after a history. */
  function Run(ops: seq<Op>): seq<Block>
    decreases |ops|
  {
    if ops == [] then []
    else
      var before := Run(ops[..|ops| - 1]);
      match ops[|ops| - 1]
      case Add(b) => [b] + before
      case Delete(b) => Without(before, b.id)
  }

  /** Only blocks that are not linked are added, and only linked ones deleted. */
  predicate Proper(ops: seq<Op>)
    decreases |ops|
  {
    ops == [] ||
    (var before := ops[..|ops| - 1];
     Proper(before) &&
     match ops[|ops| - 1]
     case Add(b) => forall c :: c in Run(before) ==> c.id != b.id
     case Delete(b) => b in Run(before))
  }

  /** Read backwards: the last block with this connection on this port whose id was
      not deleted later. */
  function LastAdded(ops: seq<Op>, port: nat, t: Tuple, deleted: set<nat>): Option<Block>
    decreases |ops|
  {
    if ops == [] then None
    else
      var before := ops[..|ops| - 1];
      match ops[|ops| - 1]
      case Delete(b) => LastAdded(before, port, t, deleted + {b.id})
      case Add(b) =>
        if b.port == port && b.tuple == t && b.id !in deleted then Some(b)
        else LastAdded(before, port, t, deleted)
  }

  function WithoutAll(blocks: seq<Block>, ids: set<nat>): seq<Block> {
    if blocks == [] then []
    else if blocks[0].id in ids then WithoutAll(blocks[1..], ids)
    else [blocks[0]] + WithoutAll(blocks[1..], ids)
  }

  lemma {:induction false} WithoutOneMore(blocks: seq<Block>, id: nat, ids: set<nat>)
    requires DistinctIds(blocks)
    ensures WithoutAll(Without(blocks, id), ids) == WithoutAll(blocks, ids + {id})
  {
    if blocks != [] {
      if blocks[0].id == id {
        WithoutAbsent(blocks[1..], id, ids);
      } else {
        WithoutOneMore(blocks[1..], id, ids);
      }
    }
  }

  lemma {:induction false} WithoutAbsent(blocks: seq<Block>, id: nat, ids: set<nat>)
    requires forall k :: 0 <= k < |blocks| ==> blocks[k].id != id
    ensures WithoutAll(blocks, ids) == WithoutAll(blocks, ids + {id})
  {
    if blocks != [] {
      WithoutAbsent(blocks[1..], id, ids);
    }
  }

  lemma {:induction false} WithoutNone(blocks: seq<Block>)
    ensures WithoutAll(blocks, {}) == blocks
  {
    if blocks != [] {
      WithoutNone(blocks[1..]);
    }
  }

  lemma {:induction false} RunIsDistinct(ops: seq<Op>)
    requires Proper(ops)
    ensures DistinctIds(Run(ops))
    decreases |ops|
  {
    if ops != [] {
      var before := ops[..|ops| - 1];
      RunIsDistinct(before);
      if ops[|ops| - 1].Delete? {
        WithoutKeepsDistinct(Run(before), ops[|ops| - 1].b.id);
      } else {
        assert forall k :: 0 <= k < |Run(before)| ==> Run(before)[k] in Run(before);
      }
    }
  }

  lemma {:induction false} ProperPrefix(ops: seq<Op>, k: nat)
    requires Proper(ops) && k <= |ops|
    ensures Proper(ops[..k])
    decreases |ops|
  {
    if k == |ops| {
      assert ops[..k] == ops;
    } else {
      ProperPrefix(ops[..|ops| - 1], k);
      assert ops[..|ops| - 1][..k] == ops[..k];
    }
  }

  /** One operation of a proper history. */
  lemma ReplayTurn(ops: seq<Op>, k: nat)
    requires Proper(ops) && k < |ops|
    ensures var blocks := Run(ops[..k]);
            match ops[k]
            case Add(b) => (forall c :: c in blocks ==> c.id != b.id) && Run(ops[..k + 1]) == [b] + blocks
            case Delete(b) => b in blocks && Run(ops[..k + 1]) == Without(blocks, b.id)
  {
    assert ops[..k + 1][..k] == ops[..k];
    ProperPrefix(ops, k + 1);
  }

  lemma {:induction false} NewestOfHistory(ops: seq<Op>, port: nat, t: Tuple, deleted: set<nat>)
    requires Proper(ops)
    ensures Newest(WithoutAll(Run(ops), deleted), port, t) == LastAdded(ops, port, t, deleted)
    decreases |ops|
  {
    if ops != [] {
      var before := ops[..|ops| - 1];
      match ops[|ops| - 1] {
        case Delete(b) =>
          RunIsDistinct(before);
          WithoutOneMore(Run(before), b.id, deleted);
          NewestOfHistory(before, port, t, deleted + {b.id});
        case Add(b) =>
          NewestOfHistory(before, port, t, deleted);
          assert ([b] + Run(before))[1..] == Run(before);
      }
    }
  }

  /** After any history, the block that a search finds is the most recently added
      one of that connection on that port that is still there. */
  lemma NewestIsLastAdded(ops: seq<Op>, port: nat, t: Tuple)
    requires Proper(ops)
    ensures Newest(Run(ops), port, t) == LastAdded(ops, port, t, {})
  {
    WithoutNone(Run(ops));
    NewestOfHistory(ops, port, t, {});
  }

  // ----- walking

  /** The blocks in count buckets from the first on, bucket by bucket. */
  function Gather(blocks: seq<Block>, first: nat, count: nat): seq<Block>
    decreases count
  {
    if count == 0 then [] else Gather(blocks, first, count - 1) + InBucket(blocks, first + count - 1)
  }

  /** The order in which tlkp_walk_v4 meets the blocks of a port. */
  function PortOrder(blocks: seq<Block>, port: nat): seq<Block> {
    Gather(blocks, port * BUCKET_SIZE, BUCKET_SIZE)
  }

  lemma {:induction false} InBucketMembers(blocks: seq<Block>, i: nat, b: Block)
    ensures b in InBucket(blocks, i) <==> b in blocks && BlockBucket(b) == i
  {
    if blocks != [] {
      InBucketMembers(blocks[1..], i, b);
    }
  }

  lemma {:induction false} InBucketIsDistinct(blocks: seq<Block>, i: nat)
    requires DistinctIds(blocks)
    ensures DistinctIds(InBucket(blocks, i))
  {
    if blocks != [] {
      InBucketIsDistinct(blocks[1..], i);
      var r := InBucket(blocks[1..], i);
      forall k | 0 <= k < |r|
        ensures r[k].id != blocks[0].id
      {
        InBucketMembers(blocks[1..], i, r[k]);
      }
    }
  }

  lemma {:induction false} GatherMembers(blocks: seq<Block>, first: nat, n: nat, b: Block)
    ensures b in Gather(blocks, first, n) <==> b in blocks && first <= BlockBucket(b) < first + n
    decreases n
  {
    if n > 0 {
      GatherMembers(blocks, first, n - 1, b);
      InBucketMembers(blocks, first + n - 1, b);
    }
  }

  lemma SameIdSameBlock(blocks: seq<Block>, b: Block, c: Block)
    requires DistinctIds(blocks) && b in blocks && c in blocks && b.id == c.id
    ensures b == c
  {
  }

  lemma {:induction false} GatherIsDistinct(blocks: seq<Block>, first: nat, n: nat)
    requires DistinctIds(blocks)
    ensures DistinctIds(Gather(blocks, first, n))
    decreases n
  {
    if n > 0 {
      var a, b := Gather(blocks, first, n - 1), InBucket(blocks, first + n - 1);
      GatherIsDistinct(blocks, first, n - 1);
      InBucketIsDistinct(blocks, first + n - 1);
      forall i, j | 0 <= i < |a| && 0 <= j < |b|
        ensures a[i].id != b[j].id
      {
        GatherMembers(blocks, first, n - 1, a[i]);
        InBucketMembers(blocks, first + n - 1, b[j]);
        if a[i].id == b[j].id {
          SameIdSameBlock(blocks, a[i], b[j]);
        }
      }
    }
  }

  /** The walk meets every block of the port exactly once, and no other. */
  lemma WalkMeetsEachOnce(blocks: seq<Block>, port: nat, b: Block)
    requires DistinctIds(blocks)
    ensures b in PortOrder(blocks, port) <==> b in blocks && b.port == port
    ensures DistinctIds(PortOrder(blocks, port))
  {
    GatherMembers(blocks, port * BUCKET_SIZE, BUCKET_SIZE, b);
    GatherIsDistinct(blocks, port * BUCKET_SIZE, BUCKET_SIZE);
  }

  lemma {:induction false} WithoutLast(blocks: seq<Block>, id: nat, ids: set<nat>)
    requires DistinctIds(blocks)
    ensures Without(WithoutAll(blocks, ids), id) == WithoutAll(blocks, ids + {id})
  {
    if blocks != [] {
      if blocks[0].id == id && id !in ids {
        WithoutAbsent(blocks[1..], id, ids);
      } else {
        WithoutLast(blocks[1..], id, ids);
      }
    }
  }

  lemma {:induction false} WithoutAllMembers(blocks: seq<Block>, ids: set<nat>, b: Block)
    ensures b in WithoutAll(blocks, ids) <==> b in blocks && b.id !in ids
  {
    if blocks != [] {
      WithoutAllMembers(blocks[1..], ids, b);
    }
  }

  lemma {:induction false} BucketUntouched(blocks: seq<Block>, ids: set<nat>, i: nat)
    requires forall k :: 0 <= k < |blocks| && BlockBucket(blocks[k]) == i ==> blocks[k].id !in ids
    ensures InBucket(WithoutAll(blocks, ids), i) == InBucket(blocks, i)
  {
    if blocks != [] {
      BucketUntouched(blocks[1..], ids, i);
    }
  }

  /** The ids of the blocks that the callback unlinks. */
  function Unlinked(visited: seq<Block>, unlink: Block -> bool): set<nat> {
    set b | b in visited && unlink(b) :: b.id
  }

  /** What was visited are blocks of earlier buckets. */
  ghost predicate Behind(visited: seq<Block>, blocks: seq<Block>, i: nat) {
    forall b :: b in visited ==> BlockBucket(b) < i && b in blocks
  }

  /** n buckets were walked to their end; before is what the table held at the start and
      blocks what it holds now. */
  ghost predicate Walked(before: seq<Block>, first: nat, n: nat, visited: seq<Block>, blocks: seq<Block>,
                         unlink: Block -> bool, more: Block -> bool) {
    && DistinctIds(before) && visited == Gather(before, first, n) && AllMore(visited, more)
    && blocks == WithoutAll(before, Unlinked(visited, unlink))
  }

  lemma StartsWalked(blocks: seq<Block>, first: nat, unlink: Block -> bool, more: Block -> bool)
    requires DistinctIds(blocks)
    ensures Walked(blocks, first, 0, [], blocks, unlink, more)
  {
    WithoutNone(blocks);
    assert Unlinked([], unlink) == {};
  }

  lemma GatheredAreBehind(blocks: seq<Block>, first: nat, n: nat)
    ensures Behind(Gather(blocks, first, n), blocks, first + n)
  {
    forall b | b in Gather(blocks, first, n)
      ensures BlockBucket(b) < first + n && b in blocks
    {
      GatherMembers(blocks, first, n, b);
    }
  }

  predicate AllMore(visited: seq<Block>, more: Block -> bool) {
    forall b :: b in visited ==> more(b)
  }

  lemma AllMoreHead(a: seq<Block>, more: Block -> bool)
    requires a != []
    ensures AllMore(a, more) <==> more(a[0]) && AllMore(a[1..], more)
  {
    assert a == [a[0]] + a[1..];
  }

  /** The part of a walk up to the first block at which the callback ends it. */
  function UpTo(order: seq<Block>, more: Block -> bool): seq<Block> {
    if order == [] then []
    else if more(order[0]) then [order[0]] + UpTo(order[1..], more)
    else [order[0]]
  }

  lemma {:induction false} UpToJoin(a: seq<Block>, b: seq<Block>, more: Block -> bool)
    ensures UpTo(a + b, more) == if AllMore(a, more) then a + UpTo(b, more) else UpTo(a, more)
  {
    if a == [] {
      assert a + b == b;
    } else {
      var x, rest := a[0], a[1..];
      HeadAndRest(a, b);
      AllMoreHead(a, more);
      UpToHead(x, rest, more);
      UpToHead(x, rest + b, more);
      UpToJoin(rest, b, more);
      HeadAndRest([x] + rest, UpTo(b, more));
    }
  }

  lemma HeadAndRest(a: seq<Block>, b: seq<Block>)
    requires a != []
    ensures a == [a[0]] + a[1..] && a + b == [a[0]] + (a[1..] + b)
  {
  }

  lemma UpToAll(a: seq<Block>, more: Block -> bool)
    requires AllMore(a, more)
    ensures UpTo(a, more) == a
  {
    UpToJoin(a, [], more);
    assert a + [] == a;
  }

  lemma UpToStops(chain: seq<Block>, j: nat, more: Block -> bool)
    requires j < |chain| && AllMore(chain[..j], more)
    ensures chain[..j + 1] == chain[..j] + [chain[j]]
    ensures if more(chain[j]) then AllMore(chain[..j + 1], more)
            else !AllMore(chain, more) && UpTo(chain, more) == chain[..j + 1]
  {
    ThreeParts(chain, j);
    UpToStopsAt(chain[..j], chain[j], chain[j + 1..], more);
  }

  lemma ThreeParts(chain: seq<Block>, j: nat)
    requires j < |chain|
    ensures chain == chain[..j] + ([chain[j]] + chain[j + 1..])
    ensures chain[..j + 1] == chain[..j] + [chain[j]]
  {
  }

  lemma UpToStopsAt(a: seq<Block>, x: Block, rest: seq<Block>, more: Block -> bool)
    requires AllMore(a, more)
    ensures more(x) ==> AllMore(a + [x], more)
    ensures !more(x) ==> !AllMore(a + ([x] + rest), more) && UpTo(a + ([x] + rest), more) == a + [x]
  {
    UpToJoin(a, [x] + rest, more);
    UpToHead(x, rest, more);
    AllMoreNext(a, x, more);
    assert (a + ([x] + rest))[|a|] == x;
  }

  lemma UpToHead(x: Block, rest: seq<Block>, more: Block -> bool)
    ensures UpTo([x] + rest, more) == if more(x) then [x] + UpTo(rest, more) else [x]
  {
    assert ([x] + rest)[1..] == rest;
  }

  lemma AllMoreNext(a: seq<Block>, x: Block, more: Block -> bool)
    ensures AllMore(a + [x], more) <==> AllMore(a, more) && more(x)
  {
    assert forall b :: b in a + [x] <==> b in a || b == x;
  }

  /** A walk is ended by the callback, or goes on to the end. */
  lemma {:induction false} UpToMeans(order: seq<Block>, more: Block -> bool)
    ensures var r := UpTo(order, more);
            && r <= order
            && (forall k :: 0 <= k < |r| - 1 ==> more(r[k]))
            && (r == order || (r != [] && !more(r[|r| - 1])))
  {
    if order != [] {
      UpToMeans(order[1..], more);
    }
  }

  // ----- the table

  class Table {
    const ports: nat
    const buckets: array<seq<Block>>
    ghost var blocks: seq<Block>   // everything in the table, newest first

    constructor (ports: nat)
      ensures this.ports == ports && Valid() && blocks == [] && fresh(buckets)
    {
      this.ports := ports;
      buckets := new seq<Block>[ports * BUCKET_SIZE](_ => []);
      blocks := [];
    }

    ghost predicate Valid()
      reads this, buckets
    {
      && buckets.Length == ports * BUCKET_SIZE
      && DistinctIds(blocks) && (forall b :: b in blocks ==> b.port < ports)
      && forall i :: 0 <= i < buckets.Length ==> buckets[i] == InBucket(blocks, i)
    }

    lemma BucketExists(port: nat, hash: bv32)
      requires port < ports && buckets.Length == ports * BUCKET_SIZE
      ensures BucketOf(port, hash) < buckets.Length
    {
    }

    /** tlkp_find_v4_cb. The search compares hash, addresses and ports of the
        connection; the port it came in on is settled by the bucket. */
    method Find(port: nat, t: Tuple) returns (r: Option<Block>)
      requires Valid() && port < ports
      ensures r == Newest(blocks, port, t)
    {
      BucketExists(port, t.hash);
      NewestInBucket(blocks, port, t);
      var bucket := buckets[BucketOf(port, t.hash)];
      var k := 0;
      while k < |bucket| && bucket[k].tuple != t
        invariant k <= |bucket| && Newest(bucket[k..], port, t) == Newest(blocks, port, t)
      {
        assert bucket[k..][1..] == bucket[k + 1..];
        k := k + 1;
      }
      if k < |bucket| {
        BucketHasItsPort(blocks, port, t.hash, k);
        return Some(bucket[k]);
      }
      r := None;
    }

    /** tlkp_add_cb: insert at the head of the bucket. */
    method Insert(b: Block)
      requires Valid() && b.port < ports && forall c :: c in blocks ==> c.id != b.id
      modifies this, buckets
      ensures Valid() && blocks == [b] + old(blocks)
    {
      BucketExists(b.port, b.tuple.hash);
      AddedInFront(blocks, b);
      var i := BlockBucket(b);
      buckets[i] := [b] + buckets[i];
      blocks := [b] + blocks;
    }

    /** tlkp_delete_cb: unlink the block from the list it is in. */
    method Remove(b: Block)
      requires Valid() && b in blocks
      modifies this, buckets
      ensures Valid() && blocks == Without(old(blocks), b.id)
    {
      BucketExists(b.port, b.tuple.hash);
      WithoutKeepsDistinct(blocks, b.id);
      forall i | 0 <= i < buckets.Length
        ensures InBucket(Without(blocks, b.id), i)
                == if i == BlockBucket(b) then Without(InBucket(blocks, i), b.id) else InBucket(blocks, i)
      {
        InBucketWithout(blocks, b, i);
      }
      var i := BlockBucket(b);
      buckets[i] := Without(buckets[i], b.id);
      blocks := Without(blocks, b.id);
    }

    /** Whole histories on an empty table: a search finds the most recently added block
        of the connection on the port that is still there. */
    method ReplayAndFind(ops: seq<Op>, port: nat, t: Tuple) returns (r: Option<Block>)
      requires Valid() && blocks == [] && port < ports
      requires Proper(ops) && forall k :: 0 <= k < |ops| ==> ops[k].b.port < ports
      modifies this, buckets
      ensures Valid() && blocks == Run(ops)
      ensures r == LastAdded(ops, port, t, {})
    {
      Replay(ops);
      NewestIsLastAdded(ops, port, t);
      r := Find(port, t);
    }

    method Replay(ops: seq<Op>)
      requires Valid() && blocks == []
      requires Proper(ops) && forall k :: 0 <= k < |ops| ==> ops[k].b.port < ports
      modifies this, buckets
      ensures Valid() && blocks == Run(ops)
    {
      var k := 0;
      while k < |ops|
        invariant k <= |ops| && Valid() && blocks == Run(ops[..k])
      {
        ReplayTurn(ops, k);
        match ops[k] {
          case Add(b) => Insert(b);
          case Delete(b) => Remove(b);
        }
        k := k + 1;
      }
      assert ops[..k] == ops;
    }

    /** tlkp_walk_v4 with a callback that may unlink the block it is given and may
        end the walk. What the callback unlinked is gone, and nothing else. */
    method Walk(port: nat, unlink: Block -> bool, more: Block -> bool) returns (visited: seq<Block>)
      requires Valid() && port < ports
      modifies this, buckets
      ensures Valid() && blocks == WithoutAll(old(blocks), Unlinked(visited, unlink))
      ensures visited == UpTo(PortOrder(old(blocks), port), more)
    {
      visited := WalkBuckets(port * BUCKET_SIZE, BUCKET_SIZE, unlink, more);
    }

    /** The buckets from first on. */
    method WalkBuckets(first: nat, count: nat, unlink: Block -> bool, more: Block -> bool)
      returns (visited: seq<Block>)
      requires Valid() && first + count <= buckets.Length
      modifies this, buckets
      ensures Valid() && blocks == WithoutAll(old(blocks), Unlinked(visited, unlink))
      ensures visited == UpTo(Gather(old(blocks), first, count), more)
    {
      ghost var before := blocks;
      var n: nat := 0;
      visited := [];
      StartsWalked(blocks, first, unlink, more);
      while n < count
        invariant n <= count && Valid() && Walked(before, first, n, visited, blocks, unlink, more)
      {
        var goOn;
        visited, goOn := WalkNext(first, n, visited, unlink, more, before, count);
        if !goOn {
          return;
        }
        n := n + 1;
      }
      UpToAll(visited, more);
    }

    /** The next bucket, after n of count. */
    method WalkNext(first: nat, n: nat, soFar: seq<Block>, unlink: Block -> bool, more: Block -> bool,
                    ghost before: seq<Block>, ghost count: nat)
      returns (visited: seq<Block>, goOn: bool)
      requires Valid() && n < count && first + count <= buckets.Length
      requires Walked(before, first, n, soFar, blocks, unlink, more)
      modifies this, buckets
      ensures Valid() && blocks == WithoutAll(before, Unlinked(visited, unlink))
      ensures goOn ==> Walked(before, first, n + 1, visited, blocks, unlink, more)
      ensures !goOn ==> visited == UpTo(Gather(before, first, count), more)
    {
      GatheredAreBehind(before, first, n);
      visited, goOn := WalkBucket(first + n, soFar, unlink, more, before);
      WalkTurn(before, first, n, count, more, soFar, visited, goOn);
    }

    /** One bucket. The next block is read before the callback runs, so the chain
        that is followed is the one from before the walk of the bucket. */
    method WalkBucket(i: nat, soFar: seq<Block>, unlink: Block -> bool, more: Block -> bool,
                      ghost before: seq<Block>)
      returns (visited: seq<Block>, goOn: bool)
      requires Valid() && i < buckets.Length && DistinctIds(before)
      requires blocks == WithoutAll(before, Unlinked(soFar, unlink))
      requires Behind(soFar, before, i)
      modifies this, buckets
      ensures Valid() && blocks == WithoutAll(before, Unlinked(visited, unlink))
      ensures visited == soFar + UpTo(InBucket(before, i), more)
      ensures goOn == AllMore(InBucket(before, i), more)
    {
      StartsUntouched(before, soFar, i, unlink);
      var chain := buckets[i];
      assert chain[..0] == [] && soFar + [] == soFar;
      visited := soFar;
      var j := 0;
      while j < |chain|
        invariant j <= |chain| && chain == InBucket(before, i) && AllMore(chain[..j], more)
        invariant Valid() && Visited(before, soFar, i, j, unlink, visited, blocks)
      {
        UpToStops(chain, j, more);
        visited := VisitBlock(chain[j], visited, unlink, before, soFar, i, j);
        j := j + 1;
        if !more(chain[j - 1]) {
          return visited, false;
        }
      }
      UpToAll(chain, more);
      goOn := true;
    }

    /** The callback on one block. */
    method VisitBlock(b: Block, seen: seq<Block>, unlink: Block -> bool,
                      ghost before: seq<Block>, ghost soFar: seq<Block>, ghost i: nat, ghost j: nat)
      returns (visited: seq<Block>)
      requires Valid() && Visited(before, soFar, i, j, unlink, seen, blocks)
      requires j < |InBucket(before, i)| && b == InBucket(before, i)[j]
      modifies this, buckets
      ensures Valid() && Visited(before, soFar, i, j + 1, unlink, visited, blocks)
    {
      Visits(before, soFar, i, j, unlink, seen, blocks);
      if unlink(b) {
        Remove(b);
      }
      visited := seen + [b];
    }
  }

  /** The first j blocks of bucket i were visited; blocks is what the table holds now. */
  ghost predicate Visited(before: seq<Block>, soFar: seq<Block>, i: nat, j: nat, unlink: Block -> bool,
                          visited: seq<Block>, blocks: seq<Block>) {
    && DistinctIds(before) && Behind(soFar, before, i) && j <= |InBucket(before, i)|
    && visited == soFar + InBucket(before, i)[..j]
    && blocks == WithoutAll(before, Unlinked(visited, unlink))
  }

  /** Block j of bucket i is still there when it is visited, and unlinking it or not
      gives what is left after the visit. */
  lemma Visits(before: seq<Block>, soFar: seq<Block>, i: nat, j: nat, unlink: Block -> bool,
               visited: seq<Block>, blocks: seq<Block>)
    requires Visited(before, soFar, i, j, unlink, visited, blocks) && j < |InBucket(before, i)|
    ensures var b := InBucket(before, i)[j];
            && b in blocks
            && Visited(before, soFar, i, j + 1, unlink, visited + [b], if unlink(b) then Without(blocks, b.id) else blocks)
  {
    var b := InBucket(before, i)[j];
    InBucketIsDistinct(before, i);
    NotYetUnlinked(before, soFar, i, j, unlink);
    WithoutAllMembers(before, Unlinked(visited, unlink), b);
    WithoutLast(before, b.id, Unlinked(visited, unlink));
    UnlinkedOneMore(visited, b, unlink);
  }

  lemma UnlinkedOneMore(visited: seq<Block>, b: Block, unlink: Block -> bool)
    ensures Unlinked(visited + [b], unlink)
            == if unlink(b) then Unlinked(visited, unlink) + {b.id} else Unlinked(visited, unlink)
  {
  }

  /** Nothing was unlinked yet from a bucket that the walk has not reached. */
  lemma StartsUntouched(before: seq<Block>, soFar: seq<Block>, i: nat, unlink: Block -> bool)
    requires DistinctIds(before) && Behind(soFar, before, i)
    ensures InBucket(WithoutAll(before, Unlinked(soFar, unlink)), i) == InBucket(before, i)
  {
    forall k | 0 <= k < |before| && BlockBucket(before[k]) == i
      ensures before[k].id !in Unlinked(soFar, unlink)
    {
    }
    BucketUntouched(before, Unlinked(soFar, unlink), i);
  }

  lemma NotYetUnlinked(before: seq<Block>, soFar: seq<Block>, i: nat, j: nat, unlink: Block -> bool)
    requires DistinctIds(before) && Behind(soFar, before, i)
    requires DistinctIds(InBucket(before, i)) && j < |InBucket(before, i)|
    ensures var chain := InBucket(before, i);
            chain[j] in before && chain[j].id !in Unlinked(soFar + chain[..j], unlink)
  {
    var chain := InBucket(before, i);
    InBucketMembers(before, i, chain[j]);
    forall b | b in soFar + chain[..j]
      ensures b.id != chain[j].id
    {
      if b in soFar {
        assert BlockBucket(b) != BlockBucket(chain[j]);
      }
    }
  }

  /** One bucket of the walk: either the walk goes on behind it, or it is where the
      walk through all m buckets ends. */
  lemma WalkTurn(blocks: seq<Block>, first: nat, n: nat, m: nat, more: Block -> bool,
                 soFar: seq<Block>, visited: seq<Block>, goOn: bool)
    requires n < m && soFar == Gather(blocks, first, n) && AllMore(soFar, more)
    requires visited == soFar + UpTo(InBucket(blocks, first + n), more)
    requires goOn == AllMore(InBucket(blocks, first + n), more)
    ensures goOn ==> visited == Gather(blocks, first, n + 1) && AllMore(visited, more)
    ensures !goOn ==> visited == UpTo(Gather(blocks, first, m), more)
  {
    var bucket := InBucket(blocks, first + n);
    if goOn {
      UpToAll(bucket, more);
    } else {
      GatherPrefix(blocks, first, n + 1, m);
      UpToInMiddle(soFar, bucket, Gather(blocks, first, m), more);
    }
  }

  /** A walk that ends in b, between a and the rest. */
  lemma UpToInMiddle(a: seq<Block>, b: seq<Block>, all: seq<Block>, more: Block -> bool)
    requires a + b <= all && AllMore(a, more) && !AllMore(b, more)
    ensures UpTo(all, more) == a + UpTo(b, more)
  {
    var rest := all[|a + b|..];
    assert all == a + (b + rest);
    UpToJoin(a, b + rest, more);
    UpToJoin(b, rest, more);
  }

  lemma {:induction false} GatherPrefix(blocks: seq<Block>, first: nat, n: nat, m: nat)
    requires n <= m
    ensures Gather(blocks, first, n) <= Gather(blocks, first, m)
    decreases m
  {
    if n < m {
      GatherPrefix(blocks, first, n, m - 1);
    }
  }
}
