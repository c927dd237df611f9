/** The burst queue that a core keeps for a port, src/tpg_pktloop.c. */
module TxQueue {

  const BURST := 128   // TPG_TX_BURST_SIZE

  datatype Mbuf = Mbuf(id: nat, pktLen: nat)

  /** What became of a packet: the driver took it, or it was freed. */
  datatype Outcome = Outcome(mbuf: Mbuf, sent: bool)

  function Packets(done: seq<Outcome>): seq<Mbuf> {
    if done == [] then [] else [done[0].mbuf] + Packets(done[1..])
  }

  /** The packets the driver took, in order. */
  function Sent(done: seq<Outcome>): seq<Mbuf> {
    if done == [] then []
    else if done[0].sent then [done[0].mbuf] + Sent(done[1..])
    else Sent(done[1..])
  }

  function Bytes(packets: seq<Mbuf>): nat {
    if packets == [] then 0 else packets[0].pktLen + Bytes(packets[1..])
  }

  /** A burst of which the driver takes the first packets. */
  function Burst(packets: seq<Mbuf>, taken: nat): seq<Outcome> {
    if packets == [] then []
    else [Outcome(packets[0], taken > 0)] + Burst(packets[1..], if taken > 0 then taken - 1 else 0)
  }

  lemma {:induction false} BytesJoin(a: seq<Mbuf>, b: seq<Mbuf>)
    ensures Bytes(a + b) == Bytes(a) + Bytes(b)
  {
    if a == [] {
      assert a + b == b;
    } else {
      assert (a + b)[1..] == a[1..] + b;
      BytesJoin(a[1..], b);
    }
  }

  lemma {:induction false} DoneJoin(a: seq<Outcome>, b: seq<Outcome>)
    ensures Packets(a + b) == Packets(a) + Packets(b) && Sent(a + b) == Sent(a) + Sent(b)
  {
    if a == [] {
      assert a + b == b;
    } else {
      var rest := a[1..];
      assert (a + b)[0] == a[0] && (a + b)[1..] == rest + b;
      DoneJoin(rest, b);
      assert [a[0].mbuf] + (Packets(rest) + Packets(b)) == Packets(a) + Packets(b);
      assert Sent(a) + Sent(b) == if a[0].sent then [a[0].mbuf] + (Sent(rest) + Sent(b)) else Sent(rest) + Sent(b);
    }
  }

  lemma {:induction false} BurstMeans(packets: seq<Mbuf>, taken: nat)
    requires taken <= |packets|
    ensures Packets(Burst(packets, taken)) == packets && Sent(Burst(packets, taken)) == packets[..taken]
  {
    if packets != [] {
      BurstMeans(packets[1..], if taken > 0 then taken - 1 else 0);
    }
  }

  lemma {:induction false} PacketsAreDone(done: seq<Outcome>)
    ensures |Packets(done)| == |done|
  {
    if done != [] {
      PacketsAreDone(done[1..]);
    }
  }

  lemma OneAdded(q: seq<Mbuf>, i: nat)
    requires i < |q|
    ensures Bytes(q[..i + 1]) == Bytes(q[..i]) + q[i].pktLen
  {
    assert q[..i + 1] == q[..i] + [q[i]];
    BytesJoin(q[..i], [q[i]]);
  }

  lemma OneTaken(q: seq<Mbuf>, i: nat, n: nat)
    requires i < n <= |q|
    ensures Bytes(q[i..n]) == q[i].pktLen + Bytes(q[i + 1..n])
  {
    assert q[i..n][1..] == q[i + 1..n];
  }

  lemma TwoParts(q: seq<Mbuf>, i: nat, n: nat)
    requires i <= n <= |q|
    ensures Bytes(q[..n]) == Bytes(q[..i]) + Bytes(q[i..n])
  {
    assert q[..n] == q[..i] + q[i..n];
    BytesJoin(q[..i], q[i..n]);
  }

  class Queue {
    const mbufs: array<Mbuf>
    var len: nat
    var sentPkts: nat
    var sentFailure: nat
    var sentBytes: nat
    ghost var accepted: seq<Mbuf>   // every packet given to Send
    ghost var done: seq<Outcome>    // what became of those that left the queue

    constructor ()
      ensures Valid() && fresh(mbufs) && accepted == []
    {
      mbufs := new Mbuf[BURST](_ => Mbuf(0, 0));
      len, sentPkts, sentFailure, sentBytes := 0, 0, 0, 0;
      accepted, done := [], [];
    }

    /** Each accepted packet was sent or freed once, in order, or waits in the queue;
        the counters agree. */
    ghost predicate Valid()
      reads this, mbufs
    {
      && mbufs.Length == BURST && len <= BURST
      && accepted == Packets(done) + mbufs[..len]
      && sentPkts == |Sent(done)| && sentBytes == Bytes(Sent(done))
      && sentPkts + sentFailure + len == |accepted|
    }

    /** pkt_flush_tx_q; the driver takes the first packets. The bytes of all packets
        are added first and those of the rest subtracted again. */
    method Flush(taken: nat)
      requires Valid() && taken <= len
      modifies this
      ensures Valid() && len == 0 && accepted == old(accepted)
      ensures done == old(done) + Burst(old(mbufs[..len]), taken)
    {
      if len == 0 {
        assert done == done + [];
        return;
      }
      var bytes := BytesSent(taken);
      BurstMeans(mbufs[..len], taken);
      DoneJoin(done, Burst(mbufs[..len], taken));
      BytesJoin(Sent(done), mbufs[..taken]);
      assert mbufs[..len][..taken] == mbufs[..taken];
      PacketsAreDone(done);
      done := done + Burst(mbufs[..len], taken);
      sentPkts := sentPkts + taken;
      sentFailure := sentFailure + (len - taken);
      sentBytes := sentBytes + bytes;
      len := 0;
    }

    method BytesSent(taken: nat) returns (bytes: nat)
      requires mbufs.Length == BURST && taken <= len <= BURST
      ensures bytes == Bytes(mbufs[..taken])
    {
      bytes := 0;
      var i := 0;
      while i < len
        invariant i <= len && bytes == Bytes(mbufs[..i])
      {
        OneAdded(mbufs[..], i);
        bytes := bytes + mbufs[i].pktLen;
        i := i + 1;
      }
      TwoParts(mbufs[..], taken, len);
      i := taken;
      while i < len
        invariant taken <= i <= len && bytes == Bytes(mbufs[..taken]) + Bytes(mbufs[i..len])
      {
        OneTaken(mbufs[..], i, len);
        bytes := bytes - mbufs[i].pktLen;
        i := i + 1;
      }
    }

    /** pkt_send: a full queue is flushed first. */
    method Send(mbuf: Mbuf, taken: nat)
      requires Valid() && taken <= len
      modifies this, mbufs
      ensures len == 1 + old(if len == BURST then 0 else len)
      ensures Valid() && accepted == old(accepted) + [mbuf]
      ensures done == if old(len) == BURST then old(done) + Burst(old(mbufs[..len]), taken) else old(done)
    {
      if len == BURST {
        Flush(taken);
      }
      mbufs[len] := mbuf;
      len := len + 1;
      accepted := accepted + [mbuf];
      assert mbufs[..len] == old(if len == BURST then [] else mbufs[..len]) + [mbuf];
    }
  }
}
