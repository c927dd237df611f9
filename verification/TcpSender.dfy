/** tcp_data_send, tcp_data_retrans and the retransmission queue as they run: on
    32-bit sequence numbers, with a walk over the mbufs of the queue, clones
    that can fail and a lower layer that can refuse a packet. */
module TcpSender {
  import opened Prelude
  import opened MbufBuilding
  import opened MbufChains
  import opened SequenceNumbers
  import T = Transmission

  /** A packet given to tcp_send_data_pkt. */
  datatype Packet = Packet(seqNo: u32, chain: Chain)

  datatype SendResult = Sent(bytes: nat) | NoMemory | TryAgain

  /** The packets carry the bytes of the segments at the words of their positions. */
  ghost predicate Carries(packets: seq<Packet>, segs: seq<T.Segment>) {
    && |packets| == |segs|
    && forall i :: 0 <= i < |segs| ==>
         packets[i].seqNo == Wrap(segs[i].pos) && Bytes(packets[i].chain) == segs[i].bytes
  }

  /** Linking data behind the queue and writing the new length. */
  lemma AppendJoins(queue: Chain, d: Chain, pktLen: int)
    requires d != []
    ensures var q := if queue == [] then d
                     else [queue[0].(nbSegs := queue[0].nbSegs + d[0].nbSegs)] + queue[1..] + d;
            q != [] && Bytes([q[0].(pktLen := pktLen)] + q[1..]) == Bytes(queue) + Bytes(d)
  {
    if queue == [] {
      BytesIgnoreLengths(d, pktLen, d[0].nbSegs);
    } else {
      var q := [queue[0].(nbSegs := queue[0].nbSegs + d[0].nbSegs)] + queue[1..] + d;
      assert q[1..] == queue[1..] + d;
      BytesOfConcat(queue[1..], d);
      BytesIgnoreLengths(q, pktLen, q[0].nbSegs);
    }
  }

  /** What the window leaves, as the code computes it. */
  lemma RoomOf(t: T.Snd, lim: T.Limits)
    requires T.Inv(t, lim)
    ensures 0 <= t.wnd < TWO_TO_THE_32
    ensures SegDiff(t.wnd, SegDiff(Wrap(t.nxt), Wrap(t.una))) == T.Room(t)
  {
    WordsEqualIff(t.nxt, t.una);
  }

  class Tcb {
    var sndUna: u32
    var sndNxt: u32
    var sndWnd: u32
    var mbufs: Chain       // tr_data_mbufs
    var totalSize: u32     // tr_total_size
    const lim: T.Limits

    constructor (lim: T.Limits)
      ensures this.lim == lim
    {
      this.lim := lim;
      sndUna, sndNxt, sndWnd, mbufs, totalSize := 0, 0, 0, [], 0;
    }

    ghost predicate Represents(s: T.Snd)
      reads this
    {
      T.Inv(s, lim) && Holds(s)
    }

    /** The fields stand for s, whatever its bounds. */
    ghost predicate Holds(s: T.Snd)
      reads this
    {
      && sndUna == Wrap(s.una) && sndNxt == Wrap(s.nxt) && sndWnd == s.wnd
      && Bytes(mbufs) == s.data && totalSize == |s.data|
    }

    /** tcp_data_store_send. */
    method StoreSend(d: Chain, ghost s: T.Snd) returns (stored: nat)
      requires Represents(s) && d != [] && d[0].pktLen == |Bytes(d)|
      modifies this
      ensures stored == if T.Stores(s, lim, Bytes(d)) then |Bytes(d)| else 0
      ensures Represents(if T.Stores(s, lim, Bytes(d)) then T.Store(s, Bytes(d)) else s)
    {
      if d[0].pktLen > Min(lim.maxBuf - totalSize, T.SEGS_PER_SEND * lim.mtu) {
        return 0;
      }
      AppendJoins(mbufs, d, totalSize + d[0].pktLen);
      if mbufs != [] {
        mbufs := [mbufs[0].(nbSegs := mbufs[0].nbSegs + d[0].nbSegs)] + mbufs[1..] + d;
      } else {
        mbufs := d;
      }
      totalSize := totalSize + d[0].pktLen;
      mbufs := [mbufs[0].(pktLen := totalSize)] + mbufs[1..];
      stored := d[0].pktLen;
    }

    /** tcp_data_get_unsent_size. */
    method GetUnsentSize(ghost s: T.Snd) returns (size: nat)
      requires Represents(s)
      ensures size == T.Unsent(s)
    {
      WordsEqualIff(s.nxt, s.una);
      if totalSize == 0 {
        return 0;
      }
      size := totalSize - SegDiff(sndNxt, sndUna);
    }

    /** tcp_data_get_unsent: the mbuf that holds the first unsent byte. */
    method GetUnsent(ghost s: T.Snd) returns (m: Chain, offset: nat)
      requires Represents(s) && T.Unsent(s) > 0
      ensures m != [] && offset < |m[0].data| && Bytes(m)[offset..] == s.data[T.InFlight(s)..]
      ensures SamePlace(mbufs, T.InFlight(s), m, offset)
    {
      var unsent := GetUnsentSize(s);
      var global := totalSize - unsent;
      m := mbufs;
      var walked: nat := 0;
      while |m[0].data| <= global - walked
        invariant walked <= global && m != [] && global < walked + |Bytes(m)|
        invariant Bytes(m)[global - walked..] == s.data[global..] && SamePlace(mbufs, global, m, global - walked)
        decreases |m|
      {
        walked := walked + |m[0].data|;
        m := m[1..];
      }
      offset := global - walked;
    }

    /** Lines 192-201: move the pointer behind a segment that was sent. */
    method SkipSent(segs: Chain, off: nat, len: nat) returns (m: Chain, offset: nat)
      requires segs != [] && off <= |segs[0].data| && off + len <= |Bytes(segs)|
      ensures m != [] && offset <= |m[0].data| && Bytes(m)[offset..] == Bytes(segs)[off + len..]
      ensures SamePlace(segs, off + len, m, offset)
    {
      m, offset := segs, off;
      var left := len;
      while offset + left > |m[0].data|
        invariant m != [] && offset <= |m[0].data| && 0 <= left && offset + left <= |Bytes(m)|
        invariant Bytes(m)[offset + left..] == Bytes(segs)[off + len..]
        invariant SamePlace(segs, off + len, m, offset + left)
        decreases |m|
      {
        left := left - (|m[0].data| - offset);
        offset, m := 0, m[1..];
      }
      offset := offset + left;
    }

    /** tcp_data_send_segment and the bookkeeping of lines 183-201: clone the next
        segLen bytes, hand them to the lower layer, and move on. */
    method SendSegment(pool: Mempool, linkTakes: bool, segs: Chain, segLen: nat, offset: nat, sseq: u32,
                       ghost data: seq<byte>, ghost at: int, ghost nxt: int)
      returns (sent: bool, p: Packet, nextSeq: u32, m: Chain, newOffset: nat)
      requires PointsAt(segs, offset, data) && segLen <= |data| && pool as object != this
      requires sseq == Wrap(at) && sndNxt == Wrap(nxt) && -TWO_TO_THE_32 < nxt - at < TWO_TO_THE_32
      modifies `sndNxt, pool
      ensures sent ==> segLen > 0 && p.seqNo == sseq && Bytes(p.chain) == data[..segLen]
      ensures sent ==> sndNxt == Wrap(if at == nxt then at + segLen else nxt)
      ensures sent ==> nextSeq == Wrap(at + segLen)
      ensures sent ==> PointsAt(m, newOffset, data[segLen..]) && SamePlace(segs, offset + segLen, m, newOffset)
      ensures !sent ==> sndNxt == old(sndNxt)
      ensures if sent then linkTakes
              else !linkTakes || segLen == 0 || pool.free < ClonesNeeded(segs, offset, segLen)
    {
      DataMoves(segs, offset, data, segLen);
      NxtWord(at, nxt, segLen);
      nextSeq, m, newOffset := Wrap(sseq + segLen), segs, offset;
      var clone := CloneSeg(pool, segs, segLen, offset);
      p := Packet(sseq, clone);
      sent := clone != [] && linkTakes;
      if sent {
        if sseq == sndNxt {
          sndNxt := Wrap(sndNxt + segLen);
        }
        m, newOffset := SkipSent(segs, offset, segLen);
      }
    }

    /** tcp_data_send_segments. link says which packets the lower layer takes; it
        takes those past its end. The k packets that got through carry the first
        k segments of the stretch, and only a failure leaves any out. */
    method SendSegments(pool: Mempool, link: seq<bool>, start: Chain, dataLen: nat, dataOffset: nat,
                        sseq: u32, ghost s: T.Snd, ghost from: int)
      returns (packets: seq<Packet>, ghost k: nat)
      requires T.Inv(s, lim) && sndNxt == Wrap(s.nxt) && pool as object != this
      requires s.una <= from && from + dataLen <= s.una + |s.data| && sseq == Wrap(from)
      requires dataLen > 0 ==> PointsAt(start, dataOffset, s.data[from - s.una..])
      modifies `sndNxt, pool
      ensures Carries(packets, T.Emit(s, from, dataLen, lim.mtu, k))
      ensures sndNxt == Wrap(T.Advance(s.nxt, T.Emit(s, from, dataLen, lim.mtu, k)))
      ensures Exhausts(lim, dataLen, start, dataOffset, link, pool.free, k)
    {
      packets := [];
      var failed := false;
      var segs, offset, seq_, left: nat := start, dataOffset, sseq, dataLen;
      ghost var g := Progress([], from, s.nxt, s.data[from - s.una..]);
      ghost var x := Stretch(from, dataLen, start, dataOffset);
      while |packets| <= T.SEGS_PER_SEND && left > 0 && !failed
        invariant |packets| <= T.SEGS_PER_SEND + 1 && Taken(link, |packets|)
        invariant AtTurn(s, lim, x, packets, g, left, seq_, sndNxt, segs, offset)
        invariant failed ==> left > 0 && Stops(lim, link, pool.free, |packets|, segs, offset, left)
        decreases left, !failed
      {
        packets, failed, left, seq_, segs, offset, g :=
          SendTurn(pool, link, packets, left, seq_, segs, offset, s, x, g);
      }
      k := |packets|;
      LastTurn(s, lim, x, packets, g, left, seq_, sndNxt, segs, offset, link, pool.free);
    }

    /** One turn of the loop. */
    method SendTurn(pool: Mempool, link: seq<bool>, before: seq<Packet>, leftBefore: nat, sseq: u32, segs: Chain,
                    offset: nat, ghost s: T.Snd, ghost x: Stretch, ghost g: Progress)
      returns (packets: seq<Packet>, failed: bool, left: nat, nextSeq: u32, m: Chain, newOffset: nat, ghost h: Progress)
      requires T.Inv(s, lim) && pool as object != this && x.In(s) && leftBefore > 0
      requires AtTurn(s, lim, x, before, g, leftBefore, sseq, sndNxt, segs, offset)
      modifies `sndNxt, pool
      ensures AtTurn(s, lim, x, packets, h, left, nextSeq, sndNxt, m, newOffset)
      ensures if failed then packets == before && left == leftBefore
                             && Stops(lim, link, pool.free, |packets|, m, newOffset, left)
              else |packets| == |before| + 1 && left < leftBefore && Takes(link, |before|)
    {
      packets, left, nextSeq, m, newOffset, h := before, leftBefore, sseq, segs, offset, g;
      ghost var nxt := sndNxt;
      var segLen: nat := Min(leftBefore, lim.mtu);
      var takes := |before| >= |link| || link[|before|];
      TurnFits(s, lim, x, before, g, leftBefore, sseq, sndNxt, segs, offset);
      var sent, p, seq_, n, o := SendSegment(pool, takes, segs, segLen, offset, sseq, g.rest, g.at, g.nxt);
      failed := !sent;
      if sent {
        NextTurn(s, lim, x, before, g, leftBefore, sseq, nxt, segs, offset, p, segLen, seq_, sndNxt, n, o);
        packets, left, nextSeq, m, newOffset, h := before + [p], leftBefore - segLen, seq_, n, o, Further(g, segLen);
      }
    }

    /** tcp_data_send, for any data and any failures on the way. */
    method DataSend(pool: Mempool, link: seq<bool>, d: Chain, dataLen: nat, push: bool, ghost s: T.Snd)
      returns (r: SendResult, packets: seq<Packet>, ghost k: nat)
      requires Represents(s) && d != [] && d[0].pktLen == |Bytes(d)| && pool as object != this
      modifies this, pool
      ensures Represents(T.AfterSend(s, lim, Bytes(d), push, k))
      ensures Carries(packets, T.SendSegs(s, lim, Bytes(d), push, k))
      ensures T.SendsNothing(s, lim, Bytes(d), push, T.SEGS_PER_SEND + 1)
              || var t := T.Store(s, Bytes(d));
                 Exhausts(lim, T.Offered(t, lim, push), mbufs, T.InFlight(t), link, pool.free, k)
      ensures r == if Bytes(d) == [] || !T.Stores(s, lim, Bytes(d)) then NoMemory
                   else if dataLen == |Bytes(d)| then Sent(|Bytes(d)|)
                   else TryAgain
    {
      packets, k := [], 0;
      var stored := StoreSend(d, s);
      if stored == 0 {
        return NoMemory, packets, k;
      }
      packets, k := SendUnsent(pool, link, push, T.Store(s, Bytes(d)));
      r := if dataLen == stored then Sent(stored) else TryAgain;
    }

    /** Lines 234-250: offer what the window allows of the unsent bytes. */
    method SendUnsent(pool: Mempool, link: seq<bool>, push: bool, ghost t: T.Snd)
      returns (packets: seq<Packet>, ghost k: nat)
      requires Represents(t) && T.Unsent(t) > 0 && pool as object != this
      modifies `sndNxt, pool
      ensures (!push && T.Unsent(t) < lim.mtu)
              || Exhausts(lim, T.Offered(t, lim, push), mbufs, T.InFlight(t), link, pool.free, k)
      ensures Carries(packets, T.Emit(t, t.nxt, T.Offered(t, lim, push), lim.mtu, k))
      ensures Represents(t.(nxt := T.Advance(t.nxt, T.Emit(t, t.nxt, T.Offered(t, lim, push), lim.mtu, k))))
    {
      packets, k := [], 0;
      var unsentSize := GetUnsentSize(t);
      if !push && unsentSize < lim.mtu {
        return;
      }
      RoomOf(t, lim);
      var room := SegDiff(sndWnd, SegDiff(sndNxt, sndUna));
      var offered: nat := Min(unsentSize, room);
      var dataToSend, dataOffset := GetUnsent(t);
      packets, k := SendSegments(pool, link, dataToSend, offered, dataOffset, sndNxt, t, t.nxt);
      ExhaustsThere(lim, offered, mbufs, T.InFlight(t), dataToSend, dataOffset, link, pool.free, k);
      T.EmitIsSound(t, t.nxt, offered, lim.mtu, k, t.nxt);
    }

    /** tcp_data_retrans. */
    method DataRetrans(pool: Mempool, link: seq<bool>, ghost s: T.Snd)
      returns (packets: seq<Packet>, ghost k: nat)
      requires Represents(s) && pool as object != this
      modifies this, pool
      ensures Represents(T.AfterRetrans(s, lim, k))
      ensures Carries(packets, T.RetransSegs(s, lim, k))
      ensures Exhausts(lim, Min(|s.data|, s.wnd), mbufs, 0, link, pool.free, k)
    {
      packets, k := [], 0;
      if mbufs == [] {
        return;
      }
      assert s.data[s.una - s.una..] == s.data;
      packets, k := SendSegments(pool, link, mbufs, Min(totalSize, sndWnd), 0, sndUna, s, s.una);
      T.EmitIsSound(s, s.una, Min(|s.data|, s.wnd), lim.mtu, k, s.nxt);
    }

    /** The part of the handling of a segment that looks at its acknowledgement,
        lines 1356-1360 of src/tpg_tcp_sm.c. */
    method HandleAck(segAck: u32, ghost s: T.Snd)
      requires Represents(s) && lim.maxBuf < TWO_TO_THE_31
      modifies this
      ensures Represents(if T.AckPasses(s, segAck) then T.AfterAck(s, T.Acked(s, segAck)) else s)
    {
      if SegGT(segAck, sndUna) && SegLE(segAck, sndNxt) {
        T.PassedAckKeepsInv(s, lim, segAck);
        T.AckIsAhead(s.una, segAck);
        CleanupRetransQueue(segAck, s, T.Acked(s, segAck));
      } else {
        if T.AckPasses(s, segAck) {
          OldAckIsNothing(s, segAck);
        }
      }
    }

    /** tsm_cleanup_retrans_queu, src/tpg_tcp_sm.c, for any word: n bytes are newly
        acknowledged. */
    method CleanupRetransQueue(segAck: u32, ghost s: T.Snd, ghost n: nat)
      requires Holds(s) && n < TWO_TO_THE_32 && segAck == Wrap(s.una + n)
      modifies this
      ensures Holds(T.AfterAck(s, n))
    {
      WordsEqualIff(s.una + n, s.una);
      var ackedBytes: nat := SegDiff(segAck, sndUna);
      if ackedBytes == 0 || totalSize < ackedBytes {
        return;
      }
      totalSize := totalSize - ackedBytes;
      var queue := DropAcked(mbufs, ackedBytes);
      mbufs := queue;
      sndUna := segAck;
    }
  }

  /** An acknowledgement that passes without being new is for SND.UNA itself. */
  lemma OldAckIsNothing(s: T.Snd, segAck: u32)
    requires T.AckPasses(s, segAck) && !SegGT(segAck, Wrap(s.una))
    ensures T.AfterAck(s, T.Acked(s, segAck)) == s
  {
    assert s.data[0..] == s.data;
  }

  /** Lines 283-308 of src/tpg_tcp_sm.c. */
  method DropAcked(mbufs: Chain, acked: nat) returns (queue: Chain)
    requires acked <= |Bytes(mbufs)|
    ensures Bytes(queue) == Bytes(mbufs)[acked..]
  {
    queue := mbufs;
    var ackedBytes: nat := acked;
    while ackedBytes > 0 && ackedBytes >= |queue[0].data|
      invariant ackedBytes <= |Bytes(queue)| && Bytes(queue)[ackedBytes..] == Bytes(mbufs)[acked..]
      decreases |queue|
    {
      var mbuf := queue[0];
      ackedBytes := ackedBytes - |mbuf.data|;
      queue := queue[1..];
      if queue != [] {
        BytesIgnoreLengths(queue, mbuf.pktLen - |mbuf.data|, queue[0].nbSegs);
        queue := [queue[0].(pktLen := mbuf.pktLen - |mbuf.data|)] + queue[1..];
      }
    }
    if ackedBytes > 0 {
      AdjDropsBytes(queue, ackedBytes);
      queue := AdjChain(queue, ackedBytes);
    }
    if queue != [] && |queue[0].data| == 0 {
      queue := queue[1..];
    }
  }

  /** How far the send loop is: the segments sent, the position of the next one,
      SND.NXT, and the bytes still to be sent. */
  datatype Progress = Progress(done: seq<T.Segment>, at: int, nxt: int, rest: seq<byte>)

  ghost predicate InProgress(s: T.Snd, lim: T.Limits, from: int, len: nat, k: nat, g: Progress)
    requires s.una <= from && from + len <= s.una + |s.data|
  {
    && |g.done| == k && from <= g.at <= from + len && T.Steps(s, from, from + len, lim.mtu, g.done, g.at)
    && g.nxt == T.Advance(s.nxt, g.done) && s.una <= g.nxt <= s.una + |s.data|
    && g.rest == s.data[g.at - s.una..]
  }

  ghost function Further(g: Progress, n: nat): Progress
    requires n <= |g.rest|
  {
    Progress(g.done + [T.Segment(g.at, g.rest[..n])], g.at + n,
             if g.at == g.nxt then g.at + n else g.nxt, g.rest[n..])
  }

  /** What one turn of the send loop adds. */
  lemma ProgressTurn(s: T.Snd, lim: T.Limits, from: int, len: nat, k: nat, g: Progress, n: nat)
    requires T.Inv(s, lim) && s.una <= from && from + len <= s.una + |s.data|
    requires InProgress(s, lim, from, len, k, g) && 0 < n == Min(from + len - g.at, lim.mtu)
    ensures n <= |g.rest| && InProgress(s, lim, from, len, k + 1, Further(g, n))
  {
    var e := T.SegmentAt(s, g.at, n);
    FurtherIs(s, g, n);
    T.StepsNext(s, from, from + len, lim.mtu, g.done, g.at, e);
  }

  lemma FurtherIs(s: T.Snd, g: Progress, n: nat)
    requires s.una <= g.at && g.at + n <= s.una + |s.data| && g.rest == s.data[g.at - s.una..]
    requires g.nxt == T.Advance(s.nxt, g.done) && n > 0
    ensures n <= |g.rest|
    ensures var h := Further(g, n);
            && h.done == g.done + [T.SegmentAt(s, g.at, n)] && h.rest == s.data[h.at - s.una..]
            && h.nxt == T.Advance(s.nxt, h.done)
  {
    SliceMoves(s.data, g.at - s.una, n);
    T.AdvanceSnoc(s.nxt, g.done, T.SegmentAt(s, g.at, n));
  }

  /** What is to be sent: len stored bytes at position from, which begin at byte offset
      of a chain. */
  datatype Stretch = Stretch(from: int, len: nat, start: Chain, offset: nat) {
    ghost predicate In(s: T.Snd) {
      && s.una <= from && from + len <= s.una + |s.data|
      && (len > 0 ==> PointsAt(start, offset, s.data[from - s.una..]))
    }
  }

  /** What the send loop has sent, and the bytes that the next segment starts with. */
  ghost predicate Sends(s: T.Snd, lim: T.Limits, from: int, len: nat, packets: seq<Packet>, g: Progress,
                        left: nat, seqWord: u32, nxtWord: u32)
    requires s.una <= from && from + len <= s.una + |s.data|
  {
    && Carries(packets, g.done) && InProgress(s, lim, from, len, |packets|, g)
    && left == from + len - g.at && seqWord == Wrap(g.at) && nxtWord == Wrap(g.nxt)
  }

  /** The state of the send loop. */
  ghost predicate AtTurn(s: T.Snd, lim: T.Limits, x: Stretch, packets: seq<Packet>, g: Progress,
                         left: nat, seqWord: u32, nxtWord: u32, segs: Chain, offset: nat)
    requires x.In(s)
  {
    && Sends(s, lim, x.from, x.len, packets, g, left, seqWord, nxtWord)
    && (left > 0 ==> Placed(x, g, segs, offset))
  }

  /** The chain has the bytes to come at the offset, in the same mbufs as the start. */
  ghost predicate Placed(x: Stretch, g: Progress, segs: Chain, offset: nat) {
    g.at >= x.from && PointsAt(segs, offset, g.rest) && SamePlace(x.start, x.offset + (g.at - x.from), segs, offset)
  }

  lemma TurnFits(s: T.Snd, lim: T.Limits, x: Stretch, packets: seq<Packet>, g: Progress,
                 left: nat, seqWord: u32, nxtWord: u32, segs: Chain, offset: nat)
    requires T.Inv(s, lim) && x.In(s) && left > 0
    requires AtTurn(s, lim, x, packets, g, left, seqWord, nxtWord, segs, offset)
    ensures left <= |g.rest| && -TWO_TO_THE_32 < g.nxt - g.at < TWO_TO_THE_32
    ensures seqWord == Wrap(g.at) && nxtWord == Wrap(g.nxt) && PointsAt(segs, offset, g.rest)
  {
  }

  lemma SendsNext(s: T.Snd, lim: T.Limits, from: int, len: nat, packets: seq<Packet>, g: Progress,
                  left: nat, seqWord: u32, nxtWord: u32, p: Packet, n: nat, nextSeq: u32, nextNxt: u32)
    requires T.Inv(s, lim) && s.una <= from && from + len <= s.una + |s.data|
    requires Sends(s, lim, from, len, packets, g, left, seqWord, nxtWord)
    requires 0 < n == Min(left, lim.mtu) && n <= |g.rest|
    requires p.seqNo == seqWord && Bytes(p.chain) == g.rest[..n]
    requires nextSeq == Wrap(g.at + n) && nextNxt == Wrap(if g.at == g.nxt then g.at + n else g.nxt)
    ensures Sends(s, lim, from, len, packets + [p], Further(g, n), left - n, nextSeq, nextNxt)
  {
    ProgressTurn(s, lim, from, len, |packets|, g, n);
  }

  lemma NextTurn(s: T.Snd, lim: T.Limits, x: Stretch, packets: seq<Packet>, g: Progress,
                 left: nat, seqWord: u32, nxtWord: u32, segs: Chain, offset: nat,
                 p: Packet, n: nat, nextSeq: u32, nextNxt: u32, m: Chain, o: nat)
    requires T.Inv(s, lim) && x.In(s)
    requires AtTurn(s, lim, x, packets, g, left, seqWord, nxtWord, segs, offset)
    requires 0 < n == Min(left, lim.mtu) && n <= |g.rest|
    requires p.seqNo == seqWord && Bytes(p.chain) == g.rest[..n]
    requires nextSeq == Wrap(g.at + n) && nextNxt == Wrap(if g.at == g.nxt then g.at + n else g.nxt)
    requires PointsAt(m, o, g.rest[n..]) && SamePlace(segs, offset + n, m, o)
    ensures AtTurn(s, lim, x, packets + [p], Further(g, n), left - n, nextSeq, nextNxt, m, o)
  {
    SendsNext(s, lim, x.from, x.len, packets, g, left, seqWord, nxtWord, p, n, nextSeq, nextNxt);
    PlacedNext(s, x, g, segs, offset, n, m, o);
  }

  lemma PlacedNext(s: T.Snd, x: Stretch, g: Progress, segs: Chain, offset: nat, n: nat, m: Chain, o: nat)
    requires x.In(s) && x.from <= g.at && g.at + n <= x.from + x.len && n > 0
    requires g.rest == s.data[g.at - s.una..] && Placed(x, g, segs, offset)
    requires PointsAt(m, o, g.rest[n..]) && SamePlace(segs, offset + n, m, o)
    ensures Placed(x, Further(g, n), m, o)
  {
    SamePlaceOn(x.start, x.offset + (g.at - x.from), segs, offset, n);
  }

  /** The lower layer takes packet k, or the first k packets. */
  predicate Takes(link: seq<bool>, k: nat) {
    k < |link| ==> link[k]
  }

  ghost predicate Taken(link: seq<bool>, k: nat) {
    forall i :: 0 <= i < k ==> Takes(link, i)
  }

  /** What keeps the next segment of the bytes that are left from being sent: it would
      be empty, the lower layer refuses it, or its clone needs more mbufs than
      are free. */
  ghost predicate Stops(lim: T.Limits, link: seq<bool>, free: nat, k: nat, c: Chain, offset: int, left: int) {
    || lim.mtu == 0 || !Takes(link, k)
    || (var n := Min(left, lim.mtu);
        0 <= offset && 0 <= n && offset + n <= |Bytes(c)| && free < ClonesNeeded(c, offset, n))
  }

  /** How many of len bytes k segments carry. */
  function Carried(len: nat, mtu: nat, k: nat): int {
    Min(len, k * mtu)
  }

  /** The first k segments are all that can be sent of len bytes at an offset of a
      chain: the lower layer took them, and the limit is reached, nothing is left,
      or something stops the next one. */
  ghost predicate Exhausts(lim: T.Limits, len: nat, c: Chain, offset: nat, link: seq<bool>, free: nat, k: nat) {
    var n := Carried(len, lim.mtu, k);
    && k <= T.SEGS_PER_SEND + 1 && Taken(link, k)
    && (k == T.SEGS_PER_SEND + 1 || n == len || Stops(lim, link, free, k, c, offset + n, len - n))
  }

  /** What the loop has sent when it ends. */
  lemma LastTurn(s: T.Snd, lim: T.Limits, x: Stretch, packets: seq<Packet>, g: Progress,
                 left: nat, seqWord: u32, nxtWord: u32, segs: Chain, offset: nat, link: seq<bool>, free: nat)
    requires x.In(s) && AtTurn(s, lim, x, packets, g, left, seqWord, nxtWord, segs, offset)
    requires |packets| <= T.SEGS_PER_SEND + 1 && Taken(link, |packets|)
    requires |packets| == T.SEGS_PER_SEND + 1 || left == 0
             || Stops(lim, link, free, |packets|, segs, offset, left)
    ensures var done := T.Emit(s, x.from, x.len, lim.mtu, |packets|);
            Carries(packets, done) && nxtWord == Wrap(T.Advance(s.nxt, done))
    ensures Exhausts(lim, x.len, x.start, x.offset, link, free, |packets|)
  {
    StepsEnd(s, x.from, x.len, lim.mtu, g.done, g.at);
    LastStops(s, lim, x, g.at, left, segs, offset, link, free, |packets|);
  }

  lemma LastStops(s: T.Snd, lim: T.Limits, x: Stretch, at: int, left: nat, segs: Chain, offset: nat,
                  link: seq<bool>, free: nat, k: nat)
    requires x.In(s) && x.from <= at && left == x.from + x.len - at && at - x.from == Carried(x.len, lim.mtu, k)
    requires left > 0 ==> PointsAt(segs, offset, s.data[at - s.una..])
                          && SamePlace(x.start, x.offset + (at - x.from), segs, offset)
    requires k <= T.SEGS_PER_SEND + 1 && Taken(link, k)
    requires k == T.SEGS_PER_SEND + 1 || left == 0 || Stops(lim, link, free, k, segs, offset, left)
    ensures Exhausts(lim, x.len, x.start, x.offset, link, free, k)
  {
    if left > 0 {
      StopsThere(lim, link, free, k, x.start, x.offset + (at - x.from), segs, offset, left);
    }
  }

  lemma StepsEnd(s: T.Snd, from: int, len: nat, mtu: nat, done: seq<T.Segment>, at: int)
    requires s.una <= from && from + len <= s.una + |s.data| && T.Steps(s, from, from + len, mtu, done, at)
    ensures done == T.Emit(s, from, len, mtu, |done|) && at - from == Carried(len, mtu, |done|)
  {
    T.StepsAreEmitted(s, from, len, mtu, done, at);
    T.EmissionEnd(s, from, len, mtu, |done|);
  }

  /** What stops the next segment is the same on chains that have its bytes in the same
      place. */
  lemma StopsThere(lim: T.Limits, link: seq<bool>, free: nat, k: nat, c: Chain, o: nat, d: Chain, p: nat,
                   left: nat)
    requires SamePlace(c, o, d, p) && o + left <= |Bytes(c)| && p + left <= |Bytes(d)|
    ensures Stops(lim, link, free, k, c, o, left) <==> Stops(lim, link, free, k, d, p, left)
  {
    SamePlaceSameClones(c, o, d, p, Min(left, lim.mtu));
  }

  /** The same for the whole loop. */
  lemma ExhaustsThere(lim: T.Limits, len: nat, c: Chain, o: nat, d: Chain, p: nat, link: seq<bool>, free: nat, k: nat)
    requires SamePlace(c, o, d, p) && o + len <= |Bytes(c)| && |Bytes(d)| - p == |Bytes(c)| - o
    requires Exhausts(lim, len, d, p, link, free, k)
    ensures Exhausts(lim, len, c, o, link, free, k)
  {
    var n := Carried(len, lim.mtu, k);
    T.MulIsNat(k, lim.mtu);
    SamePlaceOn(c, o, d, p, n);
    StopsThere(lim, link, free, k, c, o + n, d, p + n, len - n);
  }

  lemma DataMoves(m: Chain, offset: nat, data: seq<byte>, n: nat)
    requires PointsAt(m, offset, data) && n <= |data|
    ensures Bytes(m)[offset..offset + n] == data[..n]
    ensures Bytes(m)[offset + n..] == data[n..]
  {
  }

  lemma SliceMoves(data: seq<byte>, i: nat, n: nat)
    requires i + n <= |data|
    ensures data[i..][..n] == data[i..i + n] && data[i..][n..] == data[i + n..]
  {
  }

  ghost predicate PointsAt(m: Chain, offset: nat, data: seq<byte>) {
    m != [] && offset <= |m[0].data| && Bytes(m)[offset..] == data
  }

  /** Line 183 on words: SND.NXT moves iff the segment starts at it. */
  lemma NxtWord(at: int, nxt: int, n: nat)
    requires -TWO_TO_THE_32 < nxt - at < TWO_TO_THE_32
    ensures Wrap(Wrap(at) + n) == Wrap(at + n)
    ensures Wrap(if at == nxt then at + n else nxt)
            == if Wrap(at) == Wrap(nxt) then Wrap(Wrap(nxt) + n) else Wrap(nxt)
  {
    WordsEqualIff(at, nxt);
    WrapOfSum(at, n);
  }
}
