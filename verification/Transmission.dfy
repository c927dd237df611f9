/** The send side of src/tpg_tcp_data.c over unbounded stream positions: one
    retransmission queue, of which a prefix has been sent, and the segments
    that sends and retransmissions put on the wire. */
module Transmission {
  import opened Prelude
  import opened Arithmetic
  import opened SequenceNumbers

  /** SND.UNA, SND.NXT, SND.WND and the stored bytes, the first at SND.UNA. */
  datatype Snd = Snd(una: int, nxt: int, wnd: nat, data: seq<byte>)

  /** The port MTU less the headers, and the send buffer limit of the socket. */
  datatype Limits = Limits(mtu: u32, maxBuf: u32)

  datatype Segment = Segment(pos: int, bytes: seq<byte>) {
    function End(): int {
      pos + |bytes|
    }
  }

  /** GCFG_TCP_SEGS_PER_SEND; the loop at line 173 sends one segment more. */
  const SEGS_PER_SEND := 1

  // ----- the code

  function InFlight(s: Snd): int {
    s.nxt - s.una
  }

  function Unsent(s: Snd): int {
    |s.data| - InFlight(s)
  }

  /** TCB_AVAIL_SEND. */
  function Available(s: Snd, lim: Limits): int {
    Min(lim.maxBuf - |s.data|, SEGS_PER_SEND * lim.mtu)
  }

  /** The segment with the n stored bytes at position at. */
  function SegmentAt(s: Snd, at: int, n: nat): (e: Segment)
    requires s.una <= at && at + n <= s.una + |s.data|
    ensures e.End() == at + n
  {
    Segment(at, s.data[at - s.una..at - s.una + n])
  }

  /** At most k segments that cut len stored bytes at position from into pieces
      of mtu bytes. k counts the segments that the mbuf pool and the lower
      layer let through. */
  function Emit(s: Snd, from: int, len: int, mtu: nat, k: nat): seq<Segment>
    requires s.una <= from && 0 <= len && from + len <= s.una + |s.data|
    decreases k
  {
    if k == 0 || len == 0 || mtu == 0 then []
    else
      var n := Min(len, mtu);
      [SegmentAt(s, from, n)] + Emit(s, from + n, len - n, mtu, k - 1)
  }

  /** Line 183: SND.NXT moves over a segment that starts at it. */
  function Advance(nxt: int, segs: seq<Segment>): int
    decreases |segs|
  {
    if segs == [] then nxt
    else Advance(if segs[0].pos == nxt then segs[0].End() else nxt, segs[1..])
  }

  predicate Stores(s: Snd, lim: Limits, d: seq<byte>) {
    |d| <= Available(s, lim)
  }

  function Store(s: Snd, d: seq<byte>): Snd {
    s.(data := s.data + d)
  }

  /** What the window leaves, lines 240-242, computed on words: a window below the
      bytes in flight makes it wrap around. */
  function Room(s: Snd): nat {
    Wrap(s.wnd - InFlight(s))
  }

  /** How much tcp_data_send offers to the network after storing. */
  function Offered(s: Snd, lim: Limits, push: bool): int {
    if !push && Unsent(s) < lim.mtu then 0 else Min(Unsent(s), Room(s))
  }

  /** tcp_data_send: the segments of one call, and the state after it. */
  function SendSegs(s: Snd, lim: Limits, d: seq<byte>, push: bool, k: nat): seq<Segment>
    requires Inv(s, lim)
  {
    if d == [] || !Stores(s, lim, d) then []
    else var t := Store(s, d); Emit(t, t.nxt, Offered(t, lim, push), lim.mtu, k)
  }

  function AfterSend(s: Snd, lim: Limits, d: seq<byte>, push: bool, k: nat): Snd
    requires Inv(s, lim)
  {
    if !Stores(s, lim, d) then s
    else Store(s, d).(nxt := Advance(s.nxt, SendSegs(s, lim, d, push, k)))
  }

  /** tcp_data_retrans. */
  function RetransSegs(s: Snd, lim: Limits, k: nat): seq<Segment>
    requires Inv(s, lim)
  {
    Emit(s, s.una, Min(|s.data|, s.wnd), lim.mtu, k)
  }

  function AfterRetrans(s: Snd, lim: Limits, k: nat): Snd
    requires Inv(s, lim)
  {
    s.(nxt := Advance(s.nxt, RetransSegs(s, lim, k)))
  }

  /** tsm_cleanup_retrans_queu, for n newly acknowledged bytes. */
  function AfterAck(s: Snd, n: nat): Snd {
    if n > |s.data| then s else s.(una := s.una + n, data := s.data[n..])
  }

  /** What its callers let through: SND.UNA =< SEG.ACK =< SND.NXT, on words. */
  predicate AckPasses(s: Snd, segAck: u32) {
    SegGE(segAck, Wrap(s.una)) && SegLE(segAck, Wrap(s.nxt))
  }

  function Acked(s: Snd, segAck: u32): nat {
    SegDiff(segAck, Wrap(s.una))
  }

  // ----- one step

  /** The bounds that hold whatever the peer does with the window. */
  predicate Inv(s: Snd, lim: Limits) {
    0 <= InFlight(s) <= |s.data| <= lim.maxBuf && s.wnd < TWO_TO_THE_32
  }

  predicate InWindow(s: Snd) {
    InFlight(s) <= s.wnd
  }

  /** The segment carries the stored bytes of its positions. */
  predicate Sound(una: int, data: seq<byte>, e: Segment) {
    && una <= e.pos && e.End() <= una + |data|
    && e.bytes == data[e.pos - una..e.End() - una]
  }

  ghost predicate AllSound(una: int, data: seq<byte>, segs: seq<Segment>) {
    forall i :: 0 <= i < |segs| ==> Sound(una, data, segs[i])
  }

  /** Everything ends by the position to. */
  ghost predicate EndBy(segs: seq<Segment>, to: int) {
    forall i :: 0 <= i < |segs| ==> segs[i].End() <= to
  }

  lemma EmitHeadTail(s: Snd, from: int, len: int, mtu: nat, k: nat)
    requires s.una <= from && 0 <= len && from + len <= s.una + |s.data|
    requires k > 0 && len > 0 && mtu > 0
    ensures var segs, n := Emit(s, from, len, mtu, k), Min(len, mtu);
            && segs[0] == SegmentAt(s, from, n)
            && segs[0].End() == from + n
            && segs[1..] == Emit(s, from + n, len - n, mtu, k - 1)
            && segs == [segs[0]] + segs[1..]
            && LastEnd(from, segs) == LastEnd(from + n, segs[1..])
            && (forall nxt :: Advance(nxt, segs) == Advance(if from == nxt then from + n else nxt, segs[1..]))
  {
  }

  lemma HeadIsSound(s: Snd, at: int, n: nat)
    requires s.una <= at && at + n <= s.una + |s.data|
    ensures Sound(s.una, s.data, SegmentAt(s, at, n))
  {
  }

  lemma SoundWithHead(una: int, data: seq<byte>, e: Segment, rest: seq<Segment>)
    requires Sound(una, data, e) && AllSound(una, data, rest)
    ensures AllSound(una, data, [e] + rest)
  {
  }

  lemma {:induction false} AdvanceIsPaced(from: int, to: int, segs: seq<Segment>, mtu: nat, nxt: int)
    requires Paced(from, to, segs, mtu)
    ensures nxt <= Advance(nxt, segs) <= Max(nxt, to)
    decreases |segs|
  {
    if segs != [] {
      AdvanceIsPaced(segs[0].End(), to, segs[1..], mtu, if segs[0].pos == nxt then segs[0].End() else nxt);
    }
  }

  lemma AdvanceIsBounded(s: Snd, from: int, len: int, mtu: nat, k: nat, nxt: int)
    requires s.una <= from && 0 <= len && from + len <= s.una + |s.data|
    ensures nxt <= Advance(nxt, Emit(s, from, len, mtu, k)) <= Max(nxt, from + len)
  {
    EmitIsPaced(s, from, len, mtu, k);
    AdvanceIsPaced(from, from + len, Emit(s, from, len, mtu, k), mtu, nxt);
  }

  lemma {:induction false} EmittedAreSound(s: Snd, from: int, len: int, mtu: nat, k: nat)
    requires s.una <= from && 0 <= len && from + len <= s.una + |s.data|
    ensures AllSound(s.una, s.data, Emit(s, from, len, mtu, k))
    decreases k
  {
    if !(k == 0 || len == 0 || mtu == 0) {
      var n := Min(len, mtu);
      var head, tail := SegmentAt(s, from, n), Emit(s, from + n, len - n, mtu, k - 1);
      assert Emit(s, from, len, mtu, k) == [head] + tail;
      HeadIsSound(s, from, n);
      EmittedAreSound(s, from + n, len - n, mtu, k - 1);
      SoundWithHead(s.una, s.data, head, tail);
    }
  }

  /** Cutting stored bytes emits sound segments and moves SND.NXT at most to the end of
      what was offered. */
  lemma EmitIsSound(s: Snd, from: int, len: int, mtu: nat, k: nat, nxt: int)
    requires s.una <= from && 0 <= len && from + len <= s.una + |s.data|
    ensures AllSound(s.una, s.data, Emit(s, from, len, mtu, k))
    ensures nxt <= Advance(nxt, Emit(s, from, len, mtu, k)) <= Max(nxt, from + len)
  {
    EmittedAreSound(s, from, len, mtu, k);
    AdvanceIsBounded(s, from, len, mtu, k, nxt);
  }

  /** Under any window, a send keeps the bounds and emits stored bytes. */
  lemma SendKeepsInv(s: Snd, lim: Limits, d: seq<byte>, push: bool, k: nat)
    requires Inv(s, lim)
    ensures Inv(AfterSend(s, lim, d, push, k), lim)
    ensures var t := AfterSend(s, lim, d, push, k);
            AllSound(t.una, t.data, SendSegs(s, lim, d, push, k))
  {
    if Stores(s, lim, d) {
      var t := Store(s, d);
      EmitIsSound(t, t.nxt, Offered(t, lim, push), lim.mtu, k, t.nxt);
    }
  }

  /** Under any window, a retransmission keeps the bounds, emits stored bytes, and
      stays within the window. */
  lemma RetransKeepsInv(s: Snd, lim: Limits, k: nat)
    requires Inv(s, lim)
    ensures Inv(AfterRetrans(s, lim, k), lim)
    ensures AllSound(s.una, s.data, RetransSegs(s, lim, k))
    ensures EndBy(RetransSegs(s, lim, k), s.una + s.wnd)
    ensures InWindow(AfterRetrans(s, lim, k)) <==> InWindow(s)
  {
    EmitIsSound(s, s.una, Min(|s.data|, s.wnd), lim.mtu, k, s.nxt);
    EmitIsContiguous(s, s.una, Min(|s.data|, s.wnd), lim.mtu, k);
  }

  lemma RoomWhenInWindow(s: Snd)
    requires 0 <= InFlight(s) <= s.wnd < TWO_TO_THE_32
    ensures Room(s) == s.wnd - InFlight(s)
  {
  }

  /** The data does not fit: it is more than a segment, or more than the buffer has
      room for. */
  predicate Refuses(s: Snd, lim: Limits, d: seq<byte>) {
    |d| > SEGS_PER_SEND * lim.mtu || |s.data| + |d| > lim.maxBuf
  }

  /** Nothing is stored, no segment gets through, or less than a segment is unsent. */
  predicate SendsNothing(s: Snd, lim: Limits, d: seq<byte>, push: bool, k: nat) {
    || d == [] || Refuses(s, lim, d) || k == 0 || lim.mtu == 0
    || (!push && |s.data| + |d| - InFlight(s) < lim.mtu)
  }

  /** What a send does: the data is appended whole or refused, and SND.NXT moves to
      the end of what goes out, which is all that is unsent, as far as the window
      and k segments reach. A window below the bytes in flight counts as one that
      is 2^32 larger. */
  lemma SendReaches(s: Snd, lim: Limits, d: seq<byte>, push: bool, k: nat)
    requires Inv(s, lim)
    ensures var t, segs := AfterSend(s, lim, d, push, k), SendSegs(s, lim, d, push, k);
            var wnd := if InFlight(s) <= s.wnd then s.wnd else s.wnd + TWO_TO_THE_32;
            && LastEnd(s.nxt, segs) == s.nxt + (if SendsNothing(s, lim, d, push, k) then 0
                                                else Min(Min(|s.data| + |d|, wnd) - InFlight(s), k * lim.mtu))
            && t == Snd(s.una, LastEnd(s.nxt, segs), s.wnd, if Refuses(s, lim, d) then s.data else s.data + d)
  {
    if d != [] && !Refuses(s, lim, d) {
      var t := Store(s, d);
      var len := Offered(t, lim, push);
      NxtAfterEmission(t, len, lim.mtu, k);
      MulIsNat(k, lim.mtu);
      RoomIs(t);
    } else {
      assert s.data + [] == s.data;
    }
  }

  lemma NxtAfterEmission(s: Snd, len: int, mtu: nat, k: nat)
    requires 0 <= InFlight(s) && 0 <= len && s.nxt + len <= s.una + |s.data|
    ensures var segs := Emit(s, s.nxt, len, mtu, k);
            Advance(s.nxt, segs) == LastEnd(s.nxt, segs) == s.nxt + Min(len, k * mtu)
  {
    EmissionEnd(s, s.nxt, len, mtu, k);
    EmitIsPaced(s, s.nxt, len, mtu, k);
    AdvanceToEnd(s.nxt, s.nxt + len, Emit(s, s.nxt, len, mtu, k), mtu);
  }

  lemma RoomIs(s: Snd)
    requires 0 <= InFlight(s) < TWO_TO_THE_32 && s.wnd < TWO_TO_THE_32
    ensures Room(s) == s.wnd - InFlight(s) + if InFlight(s) <= s.wnd then 0 else TWO_TO_THE_32
  {
  }

  /** SND.NXT moves along with segments that start at it. */
  lemma {:induction false} AdvanceToEnd(from: int, to: int, segs: seq<Segment>, mtu: nat)
    requires Paced(from, to, segs, mtu)
    ensures Advance(from, segs) == LastEnd(from, segs)
    decreases |segs|
  {
    if segs != [] {
      AdvanceToEnd(segs[0].End(), to, segs[1..], mtu);
    }
  }

  /** A send stays within the window if and only if the bytes in flight do, or it emits
      nothing: a window below them makes the offer a huge one. */
  lemma SendFitsWindowIff(s: Snd, lim: Limits, d: seq<byte>, push: bool, k: nat)
    requires Inv(s, lim)
    ensures EndBy(SendSegs(s, lim, d, push, k), s.una + s.wnd)
       <==> InWindow(s) || SendsNothing(s, lim, d, push, k)
    ensures InWindow(AfterSend(s, lim, d, push, k)) <==> InWindow(s)
  {
    if d != [] && Stores(s, lim, d) {
      var t := Store(s, d);
      AdvanceIsBounded(t, t.nxt, Offered(t, lim, push), lim.mtu, k, t.nxt);
      if InWindow(s) {
        RoomWhenInWindow(t);
        EmitIsContiguous(t, t.nxt, Offered(t, lim, push), lim.mtu, k);
      } else if !SendsNothing(s, lim, d, push, k) {
        OverrunsWindow(t, lim, push, k);
      }
    }
  }

  lemma OverrunsWindow(t: Snd, lim: Limits, push: bool, k: nat)
    requires Inv(t, lim) && !InWindow(t) && Unsent(t) > 0 && k > 0 && lim.mtu > 0 && (push || Unsent(t) >= lim.mtu)
    ensures !EndBy(Emit(t, t.nxt, Offered(t, lim, push), lim.mtu, k), t.una + t.wnd)
  {
    assert Room(t) == t.wnd - InFlight(t) + TWO_TO_THE_32;
    EmitHeadTail(t, t.nxt, Offered(t, lim, push), lim.mtu, k);
    assert Emit(t, t.nxt, Offered(t, lim, push), lim.mtu, k)[0].End() > t.una + t.wnd;
  }

  /** With two bytes in flight, the peer takes the window back to one; the next send
      still emits everything that is stored. */
  lemma ShrunkenWindowIsOverrun(s: Snd, lim: Limits, d: seq<byte>)
    requires s == Snd(0, 2, 1, [1, 2, 3]) && lim == Limits(10, 10) && d == [4]
    ensures Inv(s, lim) && s.wnd < InFlight(s)
    ensures SendSegs(s, lim, d, true, 1) == [Segment(2, [3, 4])]
  {
    ShrunkenSend(s, lim, d);
    LastTwo(1, 2, 3, 4);
  }

  lemma LastTwo(a: byte, b: byte, c: byte, d: byte)
    ensures ([a, b, c] + [d])[2..4] == [c, d]
  {
  }

  lemma ShrunkenSend(s: Snd, lim: Limits, d: seq<byte>)
    requires Inv(s, lim) && d != [] && Stores(s, lim, d) && Unsent(Store(s, d)) <= lim.mtu
    requires s.wnd < InFlight(s) && |s.data + d| <= TWO_TO_THE_31
    ensures var t := Store(s, d);
            SendSegs(s, lim, d, true, 1) == [SegmentAt(t, t.nxt, Unsent(t))]
  {
    var t := Store(s, d);
    assert Room(t) == s.wnd - InFlight(s) + TWO_TO_THE_32;
    SendOfOne(s, lim, d, true);
  }

  lemma SendOfOne(s: Snd, lim: Limits, d: seq<byte>, push: bool)
    requires Inv(s, lim) && d != [] && Stores(s, lim, d)
    requires 0 < Offered(Store(s, d), lim, push) <= lim.mtu
    ensures var t := Store(s, d);
            SendSegs(s, lim, d, push, 1) == [SegmentAt(t, t.nxt, Offered(t, lim, push))]
  {
    var t := Store(s, d);
    EmitHeadTail(t, t.nxt, Offered(t, lim, push), lim.mtu, 1);
  }

  /** The retransmission queue itself accepts any acknowledgement up to its size. The
      bounds survive exactly those that cover sent bytes only, or too many to be
      accepted at all. */
  lemma AckKeepsInvIff(s: Snd, lim: Limits, n: nat)
    requires Inv(s, lim)
    ensures Inv(AfterAck(s, n), lim) <==> n <= InFlight(s) || n > |s.data|
  {
  }

  /** The test that every caller makes first lets through only those. The send buffer
      is limited to less than half of the sequence space. */
  lemma PassedAckKeepsInv(s: Snd, lim: Limits, segAck: u32)
    requires Inv(s, lim) && lim.maxBuf < TWO_TO_THE_31 && AckPasses(s, segAck)
    ensures Acked(s, segAck) <= InFlight(s) || Acked(s, segAck) > |s.data|
    ensures Inv(AfterAck(s, Acked(s, segAck)), lim)
  {
    var n := Acked(s, segAck);
    AckIsAhead(s.una, segAck);
    SegLTIsForwardDistance(Wrap(s.una), segAck);
    assert n <= TWO_TO_THE_31;
    if n < TWO_TO_THE_31 {
      WordsCompareAsPositions(s.una + n, s.nxt);
    }
    AckKeepsInvIff(s, lim, n);
  }

  /** What an acknowledgement does. The callers let the word of a position within half
      the sequence space through if and only if the position is not behind SND.NXT;
      then SND.UNA moves to it and as many bytes leave the front of the queue. */
  lemma AckReaches(s: Snd, lim: Limits, n: nat)
    requires Inv(s, lim) && lim.maxBuf < TWO_TO_THE_31 && n < TWO_TO_THE_31
    ensures AckPasses(s, Wrap(s.una + n)) <==> s.una + n <= s.nxt
    ensures AckPasses(s, Wrap(s.una + n)) ==>
              && n <= |s.data|
              && AfterAck(s, Acked(s, Wrap(s.una + n))) == Snd(s.una + n, s.nxt, s.wnd, s.data[n..])
  {
    WordsCompareAsPositions(s.una + n, s.nxt);
    WordsCompareAsPositions(s.una, s.una + n);
    WordsEqualIff(s.una + n, s.una);
  }

  lemma AckIsAhead(una: int, segAck: u32)
    ensures segAck == Wrap(una + SegDiff(segAck, Wrap(una)))
  {
    WrapOfSum(segAck - Wrap(una), una);
    WrapOfSum(una, segAck - Wrap(una));
  }

  // ----- SND.NXT and retransmission

  /** Where contiguous segments that start at from end. */
  function LastEnd(from: int, segs: seq<Segment>): int
    decreases |segs|
  {
    if segs == [] then from else LastEnd(segs[0].End(), segs[1..])
  }

  /** Segments that follow each other from position from on and end by to, each with
      mtu bytes unless it ends at to. */
  ghost predicate Paced(from: int, to: int, segs: seq<Segment>, mtu: nat)
    decreases |segs|
  {
    segs == [] ||
    (var e := segs[0];
     && e.pos == from && from < e.End() <= to
     && (e.End() == from + mtu || (e.End() == to && e.End() < from + mtu))
     && Paced(e.End(), to, segs[1..], mtu))
  }

  lemma {:induction false} EmitIsPaced(s: Snd, from: int, len: int, mtu: nat, k: nat)
    requires s.una <= from && 0 <= len && from + len <= s.una + |s.data|
    ensures Paced(from, from + len, Emit(s, from, len, mtu, k), mtu) && |Emit(s, from, len, mtu, k)| <= k
    decreases k
  {
    if !(k == 0 || len == 0 || mtu == 0) {
      EmitHeadTail(s, from, len, mtu, k);
      var n := Min(len, mtu);
      EmitIsPaced(s, from + n, len - n, mtu, k - 1);
    }
  }

  lemma {:induction false} PacedIsContiguous(from: int, to: int, segs: seq<Segment>, mtu: nat, i: nat)
    requires Paced(from, to, segs, mtu) && i < |segs|
    ensures 0 < |segs[i].bytes| <= mtu && segs[i].End() <= to
    ensures segs[i].pos == if i == 0 then from else segs[i - 1].End()
    ensures i < |segs| - 1 ==> |segs[i].bytes| == mtu
    decreases |segs|
  {
    if i > 0 {
      PacedIsContiguous(segs[0].End(), to, segs[1..], mtu, i - 1);
    } else if |segs| > 1 {
      PacedIsContiguous(segs[0].End(), to, segs[1..], mtu, 0);
    }
  }

  /** The segments of one call follow each other without gap or overlap, none is
      empty or longer than the MTU allows, only the last is shorter, and there
      are at most k. */
  lemma EmitIsContiguous(s: Snd, from: int, len: int, mtu: nat, k: nat)
    requires s.una <= from && 0 <= len && from + len <= s.una + |s.data|
    ensures var segs := Emit(s, from, len, mtu, k);
            && |segs| <= k
            && (forall i :: 0 <= i < |segs| ==>
                  && 0 < |segs[i].bytes| <= mtu && segs[i].End() <= from + len
                  && segs[i].pos == (if i == 0 then from else segs[i - 1].End())
                  && (i < |segs| - 1 ==> |segs[i].bytes| == mtu))
  {
    EmitIsPaced(s, from, len, mtu, k);
    var segs := Emit(s, from, len, mtu, k);
    forall i | 0 <= i < |segs|
      ensures && 0 < |segs[i].bytes| <= mtu && segs[i].End() <= from + len
              && segs[i].pos == (if i == 0 then from else segs[i - 1].End())
              && (i < |segs| - 1 ==> |segs[i].bytes| == mtu)
    {
      PacedIsContiguous(from, from + len, segs, mtu, i);
    }
  }

  lemma {:induction false} PacedIsAhead(from: int, to: int, segs: seq<Segment>, mtu: nat, nxt: int)
    requires Paced(from, to, segs, mtu) && nxt < from
    ensures Advance(nxt, segs) == nxt && from <= LastEnd(from, segs)
    decreases |segs|
  {
    if segs != [] {
      PacedIsAhead(segs[0].End(), to, segs[1..], mtu, nxt);
    }
  }

  /** Where an emission ends. */
  lemma {:induction false} EmissionEnd(s: Snd, from: int, len: int, mtu: nat, k: nat)
    requires s.una <= from && 0 <= len && from + len <= s.una + |s.data|
    ensures LastEnd(from, Emit(s, from, len, mtu, k)) == from + Min(len, k * mtu)
    decreases k
  {
    if k > 0 && len > 0 && mtu > 0 {
      var n := Min(len, mtu);
      EmitHeadTail(s, from, len, mtu, k);
      EmissionEnd(s, from + n, len - n, mtu, k - 1);
      assert k * mtu == (k - 1) * mtu + mtu;
      MulIsNat(k - 1, mtu);
    } else {
      MulIsNat(k, mtu);
    }
  }

  lemma MulIsNat(k: nat, m: nat)
    ensures k * m >= 0 && (k == 0 || m == 0 ==> k * m == 0)
  {
  }

  /** A stretch that starts at or before SND.NXT ends at or before it afterwards if and
      only if it did before or SND.NXT was a whole number of segments away. */
  lemma EmissionEndsBelowNxtIff(s: Snd, from: int, len: int, mtu: nat, k: nat, nxt: int)
    requires s.una <= from <= nxt && 0 <= len && from + len <= s.una + |s.data| && mtu > 0
    ensures var segs := Emit(s, from, len, mtu, k);
            LastEnd(from, segs) <= Advance(nxt, segs)
            <==> Min(len, k * mtu) <= nxt - from || (nxt - from) % mtu == 0
  {
    EmissionEnd(s, from, len, mtu, k);
    EmitIsPaced(s, from, len, mtu, k);
    AdvanceIs(from, from + len, Emit(s, from, len, mtu, k), mtu, nxt, (nxt - from) % mtu == 0);
  }

  lemma {:induction false} PacedEndBy(from: int, to: int, segs: seq<Segment>, mtu: nat, x: int)
    requires Paced(from, to, segs, mtu) && segs != []
    ensures EndBy(segs, x) <==> LastEnd(from, segs) <= x
    decreases |segs|
  {
    var end, rest := segs[0].End(), segs[1..];
    if rest != [] {
      PacedEndBy(end, to, rest, mtu, x);
      assert end < rest[0].End();
      assert forall i :: 0 <= i < |rest| ==> rest[i] == segs[i + 1];
      assert EndBy(segs, x) <==> end <= x && EndBy(rest, x);
    }
  }

  /** What a retransmission does: it starts at SND.UNA and covers what is stored, as far
      as the window and k segments reach. SND.NXT moves up to its end if and only
      if the bytes in flight are whole segments, and nothing else changes. */
  lemma RetransReaches(s: Snd, lim: Limits, k: nat)
    requires Inv(s, lim) && lim.mtu > 0
    ensures var t, segs := AfterRetrans(s, lim, k), RetransSegs(s, lim, k);
            && (segs != [] ==> segs[0].pos == s.una)
            && LastEnd(s.una, segs) == s.una + Min(Min(|s.data|, s.wnd), k * lim.mtu)
            && t == s.(nxt := if InFlight(s) % lim.mtu == 0 then Max(s.nxt, LastEnd(s.una, segs)) else s.nxt)
  {
    var len, segs := Min(|s.data|, s.wnd), RetransSegs(s, lim, k);
    EmissionEnd(s, s.una, len, lim.mtu, k);
    EmitIsPaced(s, s.una, len, lim.mtu, k);
    AdvanceIs(s.una, s.una + len, segs, lim.mtu, s.nxt, InFlight(s) % lim.mtu == 0);
  }

  /** A retransmission can emit new bytes behind SND.NXT without moving it. It leaves
      everything it emitted below SND.NXT if and only if the window and the k
      segments reach no further than the bytes in flight, or these are a whole
      number of segments. */
  lemma RetransEndsBelowNxtIff(s: Snd, lim: Limits, k: nat)
    requires Inv(s, lim) && lim.mtu > 0
    ensures EndBy(RetransSegs(s, lim, k), AfterRetrans(s, lim, k).nxt)
       <==> Min(Min(|s.data|, s.wnd), k * lim.mtu) <= InFlight(s) || InFlight(s) % lim.mtu == 0
  {
    var len, segs, nxt := Min(|s.data|, s.wnd), RetransSegs(s, lim, k), AfterRetrans(s, lim, k).nxt;
    EmissionEndsBelowNxtIff(s, s.una, len, lim.mtu, k, s.nxt);
    EmitIsPaced(s, s.una, len, lim.mtu, k);
    AdvanceIsBounded(s, s.una, len, lim.mtu, k, s.nxt);
    if segs != [] {
      PacedEndBy(s.una, s.una + len, segs, lim.mtu, nxt);
    }
  }

  /** Half a segment in flight, one and a half stored, the window open: everything is
      emitted again and SND.NXT stays behind half of it. */
  lemma RetransPassesNxt()
    ensures var s, lim := Snd(0, 1, 3, [1, 2, 3]), Limits(2, 10);
            && Inv(s, lim)
            && RetransSegs(s, lim, 2) == [Segment(0, [1, 2]), Segment(2, [3])]
            && AfterRetrans(s, lim, 2) == s
  {
    var s, lim := Snd(0, 1, 3, [1, 2, 3]), Limits(2, 10);
    EmitHeadTail(s, 0, 3, 2, 2);
    EmitHeadTail(s, 2, 1, 2, 1);
    assert s.data[0..2] == [1, 2] && s.data[2..3] == [3];
    var e, f := Segment(0, [1, 2]), Segment(2, [3]);
    assert RetransSegs(s, lim, 2) == [e, f];
    AdvanceOfTwo(1, e, f);
  }

  lemma AdvanceOfTwo(nxt: int, e: Segment, f: Segment)
    requires nxt != e.pos && nxt != f.pos
    ensures Advance(nxt, [e, f]) == nxt
  {
    assert [e, f][1..] == [f] && [f][1..] == [];
    assert Advance(nxt, [f]) == nxt;
  }

  lemma NothingPacedBehind(to: int, segs: seq<Segment>, mtu: nat)
    requires Paced(to, to, segs, mtu)
    ensures segs == []
  {
  }

  lemma {:induction false} AdvanceIs(from: int, to: int, segs: seq<Segment>, mtu: nat, nxt: int, whole: bool)
    requires Paced(from, to, segs, mtu) && from <= nxt && mtu > 0
    requires whole <==> WholeSegments(nxt - from, mtu)
    ensures Advance(nxt, segs) == if whole then Max(nxt, LastEnd(from, segs)) else nxt
    decreases |segs|
  {
    WholeStep(nxt - from, mtu);
    if segs != [] {
      var end := segs[0].End();
      if nxt == from {
        WholeStep(0, mtu);
        PacedIsAhead(end, to, segs[1..], mtu, from);
        AdvanceIs(end, to, segs[1..], mtu, end, true);
      } else if nxt < end {
        PacedIsAhead(end, to, segs[1..], mtu, nxt);
      } else if end == from + mtu {
        AdvanceIs(end, to, segs[1..], mtu, nxt, whole);
      } else {
        NothingPacedBehind(to, segs[1..], mtu);
      }
    }
  }

  predicate WholeSegments(x: nat, mtu: nat)
    requires mtu > 0
  {
    x % mtu == 0
  }

  lemma WholeStep(x: nat, mtu: nat)
    requires mtu > 0
    ensures x < mtu ==> (WholeSegments(x, mtu) <==> x == 0)
    ensures x >= mtu ==> (WholeSegments(x, mtu) <==> WholeSegments(x - mtu, mtu))
  {
    if x < mtu {
      QuotientIsUnique(x, mtu, 0, x);
    } else {
      QuotientIsUnique(x - mtu, mtu, x / mtu - 1, x % mtu);
    }
  }

  // ----- one segment more

  lemma {:induction false} AdvanceSnoc(nxt: int, segs: seq<Segment>, e: Segment)
    ensures Advance(nxt, segs + [e])
            == if e.pos == Advance(nxt, segs) then e.End() else Advance(nxt, segs)
    decreases |segs|
  {
    if segs == [] {
      assert [] + [e] == [e];
    } else {
      assert (segs + [e])[1..] == segs[1..] + [e];
      AdvanceSnoc(if segs[0].pos == nxt then segs[0].End() else nxt, segs[1..], e);
    }
  }

  /** segs are whole turns of the send loop on the stored bytes from..to, the last of
      which ends at position at. */
  ghost predicate Steps(s: Snd, from: int, to: int, mtu: nat, segs: seq<Segment>, at: int)
    requires s.una <= from <= to <= s.una + |s.data|
    decreases |segs|
  {
    if segs == [] then at == from
    else
      var n := Min(to - from, mtu);
      n > 0 && segs[0] == SegmentAt(s, from, n) && Steps(s, from + n, to, mtu, segs[1..], at)
  }

  /** One more turn: the segment at the end of those already sent. */
  lemma {:induction false} StepsNext(s: Snd, from: int, to: int, mtu: nat, segs: seq<Segment>, at: int, x: Segment)
    requires s.una <= from <= to <= s.una + |s.data| && Steps(s, from, to, mtu, segs, at)
    requires from <= at < to && mtu > 0 && x == SegmentAt(s, at, Min(to - at, mtu))
    ensures Steps(s, from, to, mtu, segs + [x], x.End())
    decreases |segs|
  {
    if segs == [] {
      StepsBehind(s, at, to, mtu, [], x.End());
      assert segs + [x] == [x] + [];
    } else {
      var n, rest := Min(to - from, mtu), segs[1..];
      StepsAdvance(s, from + n, to, mtu, rest, at);
      StepsNext(s, from + n, to, mtu, rest, at, x);
      StepsBehind(s, from, to, mtu, rest + [x], x.End());
      HeadOfLonger(segs, x);
    }
  }

  lemma StepsBehind(s: Snd, from: int, to: int, mtu: nat, rest: seq<Segment>, at: int)
    requires s.una <= from < to <= s.una + |s.data| && mtu > 0
    requires Steps(s, from + Min(to - from, mtu), to, mtu, rest, at)
    ensures Steps(s, from, to, mtu, [SegmentAt(s, from, Min(to - from, mtu))] + rest, at)
  {
    assert ([SegmentAt(s, from, Min(to - from, mtu))] + rest)[1..] == rest;
  }

  lemma HeadOfLonger(segs: seq<Segment>, x: Segment)
    requires segs != []
    ensures segs + [x] == [segs[0]] + (segs[1..] + [x])
  {
  }

  lemma {:induction false} StepsAdvance(s: Snd, from: int, to: int, mtu: nat, segs: seq<Segment>, at: int)
    requires s.una <= from <= to <= s.una + |s.data| && Steps(s, from, to, mtu, segs, at)
    ensures from <= at <= to
    decreases |segs|
  {
    if segs != [] {
      StepsAdvance(s, from + Min(to - from, mtu), to, mtu, segs[1..], at);
    }
  }

  /** So the segments of the loop are those of Emit. */
  lemma {:induction false} StepsAreEmitted(s: Snd, from: int, len: int, mtu: nat, segs: seq<Segment>, at: int)
    requires s.una <= from && 0 <= len && from + len <= s.una + |s.data|
    requires Steps(s, from, from + len, mtu, segs, at)
    ensures segs == Emit(s, from, len, mtu, |segs|) && at == LastEnd(from, segs)
    decreases |segs|
  {
    if segs != [] {
      var n := Min(len, mtu);
      StepsAreEmitted(s, from + n, len - n, mtu, segs[1..], at);
      assert segs == [segs[0]] + segs[1..];
    }
  }

  // ----- whole runs

  datatype Event =
    | Send(d: seq<byte>, push: bool, sent: nat)
    | Retransmit(resent: nat)
    | Ack(segAck: u32)
    | Window(wnd: u32)

  /** The connection with everything it ever accepted and everything it ever
      emitted; base is the position of the first byte. */
  datatype History = History(base: int, accepted: seq<byte>, snd: Snd, emitted: seq<Segment>)

  /** The callers drop an acknowledgement that does not lie between SND.UNA and
      SND.NXT; everything else can happen at any time. */
  predicate Enabled(h: History, e: Event) {
    e.Ack? ==> AckPasses(h.snd, e.segAck)
  }

  function Next(h: History, lim: Limits, e: Event): History
    requires Inv(h.snd, lim)
  {
    match e
    case Send(d, push, k) =>
      History(h.base, if Stores(h.snd, lim, d) then h.accepted + d else h.accepted,
              AfterSend(h.snd, lim, d, push, k), h.emitted + SendSegs(h.snd, lim, d, push, k))
    case Retransmit(k) =>
      h.(snd := AfterRetrans(h.snd, lim, k), emitted := h.emitted + RetransSegs(h.snd, lim, k))
    case Ack(segAck) => h.(snd := AfterAck(h.snd, Acked(h.snd, segAck)))
    case Window(w) => h.(snd := h.snd.(wnd := w))
  }

  /** The segment carries the accepted bytes of its positions. */
  predicate Genuine(h: History, e: Segment) {
    && h.base <= e.pos && e.End() <= h.base + |h.accepted|
    && e.bytes == h.accepted[e.pos - h.base..e.End() - h.base]
  }

  predicate Consistent(h: History, lim: Limits) {
    && Inv(h.snd, lim) && lim.maxBuf < TWO_TO_THE_31
    && h.base <= h.snd.una && h.snd.una - h.base <= |h.accepted|
    && h.snd.data == h.accepted[h.snd.una - h.base..]
    && (forall e :: e in h.emitted ==> Genuine(h, e))
  }

  lemma SoundIsGenuine(h: History, e: Segment)
    requires h.base <= h.snd.una && h.snd.una - h.base <= |h.accepted|
    requires h.snd.data == h.accepted[h.snd.una - h.base..] && Sound(h.snd.una, h.snd.data, e)
    ensures Genuine(h, e)
  {
    SliceOfRest(h.accepted, h.snd.una - h.base, e.pos - h.snd.una, e.End() - h.snd.una);
  }

  lemma SliceOfRest(all: seq<byte>, o: nat, i: nat, j: nat)
    requires o <= |all| && i <= j <= |all| - o
    ensures all[o..][i..j] == all[o + i..o + j]
  {
  }

  lemma StaysGenuine(h: History, g: History, e: Segment)
    requires Genuine(h, e) && g.base == h.base && h.accepted <= g.accepted
    ensures Genuine(g, e)
  {
  }

  lemma StepKeepsConsistent(h: History, lim: Limits, e: Event)
    requires Consistent(h, lim) && Enabled(h, e)
    ensures Consistent(Next(h, lim, e), lim)
    ensures h.accepted <= Next(h, lim, e).accepted && Next(h, lim, e).base == h.base
  {
    match e {
      case Send(d, push, k) => SendKeepsConsistent(h, lim, d, push, k);
      case Retransmit(k) => RetransKeepsConsistent(h, lim, k);
      case Ack(segAck) => AckKeepsConsistent(h, lim, segAck);
      case Window(w) => WindowKeepsConsistent(h, lim, w);
    }
  }

  lemma AckKeepsConsistent(h: History, lim: Limits, segAck: u32)
    requires Consistent(h, lim) && Enabled(h, Ack(segAck))
    ensures Consistent(Next(h, lim, Ack(segAck)), lim)
  {
    PassedAckKeepsInv(h.snd, lim, segAck);
    var g, o, n := Next(h, lim, Ack(segAck)), h.snd.una - h.base, Acked(h.snd, segAck);
    if n <= |h.snd.data| {
      assert g.snd.data == h.accepted[o..][n..] == h.accepted[o + n..];
    }
    forall e | e in g.emitted
      ensures Genuine(g, e)
    {
      assert Genuine(h, e);
    }
  }

  lemma WindowKeepsConsistent(h: History, lim: Limits, w: u32)
    requires Consistent(h, lim) && Enabled(h, Window(w))
    ensures Consistent(Next(h, lim, Window(w)), lim)
  {
    var g := Next(h, lim, Window(w));
    forall e | e in g.emitted
      ensures Genuine(g, e)
    {
      assert Genuine(h, e);
    }
  }

  lemma SendKeepsConsistent(h: History, lim: Limits, d: seq<byte>, push: bool, k: nat)
    requires Consistent(h, lim)
    ensures Consistent(Next(h, lim, Send(d, push, k)), lim)
  {
    SendKeepsInv(h.snd, lim, d, push, k);
    EmitsGenuine(h, Next(h, lim, Send(d, push, k)), lim, SendSegs(h.snd, lim, d, push, k));
  }

  lemma RetransKeepsConsistent(h: History, lim: Limits, k: nat)
    requires Consistent(h, lim)
    ensures Consistent(Next(h, lim, Retransmit(k)), lim)
  {
    RetransKeepsInv(h.snd, lim, k);
    EmitsGenuine(h, Next(h, lim, Retransmit(k)), lim, RetransSegs(h.snd, lim, k));
  }

  /** New segments that are sound, added to genuine ones. */
  lemma EmitsGenuine(h: History, g: History, lim: Limits, segs: seq<Segment>)
    requires Consistent(h, lim) && Inv(g.snd, lim)
    requires g.base == h.base && h.accepted <= g.accepted && g.snd.una == h.snd.una
    requires g.snd.data == g.accepted[h.snd.una - h.base..]
    requires g.emitted == h.emitted + segs && AllSound(g.snd.una, g.snd.data, segs)
    ensures Consistent(g, lim)
  {
    forall e | e in g.emitted
      ensures Genuine(g, e)
    {
      if e in h.emitted {
        StaysGenuine(h, g, e);
      } else {
        var i :| 0 <= i < |segs| && segs[i] == e;
        SoundIsGenuine(g, e);
      }
    }
  }

  function Run(h: History, lim: Limits, events: seq<Event>): History
    requires Consistent(h, lim) && RunEnabled(h, lim, events)
    decreases |events|
  {
    if events == [] then h
    else StepKeepsConsistent(h, lim, events[0]); Run(Next(h, lim, events[0]), lim, events[1..])
  }

  predicate RunEnabled(h: History, lim: Limits, events: seq<Event>)
    requires Consistent(h, lim)
    decreases |events|
  {
    events == [] ||
    (&& Enabled(h, events[0])
     && (StepKeepsConsistent(h, lim, events[0]); RunEnabled(Next(h, lim, events[0]), lim, events[1..])))
  }

  /** In every run of sends, retransmissions, acknowledgements and window updates of any
      kind, with any clone or send failure in between, the bounds hold and
      everything ever emitted is the accepted byte stream at its position. */
  lemma {:induction false} RunKeepsConsistent(h: History, lim: Limits, events: seq<Event>)
    requires Consistent(h, lim) && RunEnabled(h, lim, events)
    ensures Consistent(Run(h, lim, events), lim)
    decreases |events|
  {
    if events != [] {
      StepKeepsConsistent(h, lim, events[0]);
      RunKeepsConsistent(Next(h, lim, events[0]), lim, events[1..]);
    }
  }

  /** So a retransmission agrees with the original wherever they overlap,
      whatever the mbuf and segment boundaries were each time. */
  lemma EmissionsAgree(h: History, lim: Limits, a: Segment, b: Segment, p: int)
    requires Consistent(h, lim) && a in h.emitted && b in h.emitted
    requires a.pos <= p < a.End() && b.pos <= p < b.End()
    ensures a.bytes[p - a.pos] == b.bytes[p - b.pos]
  {
    assert Genuine(h, a) && Genuine(h, b);
    assert a.bytes[p - a.pos] == h.accepted[p - h.base];
  }
}
