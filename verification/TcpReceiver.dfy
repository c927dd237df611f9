/** tcp_data_handle as it runs, on 32-bit sequence numbers and with its three
    loops, proved to do to the words what Reassembly.Handle does to the
    positions behind them. */
module TcpReceiver {
  import opened Prelude
  import opened MbufChains
  import opened SequenceNumbers
  import opened Reassembly

  /** tcb_buf_hdr_t. */
  datatype RcvHdr = RcvHdr(seqNo: u32, chain: Chain)

  function EndOf(h: RcvHdr): u32 {
    Wrap(h.seqNo + PktLen(h.chain))
  }

  function Words(buf: seq<Node>): (r: seq<RcvHdr>)
    ensures |r| == |buf|
  {
    seq(|buf|, i requires 0 <= i < |buf| => RcvHdr(Wrap(buf[i].pos), buf[i].chain))
  }

  lemma WordsOfParts(a: seq<Node>, b: seq<Node>)
    ensures Words(a + b)[..|a|] == Words(a) && Words(a + b)[|a|..] == Words(b)
    ensures b != [] ==> Words(a + b)[|a|] == RcvHdr(Wrap(b[0].pos), b[0].chain)
                        && Words(a + b)[|a| + 1..] == Words(b[1..])
  {
  }

  lemma WordsOfWhole(a: seq<Node>, n: Node, b: seq<Node>)
    ensures Words(a + ([n] + b)) == Words(a) + [RcvHdr(Wrap(n.pos), n.chain)] + Words(b)
  {
  }

  /** A node whose length field is right and whose ends lie in the half of the
      sequence space that starts at lo. */
  ghost predicate InSpan(lo: int, n: Node) {
    WellFormed(n.chain) && lo <= n.pos && n.End() < lo + TWO_TO_THE_31
  }

  ghost predicate AllInSpan(lo: int, buf: seq<Node>) {
    forall i :: 0 <= i < |buf| ==> InSpan(lo, buf[i])
  }

  /** What the delivery loop relies on: the nodes it reaches are in span. */
  ghost predicate DeliverableSpan(lo: int, nxt: int, buf: seq<Node>)
    decreases |buf|
  {
    buf == [] ||
    (&& lo <= buf[0].pos < lo + TWO_TO_THE_31
     && (nxt == buf[0].pos ==> InSpan(lo, buf[0]) && DeliverableSpan(lo, buf[0].End(), buf[1..])))
  }

  lemma {:induction false} SpanIsDeliverable(lo: int, nxt: int, buf: seq<Node>)
    requires AllInSpan(lo, buf)
    ensures DeliverableSpan(lo, nxt, buf)
    decreases |buf|
  {
    if buf != [] {
      WellFormedIsNotEmpty(buf[0].chain);
      SpanIsDeliverable(lo, buf[0].End(), buf[1..]);
    }
  }

  /** The node that Consume may cut is not reached in the same call, or the cut
      removed nothing. */
  lemma {:induction false} ConsumeIsDeliverable(lo: int, end: int, buf: seq<Node>)
    requires AllInSpan(lo, buf)
    ensures DeliverableSpan(lo, end, Consume(end, buf))
    decreases |buf|
  {
    if buf != [] {
      WellFormedIsNotEmpty(buf[0].chain);
      if end < buf[0].pos {
        SpanIsDeliverable(lo, end, buf);
      } else if end < buf[0].End() {
        if end == buf[0].pos {
          AdjOfNothing(buf[0].chain);
          assert Consume(end, buf) == buf;
          SpanIsDeliverable(lo, end, buf);
        }
      } else {
        ConsumeIsDeliverable(lo, end, buf[1..]);
      }
    }
  }

  lemma GrownIsDeliverable(lo: int, nxt: int, buf: seq<Node>, more: Chain)
    requires buf != [] && AllInSpan(lo, buf) && WellFormed(more)
    requires buf[0].End() + PktLen(more) < lo + TWO_TO_THE_31
    ensures InSpan(lo, buf[0].(chain := Join(buf[0].chain, more)))
    ensures buf[0].(chain := Join(buf[0].chain, more)).End() == buf[0].End() + PktLen(more)
    ensures DeliverableSpan(lo, nxt, Grown(buf[0], more, buf[1..]))
  {
    MergeJoins(buf[0].chain, more);
    WellFormedIsNotEmpty(buf[0].chain);
    var seg := buf[0].(chain := Join(buf[0].chain, more));
    WellFormedIsNotEmpty(seg.chain);
    ConsumeIsDeliverable(lo, seg.End(), buf[1..]);
    assert Grown(buf[0], more, buf[1..])[1..] == Consume(seg.End(), buf[1..]);
  }

  /** A node of the list with more appended, and its words. */
  lemma GrownNode(lo: int, cur: Node, more: Chain)
    requires InSpan(lo, cur) && WellFormed(more) && cur.End() + PktLen(more) < lo + TWO_TO_THE_31
    ensures cur.chain != [] && more != []
    ensures var node := cur.(chain := Join(cur.chain, more));
            && node.chain == Merge(cur.chain, more) && InSpan(lo, node)
            && lo <= node.End() && EndOf(RcvHdr(Wrap(node.pos), node.chain)) == Wrap(node.End())
  {
    MergeJoins(cur.chain, more);
    var node := cur.(chain := Join(cur.chain, more));
    WellFormedIsNotEmpty(node.chain);
    NodeCompares(lo, node.pos, node);
  }

  lemma {:induction false} InsertIsDeliverable(lo: int, nxt: int, buf: seq<Node>, n: Node)
    requires AllInSpan(lo, buf) && InSpan(lo, n) && SuffixLengths(n.chain)
    ensures DeliverableSpan(lo, nxt, Insert(buf, n))
    decreases |buf|
  {
    WellFormedIsNotEmpty(n.chain);
    if buf != [] {
      var cur := buf[0];
      WellFormedIsNotEmpty(cur.chain);
      if Contained(n, cur) {
        SpanIsDeliverable(lo, nxt, buf);
      } else if n.pos < cur.pos {
        ConsumeIsDeliverable(lo, n.End(), buf);
        assert ([n] + Consume(n.End(), buf))[1..] == Consume(n.End(), buf);
      } else if n.pos == cur.End() {
        GrownIsDeliverable(lo, nxt, buf, n.chain);
      } else if n.pos < cur.End() {
        TrimKeepsForm(n.chain, cur.End() - n.pos);
        GrownIsDeliverable(lo, nxt, buf, Trim(n.chain, cur.End() - n.pos));
      } else {
        InsertIsDeliverable(lo, cur.End(), buf[1..], n);
        assert ([cur] + Insert(buf[1..], n))[1..] == Insert(buf[1..], n);
      }
    }
  }

  /** Every comparison of a position in span with the words of a node. */
  lemma NodeCompares(lo: int, x: int, n: Node)
    requires InSpan(lo, n) && lo <= x < lo + TWO_TO_THE_31
    ensures var h := RcvHdr(Wrap(n.pos), n.chain);
            && EndOf(h) == Wrap(n.End())
            && (SegLT(Wrap(x), h.seqNo) <==> x < n.pos)
            && (SegGE(Wrap(x), h.seqNo) <==> x >= n.pos)
            && (SegLT(Wrap(x), EndOf(h)) <==> x < n.End())
            && (SegLE(Wrap(x), EndOf(h)) <==> x <= n.End())
            && (Wrap(x) == h.seqNo <==> x == n.pos)
            && (Wrap(x) == EndOf(h) <==> x == n.End())
            && (x >= n.pos ==> SegDiff(Wrap(x), h.seqNo) == x - n.pos)
            && (n.End() >= x ==> SegDiff(EndOf(h), Wrap(x)) == n.End() - x)
  {
    WellFormedIsNotEmpty(n.chain);
    WrapOfSum(n.pos, PktLen(n.chain));
    WordsCompareAsPositions(x, n.pos);
    WordsCompareAsPositions(n.pos, x);
    WordsCompareAsPositions(x, n.End());
    WordsCompareAsPositions(n.End(), x);
  }

  /** The tests of the insertion walk, on words and on positions. */
  lemma HeadersCompare(lo: int, n: Node, node: Node)
    requires InSpan(lo, n) && InSpan(lo, node)
    ensures var h, cur := RcvHdr(Wrap(n.pos), n.chain), RcvHdr(Wrap(node.pos), node.chain);
            && (SegGE(h.seqNo, cur.seqNo) && SegLE(EndOf(h), EndOf(cur)) <==> Contained(n, node))
            && (SegLT(h.seqNo, cur.seqNo) <==> n.pos < node.pos)
            && (EndOf(cur) == h.seqNo <==> n.pos == node.End())
            && (SegLE(cur.seqNo, h.seqNo) <==> node.pos <= n.pos)
            && (SegLT(h.seqNo, EndOf(cur)) <==> n.pos < node.End())
            && (n.pos <= node.End() ==> SegDiff(EndOf(cur), h.seqNo) == node.End() - n.pos)
    ensures PktLen(n.chain) > 0
  {
    NodeCompares(lo, n.pos, node);
    WellFormedIsNotEmpty(n.chain);
    NodeCompares(lo, n.End(), node);
    WrapOfSum(n.pos, PktLen(n.chain));
  }

  /** Where a segment lies relative to a node of the list. */
  datatype Place = Within | Before | Adjacent | Across | Behind

  /** The tests of the insertion walk. */
  function PlaceOfWords(h: RcvHdr, cur: RcvHdr): Place {
    if SegGE(h.seqNo, cur.seqNo) && SegLE(EndOf(h), EndOf(cur)) then Within
    else if SegLT(h.seqNo, cur.seqNo) then Before
    else if EndOf(cur) == h.seqNo then Adjacent
    else if SegLE(cur.seqNo, h.seqNo) && SegLT(h.seqNo, EndOf(cur)) then Across
    else Behind
  }

  function PlaceOf(n: Node, cur: Node): Place {
    if Contained(n, cur) then Within
    else if n.pos < cur.pos then Before
    else if n.pos == cur.End() then Adjacent
    else if n.pos < cur.End() then Across
    else Behind
  }

  /** On words and on positions they find the same place. */
  lemma PlacesAgree(lo: int, n: Node, cur: Node)
    requires InSpan(lo, n) && InSpan(lo, cur)
    ensures var h, c := RcvHdr(Wrap(n.pos), n.chain), RcvHdr(Wrap(cur.pos), cur.chain);
            && PlaceOfWords(h, c) == PlaceOf(n, cur)
            && (PlaceOf(n, cur) == Across ==> SegDiff(EndOf(c), h.seqNo) == cur.End() - n.pos)
  {
    HeadersCompare(lo, n, cur);
    WellFormedIsNotEmpty(cur.chain);
  }

  lemma PassOver(lo: int, before: seq<Node>, rest: seq<Node>, n: Node)
    requires rest != [] && AllInSpan(lo, rest) && InSpan(lo, n) && PlaceOf(n, rest[0]) == Behind
    ensures before + Insert(rest, n) == before + [rest[0]] + Insert(rest[1..], n)
    ensures before + rest == before + [rest[0]] + rest[1..]
  {
    WellFormedIsNotEmpty(n.chain);
    WellFormedIsNotEmpty(rest[0].chain);
    InsertSkipsHead(rest, n);
    MoveHead(before, rest, Insert(rest[1..], n));
  }

  lemma MoveHead(before: seq<Node>, rest: seq<Node>, more: seq<Node>)
    requires rest != []
    ensures before + ([rest[0]] + more) == before + [rest[0]] + more
    ensures before + rest == before + [rest[0]] + rest[1..]
  {
  }

  /** One turn of the insertion walk. */
  lemma {:induction false} InsertCases(lo: int, rest: seq<Node>, n: Node)
    requires rest != [] && AllInSpan(lo, rest) && InSpan(lo, n) && SuffixLengths(n.chain)
    ensures n.chain != []
    ensures var cur := rest[0];
            match PlaceOf(n, cur)
            case Within => Insert(rest, n) == rest
            case Before => Insert(rest, n) == [n] + Consume(n.End(), rest)
            case Adjacent => Grows(lo, rest, n, n.chain)
            case Across =>
              cur.End() - n.pos <= |Bytes(n.chain)| && Grows(lo, rest, n, Adj(n.chain, cur.End() - n.pos))
            case Behind => Insert(rest, n) == [cur] + Insert(rest[1..], n)
  {
    var cur := rest[0];
    WellFormedIsNotEmpty(n.chain);
    WellFormedIsNotEmpty(cur.chain);
    if n.pos > cur.End() {
      InsertSkipsHead(rest, n);
    } else if cur.pos <= n.pos && cur.End() < n.End() {
      InsertIntoHead(rest, n);
      if n.pos < cur.End() {
        TrimKeepsForm(n.chain, cur.End() - n.pos);
      }
    }
  }

  /** The segment goes into the head of the list, with more appended to it. */
  ghost predicate Grows(lo: int, rest: seq<Node>, n: Node, more: Chain)
    requires rest != []
  {
    && Insert(rest, n) == Grown(rest[0], more, rest[1..])
    && WellFormed(more) && rest[0].End() + PktLen(more) < lo + TWO_TO_THE_31
  }

  lemma InsertSkipsHead(buf: seq<Node>, n: Node)
    requires buf != [] && n.pos > buf[0].End() && n.pos >= buf[0].pos && PktLen(n.chain) > 0
    ensures Insert(buf, n) == [buf[0]] + Insert(buf[1..], n)
  {
  }

  /** One turn of the delivery loop. */
  lemma DeliverTurn(lo: int, t: Rcv, replies: seq<nat>)
    requires t.buf != [] && t.nxt == t.buf[0].pos && DeliverableSpan(lo, t.nxt, t.buf)
    ensures var seg := t.buf[0];
            var d := Consumed(replies, PktLen(seg.chain));
            var after := Rcv(t.nxt + d, t.buf[1..], t.out + Prefix(Bytes(seg.chain), d));
            && 0 <= d <= |Bytes(seg.chain)| && seg.chain != []
            && lo <= after.nxt < lo + TWO_TO_THE_31
            && Words(t.buf)[0] == RcvHdr(Wrap(seg.pos), seg.chain)
            && Words(t.buf[1..]) == Words(t.buf)[1..]
            && (d == PktLen(seg.chain) ==>
                  && DeliverableSpan(lo, after.nxt, after.buf)
                  && Deliver(t, replies) == Deliver(after, RestOf(replies)))
            && (d != PktLen(seg.chain) ==>
                  && Deliver(t, replies).nxt == after.nxt && Deliver(t, replies).out == after.out
                  && Words(Deliver(t, replies).buf)
                     == [RcvHdr(Wrap(seg.pos), Adj(seg.chain, d))] + Words(t.buf)[1..])
  {
    WellFormedIsNotEmpty(t.buf[0].chain);
  }

  /** Lines 369-387, on the part of the list behind the segment. */
  method ConsumeFollowers(followers: seq<RcvHdr>, segEnd: u32,
                          ghost lo: int, ghost end: int, ghost buf: seq<Node>)
    returns (r: seq<RcvHdr>)
    requires followers == Words(buf) && AllInSpan(lo, buf)
    requires segEnd == Wrap(end) && lo <= end < lo + TWO_TO_THE_31
    ensures r == Words(Consume(end, buf))
  {
    r := followers;
    ghost var rest := buf;
    while r != [] && SegGE(segEnd, r[0].seqNo)
      invariant r == Words(rest) && AllInSpan(lo, rest) && Consume(end, rest) == Consume(end, buf)
      decreases |r|
    {
      var oldSeg := r[0];
      ConsumeTurn(lo, end, rest);
      if SegLT(segEnd, EndOf(oldSeg)) {
        var cut := AdjChain(oldSeg.chain, SegDiff(segEnd, oldSeg.seqNo));
        return [oldSeg.(chain := cut)] + r[1..];
      }
      r, rest := r[1..], rest[1..];
    }
    if rest != [] {
      ConsumeTurn(lo, end, rest);
    }
  }

  /** One turn of the consume loop. */
  lemma {:induction false} ConsumeTurn(lo: int, end: int, rest: seq<Node>)
    requires rest != [] && AllInSpan(lo, rest) && lo <= end < lo + TWO_TO_THE_31
    ensures var old_ := RcvHdr(Wrap(rest[0].pos), rest[0].chain);
            && Words(rest)[0] == old_ && Words(rest)[1..] == Words(rest[1..]) && AllInSpan(lo, rest[1..])
            && (if !SegGE(Wrap(end), old_.seqNo) then Consume(end, rest) == rest
                else if SegLT(Wrap(end), EndOf(old_)) then
                  var len := SegDiff(Wrap(end), old_.seqNo);
                  && old_.chain != [] && len <= |Bytes(old_.chain)|
                  && Words(Consume(end, rest)) == [old_.(chain := Adj(old_.chain, len))] + Words(rest)[1..]
                else Consume(end, rest) == Consume(end, rest[1..]))
  {
    var node := rest[0];
    NodeCompares(lo, end, node);
    WellFormedIsNotEmpty(node.chain);
    ConsumeCases(end, rest);
    WordsOfHead(node, rest[1..]);
    assert [node] + rest[1..] == rest;
    if node.pos <= end < node.End() {
      WordsOfHead(node.(chain := Adj(node.chain, end - node.pos)), rest[1..]);
    }
  }

  lemma ConsumeCases(end: int, rest: seq<Node>)
    requires rest != [] && WellFormed(rest[0].chain)
    ensures var old_ := rest[0];
            if end < old_.pos then Consume(end, rest) == rest
            else if end < old_.End() then
              Consume(end, rest) == [old_.(chain := Adj(old_.chain, end - old_.pos))] + rest[1..]
            else Consume(end, rest) == Consume(end, rest[1..])
  {
  }

  lemma WordsOfHead(n: Node, b: seq<Node>)
    ensures Words([n] + b) == [RcvHdr(Wrap(n.pos), n.chain)] + Words(b)
    ensures Words([n] + b)[0] == RcvHdr(Wrap(n.pos), n.chain) && Words([n] + b)[1..] == Words(b)
  {
  }

  /** The segment lies within half of the sequence space around RCV.NXT. */
  predicate InWindow(s: Rcv, a: Arrival) {
    s.nxt - TWO_TO_THE_31 < a.pos && a.pos + PktLen(a.chain) < s.nxt + TWO_TO_THE_31
  }

  predicate WindowRun(s: Rcv, arrivals: seq<Arrival>)
    decreases |arrivals|
  {
    arrivals == [] || (InWindow(s, arrivals[0]) && WindowRun(Handle(s, arrivals[0]), arrivals[1..]))
  }

  /** After a harmless call the list lies in the half of the space at the new
      RCV.NXT, so the next call can be made. */
  lemma SpanIsKept(stream: int -> byte, start: int, s: Rcv, a: Arrival)
    requires Good(stream, start, s) && Legit(stream, a) && Harmless(s, a)
    requires AllInSpan(s.nxt, s.buf) && InWindow(s, a)
    ensures var t := Handle(s, a); s.nxt <= t.nxt && AllInSpan(t.nxt, t.buf)
  {
    var t := Handle(s, a);
    HandleKeepsGoodIff(stream, start, s, a);
    HandleReceivesSegment(stream, start, s, a);
    NxtGrows(stream, start, s, a);
    forall i | 0 <= i < |t.buf|
      ensures InSpan(t.nxt, t.buf[i])
    {
      OrderedMeans(t.nxt, t.buf, i, i);
      var last := t.buf[i].End() - 1;
      BufferedMeans(t.buf, last);
      assert Received(start, s, last) || a.pos <= last < a.pos + PktLen(a.chain);
      BufferedMeans(s.buf, last);
    }
  }

  lemma NxtGrows(stream: int -> byte, start: int, s: Rcv, a: Arrival)
    requires Good(stream, start, s) && Legit(stream, a) && Harmless(s, a)
    ensures s.nxt <= Handle(s, a).nxt
  {
    if !Stale(s.nxt, a) {
      FreshIsInsertable(stream, start, s, a);
      InsertKeeps(stream, s.nxt, s.buf, Fresh(s.nxt, a));
      DeliverGrows(s.nxt, Stored(s, a), a.answers);
    }
  }

  lemma {:induction false} DeliverGrows(lo: int, s: Rcv, answers: seq<nat>)
    requires Ordered(lo, s.buf)
    ensures s.nxt <= Deliver(s, answers).nxt
    decreases |s.buf|
  {
    if s.buf != [] && s.nxt == s.buf[0].pos {
      WellFormedIsNotEmpty(s.buf[0].chain);
      var d := Consumed(answers, PktLen(s.buf[0].chain));
      if d == PktLen(s.buf[0].chain) {
        DeliverGrows(s.buf[0].End(), HeadDelivered(s), RestOf(answers));
      }
    }
  }

  lemma StraddlingSpans()
    ensures AllInSpan(0, AFTER_ONE.buf) && AllInSpan(0, AFTER_TWO.buf)
    ensures AllInSpan(0, AFTER_THREE.buf) && AllInSpan(0, AFTER_FOUR.buf)
  {
    PacketIsWellFormed([4, 5]);
    PacketIsWellFormed([2, 3, 4]);
    PacketIsWellFormed([5]);
    PacketIsWellFormed([1, 2]);
    PacketIsWellFormed([3, 4]);
    JoinedIsWellFormed();
  }

  /** The tests of lines 285-298 on a segment from pos to end. */
  lemma ArrivalCompares(nxt: int, pos: int, end: int)
    requires nxt - TWO_TO_THE_31 < pos < end < nxt + TWO_TO_THE_31
    ensures SegLE(Wrap(end), Wrap(nxt)) <==> end <= nxt
    ensures SegLT(Wrap(pos), Wrap(nxt)) <==> pos < nxt
    ensures SegGT(Wrap(end), Wrap(nxt)) <==> end > nxt
    ensures pos <= nxt ==> SegDiff(Wrap(nxt), Wrap(pos)) == nxt - pos
  {
    WordsCompareAsPositions(end, nxt);
    WordsCompareAsPositions(pos, nxt);
    WordsCompareAsPositions(nxt, end);
    WordsCompareAsPositions(nxt, pos);
  }

  class Tcb {
    var rcvNxt: u32
    var rcvBuf: seq<RcvHdr>
    var handedOver: seq<byte>  // what the deliver callback has consumed so far

    ghost predicate Represents(s: Rcv)
      reads this
    {
      rcvNxt == Wrap(s.nxt) && rcvBuf == Words(s.buf) && handedOver == s.out
    }

    /** Lines 301-388: walk the list to where the segment fits and file it there. */
    method InsertSegment(hdr: RcvHdr, ghost lo: int, ghost buf: seq<Node>, ghost n: Node,
                         ghost goal: seq<Node>)
      requires goal == Insert(buf, n)
      requires rcvBuf == Words(buf) && AllInSpan(lo, buf)
      requires hdr == RcvHdr(Wrap(n.pos), n.chain) && InSpan(lo, n) && SuffixLengths(n.chain)
      modifies `rcvBuf
      ensures rcvBuf == Words(goal)
    {
      var i, place, before, rest := FindPlace(hdr, lo, buf, n, goal);
      if i == |rcvBuf| {
        rcvBuf := rcvBuf + [hdr];
        return;
      }
      InsertCases(lo, rest, n);
      match place {
        case Within =>
        case Before => InsertBefore(i, hdr, lo, before, rest, n);
        case Adjacent => GrowAt(i, hdr.chain, lo, before, rest);
        case Across => GrowAcross(i, hdr, lo, before, rest, n);
      }
    }

    /** Lines 310-351: the first node that the segment does not lie behind, and how it lies
        there; the end of the list if there is none. */
    method FindPlace(hdr: RcvHdr, ghost lo: int, ghost buf: seq<Node>, ghost n: Node, ghost goal: seq<Node>)
      returns (i: nat, place: Place, ghost before: seq<Node>, ghost rest: seq<Node>)
      requires goal == Insert(buf, n)
      requires rcvBuf == Words(buf) && AllInSpan(lo, buf)
      requires hdr == RcvHdr(Wrap(n.pos), n.chain) && InSpan(lo, n) && SuffixLengths(n.chain)
      ensures i == |before| <= |rcvBuf| && rcvBuf == Words(before + rest) && AllInSpan(lo, rest)
      ensures goal == before + Insert(rest, n)
      ensures if i == |rcvBuf| then rest == []
              else rest != [] && place == PlaceOf(n, rest[0]) && place != Behind
    {
      i, place, before, rest := 0, Behind, [], buf;
      while i < |rcvBuf|
        invariant i == |before| <= |rcvBuf| && rcvBuf == Words(before + rest) && AllInSpan(lo, rest)
        invariant goal == before + Insert(rest, n)
        decreases |rest|
      {
        WordsOfParts(before, rest);
        PlacesAgree(lo, n, rest[0]);
        place := PlaceOfWords(hdr, rcvBuf[i]);
        if place != Behind {
          return;
        }
        PassOver(lo, before, rest, n);
        i, before, rest := i + 1, before + [rest[0]], rest[1..];
      }
    }

    /** Lines 338-347: only what lies behind the node is appended. */
    method GrowAcross(i: nat, hdr: RcvHdr, ghost lo: int, ghost before: seq<Node>, ghost rest: seq<Node>, ghost n: Node)
      requires rcvBuf == Words(before + rest) && i == |before| && AllInSpan(lo, rest) && rest != []
      requires hdr == RcvHdr(Wrap(n.pos), n.chain) && InSpan(lo, n) && SuffixLengths(n.chain)
      requires PlaceOf(n, rest[0]) == Across
      modifies `rcvBuf
      ensures rcvBuf == Words(before + Insert(rest, n))
    {
      WordsOfParts(before, rest);
      PlacesAgree(lo, n, rest[0]);
      InsertCases(lo, rest, n);
      var more := AdjChain(hdr.chain, SegDiff(EndOf(rcvBuf[i]), hdr.seqNo));
      GrowAt(i, more, lo, before, rest);
    }

    /** LIST_INSERT_HEAD or LIST_INSERT_AFTER, then the consume loop. */
    method InsertBefore(i: nat, hdr: RcvHdr, ghost lo: int,
                        ghost before: seq<Node>, ghost rest: seq<Node>, ghost n: Node)
      requires rcvBuf == Words(before + rest) && i == |before| && AllInSpan(lo, rest)
      requires hdr == RcvHdr(Wrap(n.pos), n.chain) && InSpan(lo, n)
      modifies `rcvBuf
      ensures rcvBuf == Words(before + ([n] + Consume(n.End(), rest)))
    {
      NodeCompares(lo, n.pos, n);
      WellFormedIsNotEmpty(n.chain);
      WordsOfParts(before, rest);
      var followers := ConsumeFollowers(rcvBuf[i..], EndOf(hdr), lo, n.End(), rest);
      rcvBuf := rcvBuf[..i] + [hdr] + followers;
      WordsOfWhole(before, n, Consume(n.End(), rest));
    }

    /** data_mbuf_merge into the i-th node, then the consume loop. */
    method GrowAt(i: nat, more: Chain, ghost lo: int, ghost before: seq<Node>, ghost rest: seq<Node>)
      requires rcvBuf == Words(before + rest) && i == |before| && AllInSpan(lo, rest) && rest != []
      requires WellFormed(more) && rest[0].End() + PktLen(more) < lo + TWO_TO_THE_31
      modifies `rcvBuf
      ensures rcvBuf == Words(before + Grown(rest[0], more, rest[1..]))
    {
      WordsOfParts(before, rest);
      GrownNode(lo, rest[0], more);
      var seg := rcvBuf[i].(chain := Merge(rcvBuf[i].chain, more));
      ghost var node := rest[0].(chain := Join(rest[0].chain, more));
      var followers := ConsumeFollowers(rcvBuf[i + 1..], EndOf(seg), lo, node.End(), rest[1..]);
      rcvBuf := rcvBuf[..i] + [seg] + followers;
      WordsOfWhole(before, node, Consume(node.End(), rest[1..]));
    }

    /** One turn of the loop at lines 406-428: offer the head of the list. */
    method OfferHead(replies: seq<nat>, ghost lo: int, ghost t: Rcv)
      returns (segDelivered: nat, whole: bool)
      requires Represents(t) && t.buf != [] && t.nxt == t.buf[0].pos && DeliverableSpan(lo, t.nxt, t.buf)
      modifies this
      ensures segDelivered == Consumed(replies, PktLen(t.buf[0].chain))
      ensures whole <==> segDelivered == PktLen(t.buf[0].chain)
      ensures Represents(if whole then HeadDelivered(t) else Deliver(t, replies))
      ensures t.nxt + segDelivered < lo + TWO_TO_THE_31
      ensures if whole then
                && DeliverableSpan(lo, HeadDelivered(t).nxt, HeadDelivered(t).buf)
                && HeadDelivered(t).nxt == t.nxt + segDelivered
                && Deliver(t, replies) == Deliver(HeadDelivered(t), RestOf(replies))
              else
                && Deliver(t, replies).nxt == t.nxt + segDelivered
    {
      DeliverTurn(lo, t, replies);
      var seg := rcvBuf[0];
      segDelivered := Consumed(replies, PktLen(seg.chain));
      handedOver := handedOver + Prefix(Bytes(seg.chain), segDelivered);
      WrapOfSum(t.nxt, segDelivered);
      rcvNxt := Wrap(rcvNxt + segDelivered);
      whole := segDelivered == PktLen(seg.chain);
      if whole {
        rcvBuf := rcvBuf[1..];
      } else {
        var cut := AdjChain(seg.chain, segDelivered);
        rcvBuf := [seg.(chain := cut)] + rcvBuf[1..];
      }
    }

    /** Lines 406-430. */
    method DeliverInOrder(answers: seq<nat>, ghost lo: int, ghost s: Rcv, ghost goal: Rcv)
      returns (delivered: u32)
      requires Represents(s) && lo <= s.nxt < lo + TWO_TO_THE_31 && DeliverableSpan(lo, s.nxt, s.buf)
      requires goal == Deliver(s, answers)
      modifies this
      ensures Represents(goal) && delivered == goal.nxt - s.nxt
    {
      delivered := 0;
      var replies := answers;
      ghost var t := s;
      while rcvBuf != [] && rcvNxt == rcvBuf[0].seqNo
        invariant Represents(t) && lo <= t.nxt < lo + TWO_TO_THE_31 && DeliverableSpan(lo, t.nxt, t.buf)
        invariant Deliver(t, replies) == goal
        invariant delivered == t.nxt - s.nxt
        decreases |rcvBuf|
      {
        WordsCompareAsPositions(t.nxt, t.buf[0].pos);
        var segDelivered, whole := OfferHead(replies, lo, t);
        delivered := delivered + segDelivered;
        if !whole {
          return;
        }
        t, replies := HeadDelivered(t), RestOf(replies);
      }
      if t.buf != [] {
        WordsCompareAsPositions(t.nxt, t.buf[0].pos);
      }
    }

    /** tcp_data_handle. Whatever state s and segment a the words stand for, as
        long as they lie within half of the sequence space, the words afterwards
        stand for Handle(s, a). */
    method DataHandle(segSeq: u32, mbuf: Chain, answers: seq<nat>,
                      ghost lo: int, ghost s: Rcv, ghost a: Arrival)
      returns (delivered: u32)
      requires Represents(s) && AllInSpan(lo, s.buf) && lo <= s.nxt < lo + TWO_TO_THE_31
      requires a.chain == mbuf && a.answers == answers && segSeq == Wrap(a.pos)
      requires WellFormed(mbuf) && SuffixLengths(mbuf)
      requires s.nxt - TWO_TO_THE_31 < a.pos && a.pos + PktLen(mbuf) < lo + TWO_TO_THE_31
      modifies this
      ensures Represents(Handle(s, a))
      ensures delivered == Handle(s, a).nxt - s.nxt
    {
      delivered := 0;
      WellFormedIsNotEmpty(mbuf);
      ArrivalCompares(s.nxt, a.pos, a.pos + PktLen(mbuf));
      WrapOfSum(a.pos, PktLen(mbuf));
      if SegLE(Wrap(segSeq + PktLen(mbuf)), rcvNxt) {
        return;
      }
      ghost var n := Fresh(s.nxt, a);
      var hdr := CutOld(segSeq, mbuf, lo, s, a, n);
      InsertSegment(hdr, lo, s.buf, n, Insert(s.buf, n));
      InsertIsDeliverable(lo, s.nxt, s.buf, n);
      delivered := DeliverInOrder(answers, lo, Stored(s, a), Handle(s, a));
    }

    /** Lines 288-301: cut off what was received before. */
    method CutOld(segSeq: u32, mbuf: Chain, ghost lo: int, ghost s: Rcv, ghost a: Arrival, ghost n: Node)
      returns (hdr: RcvHdr)
      requires rcvNxt == Wrap(s.nxt) && lo <= s.nxt && a.chain == mbuf && segSeq == Wrap(a.pos) && n == Fresh(s.nxt, a)
      requires WellFormed(mbuf) && SuffixLengths(mbuf)
      requires s.nxt - TWO_TO_THE_31 < a.pos && s.nxt < a.pos + PktLen(mbuf) < lo + TWO_TO_THE_31
      ensures hdr == RcvHdr(Wrap(n.pos), n.chain) && InSpan(lo, n) && SuffixLengths(n.chain)
    {
      var seq_, mbuf_ := segSeq, mbuf;
      WellFormedIsNotEmpty(mbuf);
      ArrivalCompares(s.nxt, a.pos, a.pos + PktLen(mbuf));
      WrapOfSum(a.pos, PktLen(mbuf));
      if SegLT(segSeq, rcvNxt) && SegGT(Wrap(segSeq + PktLen(mbuf)), rcvNxt) {
        TrimKeepsForm(mbuf, s.nxt - a.pos);
        mbuf_ := AdjChain(mbuf, SegDiff(rcvNxt, segSeq));
        seq_ := rcvNxt;
      }
      hdr := RcvHdr(seq_, mbuf_);
    }

    /** The five segments that corrupt the stream, on the 32-bit code: the application
        gets 5 in the place of 4. */
    method ReceiveStraddling()
      requires Represents(Rcv(0, [], []))
      modifies this
      ensures handedOver == [0, 1, 2, 3, 5] && rcvNxt == 5
    {
      StraddlingSpans();
      FirstStep();
      ReceivePacket(4, [4, 5], Rcv(0, [], []), AFTER_ONE);
      SecondStep();
      ReceivePacket(2, [2, 3, 4], AFTER_ONE, AFTER_TWO);
      ThirdStep();
      ReceivePacket(1, [1, 2], AFTER_TWO, AFTER_THREE);
      FourthStep();
      ReceivePacket(3, [3], AFTER_THREE, AFTER_FOUR);
      FifthStep();
      ReceivePacket(0, [0], AFTER_FOUR, Rcv(5, [], [0, 1, 2, 3, 5]));
    }

    /** A packet in one mbuf near the start of the sequence space. */
    method ReceivePacket(seqNo: u32, data: seq<byte>, ghost s: Rcv, ghost t: Rcv)
      requires Represents(s) && s.nxt == 0 && AllInSpan(0, s.buf)
      requires data != [] && seqNo + |data| < TWO_TO_THE_31
      requires t == Handle(s, Arrival(seqNo, Packet(data), []))
      modifies this
      ensures Represents(t)
    {
      PacketIsWellFormed(data);
      var delivered := DataHandle(seqNo, Packet(data), [], 0, s, Arrival(seqNo, Packet(data), []));
    }

    /** Whole runs of the 32-bit code: after any harmless sequence of segments the
        application holds exactly the stream up to the position RCV.NXT stands
        for, however often the sequence number has wrapped. */
    method ReceiveAll(arrivals: seq<Arrival>, ghost stream: int -> byte, ghost start: int, ghost s: Rcv)
      requires Represents(s) && Good(stream, start, s) && AllInSpan(s.nxt, s.buf)
      requires HarmlessRun(stream, s, arrivals) && WindowRun(s, arrivals)
      modifies this
      ensures Represents(Run(s, arrivals))
      ensures handedOver == Cut(stream, start, Run(s, arrivals).nxt)
    {
      ghost var goal := Run(s, arrivals);
      RunDeliversStream(stream, start, s, arrivals);
      ghost var t := s;
      var left := arrivals;
      while left != []
        invariant Represents(t) && Good(stream, start, t) && AllInSpan(t.nxt, t.buf)
        invariant HarmlessRun(stream, t, left) && WindowRun(t, left) && Run(t, left) == goal
        decreases |left|
      {
        var a := left[0];
        SpanIsKept(stream, start, t, a);
        HandleKeepsGoodIff(stream, start, t, a);
        var delivered := DataHandle(Wrap(a.pos), a.chain, a.answers, t.nxt, t, a);
        t, left := Handle(t, a), left[1..];
      }
    }
  }
}
