/** The receive side of src/tpg_tcp_data.c over unbounded stream positions: what
    tcp_data_handle does to the list of out-of-order segments, which runs it
    reassembles correctly and which it does not. TcpReceiver ties the 32-bit
    code to these functions. */
module Reassembly {
  import opened Prelude
  import opened MbufChains

  /** A node of the receive list: a chain and the position it is filed under. */
  datatype Node = Node(pos: int, chain: Chain) {
    function End(): int {
      pos + PktLen(chain)
    }
  }

  /** RCV.NXT, the receive list, and all bytes handed to the application. */
  datatype Rcv = Rcv(nxt: int, buf: seq<Node>, out: seq<byte>)

  /** One call: a segment, and what the application's deliver callback answers
      when it is called; past the end of answers it consumes everything. */
  datatype Arrival = Arrival(pos: int, chain: Chain, answers: seq<nat>)

  // ----- the code

  /** data_adj_chain where it is defined; the empty chain where it would fault. */
  function Trim(c: Chain, len: int): Chain {
    if c != [] && 0 <= len <= |Bytes(c)| then Adj(c, len) else []
  }

  function Join(dest: Chain, src: Chain): Chain {
    if dest != [] && src != [] then Merge(dest, src) else dest + src
  }

  /** TCB_RCVBUF_CONTAINED. */
  predicate Contained(a: Node, b: Node) {
    a.pos >= b.pos && a.End() <= b.End()
  }

  /** Lines 369-387: drop the followers that end within the grown segment. A
      follower that extends past it is cut but keeps its position. */
  function Consume(end: int, buf: seq<Node>): seq<Node> {
    if buf == [] || end < buf[0].pos then buf
    else if end < buf[0].End() then
      [buf[0].(chain := Trim(buf[0].chain, end - buf[0].pos))] + buf[1..]
    else Consume(end, buf[1..])
  }

  /** Lines 310-388: where a new segment goes. The list is never empty afterwards,
      so the assertion at line 395 cannot fire. */
  function Insert(buf: seq<Node>, n: Node): (r: seq<Node>)
    ensures r != []
  {
    if buf == [] then [n]
    else
      var cur := buf[0];
      if Contained(n, cur) then buf
      else if n.pos < cur.pos then [n] + Consume(n.End(), buf)
      else if n.pos == cur.End() then
        Grown(cur, n.chain, buf[1..])
      else if n.pos < cur.End() then
        Grown(cur, Trim(n.chain, cur.End() - n.pos), buf[1..])
      else [cur] + Insert(buf[1..], n)
  }

  function Grown(cur: Node, more: Chain, rest: seq<Node>): (r: seq<Node>)
    ensures r != []
  {
    var seg := cur.(chain := Join(cur.chain, more));
    [seg] + Consume(seg.End(), rest)
  }

  /** How much the next deliver callback consumes. */
  function Consumed(answers: seq<nat>, len: int): int {
    if answers == [] || answers[0] > len then len else answers[0]
  }

  function RestOf(answers: seq<nat>): seq<nat> {
    if answers == [] then [] else answers[1..]
  }

  function Prefix(s: seq<byte>, n: int): seq<byte> {
    if n <= 0 then [] else if n <= |s| then s[..n] else s
  }

  /** Lines 406-428: deliver from the head of the list while it is in order. */
  function Deliver(s: Rcv, answers: seq<nat>): Rcv
    decreases |s.buf|
  {
    if s.buf == [] || s.nxt != s.buf[0].pos then s
    else
      var seg := s.buf[0];
      var d := Consumed(answers, PktLen(seg.chain));
      var out := s.out + Prefix(Bytes(seg.chain), d);
      if d == PktLen(seg.chain) then
        Deliver(Rcv(s.nxt + d, s.buf[1..], out), RestOf(answers))
      else
        Rcv(s.nxt + d, [seg.(chain := Trim(seg.chain, d))] + s.buf[1..], out)
  }

  /** Lines 285-301: the part before RCV.NXT is cut off. */
  function Fresh(nxt: int, a: Arrival): Node {
    Node(Max(a.pos, nxt), if a.pos < nxt then Trim(a.chain, nxt - a.pos) else a.chain)
  }

  predicate Stale(nxt: int, a: Arrival) {
    a.pos + PktLen(a.chain) <= nxt
  }

  function Stored(s: Rcv, a: Arrival): Rcv {
    s.(buf := Insert(s.buf, Fresh(s.nxt, a)))
  }

  /** tcp_data_handle. */
  function Handle(s: Rcv, a: Arrival): Rcv {
    if Stale(s.nxt, a) then s else Deliver(Stored(s, a), a.answers)
  }

  function Run(s: Rcv, arrivals: seq<Arrival>): Rcv
    decreases |arrivals|
  {
    if arrivals == [] then s else Run(Handle(s, arrivals[0]), arrivals[1..])
  }

  // ----- what it should do

  /** The bytes of the stream at positions from..to. */
  function Cut(stream: int -> byte, from: int, to: int): seq<byte> {
    if to <= from then [] else seq(to - from, i => stream(from + i))
  }

  /** Sorted, pairwise disjoint, nothing before lo, all length fields right. */
  ghost predicate Ordered(lo: int, buf: seq<Node>)
    decreases |buf|
  {
    buf == [] ||
    (lo <= buf[0].pos && WellFormed(buf[0].chain) && Ordered(buf[0].End(), buf[1..]))
  }

  ghost predicate FromStream(stream: int -> byte, buf: seq<Node>) {
    forall i :: 0 <= i < |buf| ==> NodeFromStream(stream, buf[i])
  }

  ghost predicate NodeFromStream(stream: int -> byte, n: Node) {
    Bytes(n.chain) == Cut(stream, n.pos, n.End())
  }

  ghost predicate Good(stream: int -> byte, start: int, s: Rcv) {
    && start <= s.nxt
    && s.out == Cut(stream, start, s.nxt)
    && Ordered(s.nxt, s.buf)
    && FromStream(stream, s.buf)
  }

  ghost predicate Buffered(buf: seq<Node>, p: int) {
    buf != [] && (buf[0].pos <= p < buf[0].End() || Buffered(buf[1..], p))
  }

  /** Position p has been received: delivered, or waiting in the list. */
  ghost predicate Received(start: int, s: Rcv, p: int) {
    start <= p < s.nxt || Buffered(s.buf, p)
  }

  /** A segment cut from the stream, in an mbuf chain with right length fields. */
  ghost predicate Legit(stream: int -> byte, a: Arrival) {
    && WellFormed(a.chain) && SuffixLengths(a.chain)
    && NodeFromStream(stream, Node(a.pos, a.chain))
  }

  /** The new data from..to begins before a buffered segment and ends strictly
      inside it, so that the branch at line 373 cuts more than zero bytes. Data
      that begins exactly with the buffered segment does the same when the
      segment before it ends there (joins): the code then appends the data to
      that earlier segment. */
  predicate Straddled(buf: seq<Node>, from: int, to: int, joins: bool) {
    && buf != []
    && (|| ((from < buf[0].pos || (joins && from == buf[0].pos)) && buf[0].pos < to < buf[0].End())
        || Straddled(buf[1..], from, to, buf[0].End() == from))
  }

  predicate Straddles(s: Rcv, a: Arrival) {
    Straddled(s.buf, Max(a.pos, s.nxt), a.pos + PktLen(a.chain), false)
  }

  /** The application consumes some but not all of a segment it is offered. */
  predicate ConsumesPartly(s: Rcv, answers: seq<nat>)
    decreases |s.buf|
  {
    && s.buf != [] && s.nxt == s.buf[0].pos
    && var seg := s.buf[0];
       var d := Consumed(answers, PktLen(seg.chain));
       if d == PktLen(seg.chain) then
         ConsumesPartly(Rcv(s.nxt + d, s.buf[1..], []), RestOf(answers))
       else 0 < d
  }

  predicate Harmless(s: Rcv, a: Arrival) {
    !Straddles(s, a) && (Stale(s.nxt, a) || !ConsumesPartly(Stored(s, a), a.answers))
  }

  ghost predicate HarmlessRun(stream: int -> byte, s: Rcv, arrivals: seq<Arrival>)
    decreases |arrivals|
  {
    arrivals == [] ||
    (Legit(stream, arrivals[0]) && Harmless(s, arrivals[0])
     && HarmlessRun(stream, Handle(s, arrivals[0]), arrivals[1..]))
  }

  // ----- the headers of the list

  /** The list header of a node lies inside the first mbuf of its chain
      (inc/tpg_tcp.h:109-120). data_adj_chain frees that mbuf when the cut covers it
      and there are more. */
  predicate CutFrees(c: Chain, len: int) {
    |c| > 1 && len >= |c[0].data|
  }

  /** The cut at lines 373-379 frees the header of a node that stays in the list. */
  predicate ConsumeFrees(end: int, buf: seq<Node>) {
    && buf != [] && buf[0].pos <= end
    && if end < buf[0].End() then CutFrees(buf[0].chain, end - buf[0].pos) else ConsumeFrees(end, buf[1..])
  }

  predicate InsertFrees(buf: seq<Node>, n: Node) {
    && buf != []
    && var cur := buf[0];
       if Contained(n, cur) then false
       else if n.pos < cur.pos then ConsumeFrees(n.End(), buf)
       else if n.pos == cur.End() then GrownFrees(cur, n.chain, buf[1..])
       else if n.pos < cur.End() then GrownFrees(cur, Trim(n.chain, cur.End() - n.pos), buf[1..])
       else InsertFrees(buf[1..], n)
  }

  predicate GrownFrees(cur: Node, more: Chain, rest: seq<Node>) {
    ConsumeFrees(cur.(chain := Join(cur.chain, more)).End(), rest)
  }

  /** The cut at lines 424-426 frees the header of the head of the list. */
  predicate DeliverFrees(s: Rcv, answers: seq<nat>)
    decreases |s.buf|
  {
    && s.buf != [] && s.nxt == s.buf[0].pos
    && var seg := s.buf[0];
       var d := Consumed(answers, PktLen(seg.chain));
       if d == PktLen(seg.chain) then DeliverFrees(Rcv(s.nxt + d, s.buf[1..], []), RestOf(answers))
       else CutFrees(seg.chain, d)
  }

  /** The call frees a header that stays linked. What the list holds after the mbuf is
      used for something else is not described by the functions above. */
  predicate FreesHeader(s: Rcv, a: Arrival) {
    !Stale(s.nxt, a) && (InsertFrees(s.buf, Fresh(s.nxt, a)) || DeliverFrees(Stored(s, a), a.answers))
  }

  /** No call of the run does. */
  predicate KeepsHeaders(s: Rcv, arrivals: seq<Arrival>)
    decreases |arrivals|
  {
    arrivals == [] || (!FreesHeader(s, arrivals[0]) && KeepsHeaders(Handle(s, arrivals[0]), arrivals[1..]))
  }

  // ----- reading the invariant

  lemma {:induction false} OrderedMeans(lo: int, buf: seq<Node>, i: nat, j: nat)
    requires Ordered(lo, buf) && i < |buf|
    ensures lo <= buf[i].pos < buf[i].End() && WellFormed(buf[i].chain)
    ensures i < j < |buf| ==> buf[i].End() <= buf[j].pos
    decreases |buf|
  {
    assert Bytes(buf[0].chain) != [] by { assert buf[0].chain[0].data != []; }
    if i > 0 {
      OrderedMeans(buf[0].End(), buf[1..], i - 1, if j > 0 then j - 1 else 0);
    } else if 0 < j < |buf| {
      OrderedMeans(buf[0].End(), buf[1..], j - 1, j - 1);
    }
  }

  lemma WellFormedIsNotEmpty(c: Chain)
    requires WellFormed(c)
    ensures 0 < PktLen(c) == |Bytes(c)|
  {
    assert c[0].data != [];
  }

  lemma {:induction false} BufferedMeans(buf: seq<Node>, p: int)
    ensures Buffered(buf, p) <==> exists i :: 0 <= i < |buf| && buf[i].pos <= p < buf[i].End()
  {
    if buf != [] {
      BufferedMeans(buf[1..], p);
      if i :| 0 <= i < |buf| && buf[i].pos <= p < buf[i].End() {
        if i > 0 {
          assert buf[1..][i - 1].pos <= p < buf[1..][i - 1].End();
        }
      }
      if j :| 0 <= j < |buf[1..]| && buf[1..][j].pos <= p < buf[1..][j].End() {
        assert buf[j + 1].pos <= p < buf[j + 1].End();
      }
    }
  }

  lemma {:induction false} NothingBufferedBefore(lo: int, buf: seq<Node>, p: int)
    requires Ordered(lo, buf) && p < lo
    ensures !Buffered(buf, p)
    decreases |buf|
  {
    if buf != [] {
      WellFormedIsNotEmpty(buf[0].chain);
      NothingBufferedBefore(buf[0].End(), buf[1..], p);
    }
  }

  lemma CutOfCut(stream: int -> byte, from: int, mid: int, to: int)
    requires from <= mid <= to
    ensures Cut(stream, from, to) == Cut(stream, from, mid) + Cut(stream, mid, to)
    ensures Cut(stream, from, to)[mid - from..] == Cut(stream, mid, to)
  {
  }

  // ----- insertion

  /** Dropping the covered followers loses no position, unless one is straddled. */
  lemma {:induction false} ConsumeKeeps(stream: int -> byte, lo: int, from: int, end: int, buf: seq<Node>)
    requires Ordered(lo, buf) && FromStream(stream, buf) && from < lo && !Straddled(buf, from, end, false)
    ensures Ordered(end, Consume(end, buf)) && FromStream(stream, Consume(end, buf))
    ensures forall p :: from <= p < end || Buffered(Consume(end, buf), p)
                   <==> from <= p < end || Buffered(buf, p)
    decreases |buf|
  {
    if buf == [] || end < buf[0].pos {
    } else {
      WellFormedIsNotEmpty(buf[0].chain);
      if end < buf[0].End() {
        assert end == buf[0].pos;
        AdjOfNothing(buf[0].chain);
        assert Consume(end, buf) == buf;
      } else {
        StraddledBehind(buf[0].End(), buf[1..], from, from, end, buf[0].End() == from);
        ConsumeKeeps(stream, buf[0].End(), from, end, buf[1..]);
      }
    }
  }

  lemma TrimLeavesRest(stream: int -> byte, n: Node, at: int)
    requires WellFormed(n.chain) && NodeFromStream(stream, n) && n.pos <= at < n.End()
    ensures Bytes(Trim(n.chain, at - n.pos)) == Cut(stream, at, n.End())
  {
    WellFormedIsNotEmpty(n.chain);
    CutOfCut(stream, n.pos, at, n.End());
    AdjDropsBytes(n.chain, at - n.pos);
  }

  /** Which followers a grown segment drops and what it cuts: the first node that ends
      behind it keeps its position, and of its bytes those behind the segment. */
  lemma {:induction false} ConsumeCuts(stream: int -> byte, lo: int, end: int, buf: seq<Node>) returns (i: nat)
    requires Ordered(lo, buf) && FromStream(stream, buf)
    ensures i <= |buf| && (forall j :: 0 <= j < i ==> buf[j].End() <= end) && (i < |buf| ==> end < buf[i].End())
    ensures if i < |buf| && buf[i].pos <= end then
              var rest := Consume(end, buf);
              && rest != [] && rest[1..] == buf[i + 1..] && rest[0].pos == buf[i].pos
              && Bytes(rest[0].chain) == Cut(stream, end, buf[i].End())
            else Consume(end, buf) == buf[i..]
    decreases |buf|
  {
    if buf == [] || end < buf[0].End() {
      i := 0;
      if buf != [] && buf[0].pos <= end {
        assert NodeFromStream(stream, buf[0]);
        TrimLeavesRest(stream, buf[0], end);
      }
    } else {
      WellFormedIsNotEmpty(buf[0].chain);
      i := ConsumeCuts(stream, buf[0].End(), end, buf[1..]);
      assert buf[1..][i..] == buf[i + 1..] && (i < |buf[1..]| ==> buf[1..][i + 1..] == buf[i + 2..]);
      i := i + 1;
    }
  }

  lemma JoinExtends(stream: int -> byte, cur: Node, more: Chain)
    requires WellFormed(cur.chain) && WellFormed(more)
    requires NodeFromStream(stream, cur) && NodeFromStream(stream, Node(cur.End(), more))
    ensures var seg := cur.(chain := Join(cur.chain, more));
            WellFormed(seg.chain) && NodeFromStream(stream, seg) && seg.End() == cur.End() + PktLen(more)
  {
    MergeJoins(cur.chain, more);
    WellFormedIsNotEmpty(cur.chain);
    WellFormedIsNotEmpty(more);
    CutOfCut(stream, cur.pos, cur.End(), cur.End() + PktLen(more));
  }

  lemma TrimAdvances(stream: int -> byte, n: Node, len: nat)
    requires WellFormed(n.chain) && SuffixLengths(n.chain) && NodeFromStream(stream, n)
    requires len < PktLen(n.chain)
    ensures var m := Node(n.pos + len, Trim(n.chain, len));
            && WellFormed(m.chain) && SuffixLengths(m.chain) && NodeFromStream(stream, m)
            && m.End() == n.End()
  {
    TrimKeepsForm(n.chain, len);
    CutOfCut(stream, n.pos, n.pos + len, n.End());
  }

  /** A cut in front of the end leaves a chain of the same form. */
  lemma TrimKeepsForm(c: Chain, len: nat)
    requires WellFormed(c) && SuffixLengths(c) && len < PktLen(c)
    ensures WellFormed(Trim(c, len)) && SuffixLengths(Trim(c, len))
    ensures PktLen(Trim(c, len)) == PktLen(c) - len && Bytes(Trim(c, len)) == Bytes(c)[len..]
    ensures Trim(c, len) == Adj(c, len)
  {
    SecondLength(c);
    AdjDropsBytes(c, len);
    AdjKeepsSuffixLengths(c, len);
    AdjKeepsWellFormed(c, len);
  }

  lemma SecondLength(c: Chain)
    requires c != [] && SuffixLengths(c)
    ensures |c| > 1 ==> c[1].pktLen == |Bytes(c)| - |c[0].data|
  {
    if |c| > 1 {
      assert SuffixLengths(c[1..]) && c[1..][0] == c[1];
    }
  }

  ghost predicate Insertable(stream: int -> byte, lo: int, buf: seq<Node>, n: Node) {
    && Ordered(lo, buf) && FromStream(stream, buf)
    && lo <= n.pos && WellFormed(n.chain) && SuffixLengths(n.chain) && NodeFromStream(stream, n)
  }

  /** Growing the head of a list by data that starts where it ends. */
  lemma GrownKeeps(stream: int -> byte, lo: int, buf: seq<Node>, more: Chain)
    requires Ordered(lo, buf) && FromStream(stream, buf) && buf != []
    requires WellFormed(more) && NodeFromStream(stream, Node(buf[0].End(), more))
    requires !Straddled(buf[1..], buf[0].pos, buf[0].End() + PktLen(more), false)
    ensures var r := Grown(buf[0], more, buf[1..]);
            && Ordered(lo, r) && FromStream(stream, r)
            && (forall p :: Buffered(r, p) <==>
                  Buffered(buf, p) || buf[0].End() <= p < buf[0].End() + PktLen(more))
  {
    var cur := buf[0];
    WellFormedIsNotEmpty(cur.chain);
    WellFormedIsNotEmpty(more);
    JoinExtends(stream, cur, more);
    var seg := cur.(chain := Join(cur.chain, more));
    ConsumeKeeps(stream, cur.End(), cur.pos, seg.End(), buf[1..]);
    var r := [seg] + Consume(seg.End(), buf[1..]);
    assert r[1..] == Consume(seg.End(), buf[1..]);
  }

  /** Behind both starting points it does not matter which one the data has. */
  lemma {:induction false} StraddledBehind(lo: int, buf: seq<Node>, a: int, b: int, to: int, joins: bool)
    requires Ordered(lo, buf) && b < lo && (a < lo || (a == lo && joins))
    ensures Straddled(buf, a, to, joins) <==> Straddled(buf, b, to, false)
    decreases |buf|
  {
    if buf != [] {
      WellFormedIsNotEmpty(buf[0].chain);
      StraddledBehind(buf[0].End(), buf[1..], a, b, to, buf[0].End() == a);
      StraddledBehind(buf[0].End(), buf[1..], b, b, to, buf[0].End() == b);
    }
  }

  /** The part of a segment that lies behind a node it begins in or after. */
  function Beyond(cur: Node, n: Node): Chain {
    if n.pos == cur.End() then n.chain else Trim(n.chain, cur.End() - n.pos)
  }

  lemma InsertGrows(stream: int -> byte, lo: int, buf: seq<Node>, n: Node)
    requires Insertable(stream, lo, buf, n) && buf != [] && buf[0].pos <= n.pos <= buf[0].End() < n.End()
    ensures var more := Beyond(buf[0], n);
            && Insert(buf, n) == Grown(buf[0], more, buf[1..])
            && WellFormed(more) && NodeFromStream(stream, Node(buf[0].End(), more))
            && buf[0].End() + PktLen(more) == n.End()
  {
    InsertIntoHead(buf, n);
    BeyondIsRight(stream, buf[0], n);
  }

  lemma BeyondIsRight(stream: int -> byte, cur: Node, n: Node)
    requires WellFormed(n.chain) && SuffixLengths(n.chain) && NodeFromStream(stream, n)
    requires n.pos <= cur.End() < n.End()
    ensures var m := Node(cur.End(), Beyond(cur, n));
            WellFormed(m.chain) && NodeFromStream(stream, m) && m.End() == n.End()
  {
    if n.pos < cur.End() {
      TrimAdvances(stream, n, cur.End() - n.pos);
      assert n.pos + (cur.End() - n.pos) == cur.End();
    }
  }

  lemma InsertIntoHead(buf: seq<Node>, n: Node)
    requires buf != [] && buf[0].pos <= n.pos <= buf[0].End() < n.End()
    ensures Insert(buf, n) == Grown(buf[0], Beyond(buf[0], n), buf[1..])
  {
  }

  lemma InsertedBeforeKeeps(stream: int -> byte, lo: int, buf: seq<Node>, n: Node)
    requires Insertable(stream, lo, buf, n) && !Straddled(buf, n.pos, n.End(), false)
    requires buf != [] && n.pos < buf[0].pos
    ensures var r := [n] + Consume(n.End(), buf);
            && Ordered(lo, r) && FromStream(stream, r)
            && forall p :: Buffered(r, p) <==> Buffered(buf, p) || n.pos <= p < n.End()
  {
    WellFormedIsNotEmpty(n.chain);
    ConsumeKeeps(stream, buf[0].pos, n.pos, n.End(), buf);
    var r := [n] + Consume(n.End(), buf);
    assert r[1..] == Consume(n.End(), buf);
  }

  /** Filing a segment that straddles no buffered one keeps the list ordered and
      true to the stream, and adds exactly the positions of the segment. */
  lemma {:induction false} InsertKeeps(stream: int -> byte, lo: int, buf: seq<Node>, n: Node)
    requires Insertable(stream, lo, buf, n) && !Straddled(buf, n.pos, n.End(), false)
    ensures Ordered(lo, Insert(buf, n)) && FromStream(stream, Insert(buf, n))
    ensures forall p :: Buffered(Insert(buf, n), p) <==> Buffered(buf, p) || n.pos <= p < n.End()
    decreases |buf|
  {
    WellFormedIsNotEmpty(n.chain);
    if buf != [] {
      var cur := buf[0];
      WellFormedIsNotEmpty(cur.chain);
      if Contained(n, cur) {
      } else if n.pos < cur.pos {
        InsertedBeforeKeeps(stream, lo, buf, n);
      } else if n.pos <= cur.End() {
        StraddledBehind(cur.End(), buf[1..], n.pos, cur.pos, n.End(), cur.End() == n.pos);
        InsertGrows(stream, lo, buf, n);
        GrownKeeps(stream, lo, buf, Beyond(cur, n));
      } else {
        InsertKeeps(stream, cur.End(), buf[1..], n);
        var r := [cur] + Insert(buf[1..], n);
        assert r[1..] == Insert(buf[1..], n);
      }
    }
  }

  // ----- delivery

  function HeadDelivered(s: Rcv): Rcv
    requires s.buf != []
  {
    Rcv(s.buf[0].End(), s.buf[1..], s.out + Prefix(Bytes(s.buf[0].chain), PktLen(s.buf[0].chain)))
  }

  lemma DeliverHeadKeeps(stream: int -> byte, start: int, s: Rcv)
    requires Good(stream, start, s) && s.buf != [] && s.nxt == s.buf[0].pos
    ensures Good(stream, start, HeadDelivered(s))
    ensures forall p :: Received(start, HeadDelivered(s), p) <==> Received(start, s, p)
  {
    WellFormedIsNotEmpty(s.buf[0].chain);
    CutOfCut(stream, start, s.nxt, s.buf[0].End());
    assert NodeFromStream(stream, s.buf[0]);
  }

  /** Delivery moves bytes from the list to the application without losing,
      repeating or changing a position, as long as each callback takes all of
      a segment or none of it. When every callback takes all, it stops at
      the first position that has not been received. */
  lemma {:induction false} DeliverKeeps(stream: int -> byte, start: int, s: Rcv, answers: seq<nat>)
    requires Good(stream, start, s) && !ConsumesPartly(s, answers)
    ensures Good(stream, start, Deliver(s, answers))
    ensures forall p :: Received(start, Deliver(s, answers), p) <==> Received(start, s, p)
    decreases |s.buf|
  {
    if s.buf != [] && s.nxt == s.buf[0].pos {
      var seg := s.buf[0];
      WellFormedIsNotEmpty(seg.chain);
      if Consumed(answers, PktLen(seg.chain)) == PktLen(seg.chain) {
        var t := HeadDelivered(s);
        DeliverHeadKeeps(stream, start, s);
        PartlyIgnoresOutput(t, t.(out := []), RestOf(answers));
        DeliverKeeps(stream, start, t, RestOf(answers));
      } else {
        NothingDelivered(s, answers);
      }
    }
  }

  /** What one callback does to the list: when the application consumes n bytes of the
      head, fewer than it holds, it has the stream up to n bytes further, the head
      holds exactly the bytes behind them under its old position, and delivery
      stops; otherwise delivery goes on behind the head. */
  lemma {:induction false} OneCallback(stream: int -> byte, start: int, s: Rcv, answers: seq<nat>)
    requires Good(stream, start, s) && s.buf != [] && s.nxt == s.buf[0].pos
    ensures var head, t := s.buf[0], Deliver(s, answers);
            if answers != [] && answers[0] < |Bytes(head.chain)| then
              && t.nxt == s.nxt + answers[0] && t.out == Cut(stream, start, t.nxt)
              && |t.buf| == |s.buf| && t.buf[1..] == s.buf[1..] && t.buf[0].pos == head.pos
              && Bytes(t.buf[0].chain) == Cut(stream, t.nxt, head.End())
            else t == Deliver(HeadDelivered(s), RestOf(answers))
  {
    var head := s.buf[0];
    WellFormedIsNotEmpty(head.chain);
    if answers != [] && answers[0] < |Bytes(head.chain)| {
      HeadCut(s, answers);
      assert NodeFromStream(stream, head);
      TrimLeavesRest(stream, head, s.nxt + answers[0]);
      PrefixContinues(stream, start, head, answers[0]);
    } else {
      HeadTaken(s, answers);
    }
  }

  lemma {:induction false} HeadCut(s: Rcv, answers: seq<nat>)
    requires s.buf != [] && s.nxt == s.buf[0].pos && answers != [] && answers[0] < PktLen(s.buf[0].chain)
    ensures var c, n := s.buf[0].chain, answers[0];
            Deliver(s, answers) == Rcv(s.nxt + n, [s.buf[0].(chain := Trim(c, n))] + s.buf[1..], s.out + Prefix(Bytes(c), n))
  {
  }

  lemma {:induction false} HeadTaken(s: Rcv, answers: seq<nat>)
    requires s.buf != [] && s.nxt == s.buf[0].pos && (answers == [] || answers[0] >= PktLen(s.buf[0].chain))
    ensures Deliver(s, answers) == Deliver(HeadDelivered(s), RestOf(answers))
  {
  }

  lemma PrefixContinues(stream: int -> byte, start: int, n: Node, len: nat)
    requires start <= n.pos && NodeFromStream(stream, n) && len <= |Bytes(n.chain)|
    ensures Cut(stream, start, n.pos) + Prefix(Bytes(n.chain), len) == Cut(stream, start, n.pos + len)
  {
    CutOfCut(stream, start, n.pos, n.pos + len);
    assert Prefix(Bytes(n.chain), len) == Cut(stream, n.pos, n.pos + len);
  }

  /** An application that takes everything gets everything up to the first gap. */
  lemma {:induction false} DeliverStopsAtGap(s: Rcv)
    requires Ordered(s.nxt, s.buf)
    ensures !Buffered(Deliver(s, []).buf, Deliver(s, []).nxt)
    decreases |s.buf|
  {
    if s.buf != [] {
      if s.nxt == s.buf[0].pos {
        DeliverHead(s);
        DeliverStopsAtGap(HeadDelivered(s));
      } else {
        NothingBufferedBefore(s.buf[0].pos, s.buf, s.nxt);
      }
    }
  }

  lemma NothingDelivered(s: Rcv, answers: seq<nat>)
    requires s.buf != [] && s.nxt == s.buf[0].pos && WellFormed(s.buf[0].chain)
    requires Consumed(answers, PktLen(s.buf[0].chain)) == 0 < PktLen(s.buf[0].chain)
    ensures Deliver(s, answers) == s
  {
    var seg := s.buf[0];
    AdjOfNothing(seg.chain);
    assert [seg] + s.buf[1..] == s.buf && s.out + [] == s.out;
  }

  lemma {:induction false} PartlyIgnoresOutput(s: Rcv, t: Rcv, answers: seq<nat>)
    requires s.nxt == t.nxt && s.buf == t.buf
    ensures ConsumesPartly(s, answers) == ConsumesPartly(t, answers)
  {
  }

  /** The head of the list is filed under a position that was already passed. */
  predicate Wedged(s: Rcv) {
    s.buf != [] && s.buf[0].pos < s.nxt
  }

  lemma {:induction false} PartialDeliveryWedges(s: Rcv, answers: seq<nat>)
    requires ConsumesPartly(s, answers)
    ensures Wedged(Deliver(s, answers))
    decreases |s.buf|
  {
    var seg := s.buf[0];
    var d := Consumed(answers, PktLen(seg.chain));
    if d == PktLen(seg.chain) {
      var t := Rcv(s.nxt + d, s.buf[1..], s.out + Prefix(Bytes(seg.chain), d));
      PartlyIgnoresOutput(t, t.(out := []), RestOf(answers));
      PartialDeliveryWedges(t, RestOf(answers));
    }
  }

  // ----- what a straddling segment does

  ghost predicate Overlapping(buf: seq<Node>) {
    && |buf| >= 2
    && ((WellFormed(buf[0].chain) && buf[1].pos < buf[0].End()) || Overlapping(buf[1..]))
  }

  lemma {:induction false} OrderedIsNotOverlapping(lo: int, buf: seq<Node>)
    requires Ordered(lo, buf)
    ensures !Overlapping(buf)
    decreases |buf|
  {
    if buf != [] {
      OrderedIsNotOverlapping(buf[0].End(), buf[1..]);
    }
  }

  lemma {:induction false} ConsumeStraddled(lo: int, from: int, end: int, buf: seq<Node>)
    requires Ordered(lo, buf) && from < lo && Straddled(buf, from, end, false)
    ensures var r := Consume(end, buf); r != [] && r[0].pos < end
    decreases |buf|
  {
    WellFormedIsNotEmpty(buf[0].chain);
    if buf[0].pos < end < buf[0].End() {
    } else {
      StraddledBehind(buf[0].End(), buf[1..], from, from, end, buf[0].End() == from);
      StraddledReaches(buf[0].End(), buf[1..], from, end);
      ConsumeStraddled(buf[0].End(), from, end, buf[1..]);
    }
  }

  lemma {:induction false} StraddledReaches(lo: int, buf: seq<Node>, from: int, to: int)
    requires Ordered(lo, buf) && from < lo && Straddled(buf, from, to, false)
    ensures lo < to
    decreases |buf|
  {
    WellFormedIsNotEmpty(buf[0].chain);
    if !(from < buf[0].pos < to < buf[0].End()) {
      StraddledBehind(buf[0].End(), buf[1..], from, from, to, buf[0].End() == from);
      StraddledReaches(buf[0].End(), buf[1..], from, to);
    }
  }

  lemma OverlappingBehind(cur: Node, rest: seq<Node>)
    requires Overlapping(rest)
    ensures Overlapping([cur] + rest)
  {
    assert ([cur] + rest)[1..] == rest;
  }

  lemma StraddledBefore(lo: int, buf: seq<Node>, n: Node)
    requires Ordered(lo, buf) && buf != [] && n.pos < buf[0].pos && WellFormed(n.chain)
    requires Straddled(buf, n.pos, n.End(), false)
    ensures var r := Insert(buf, n);
            Overlapping(r) && |r| >= 2 && r[0].pos == n.pos && PktLen(r[0].chain) > 0 && r[1].pos < r[0].End()
  {
    WellFormedIsNotEmpty(n.chain);
    ConsumeStraddled(buf[0].pos, n.pos, n.End(), buf);
    assert Insert(buf, n) == [n] + Consume(n.End(), buf);
  }

  lemma {:induction false} GrownStraddled(stream: int -> byte, lo: int, buf: seq<Node>, more: Chain)
    requires Ordered(lo, buf) && FromStream(stream, buf) && buf != []
    requires WellFormed(more) && NodeFromStream(stream, Node(buf[0].End(), more))
    requires Straddled(buf[1..], buf[0].pos, buf[0].End() + PktLen(more), false)
    ensures var r := Grown(buf[0], more, buf[1..]);
            Overlapping(r) && r[0].pos == buf[0].pos && PktLen(r[0].chain) > 0 && r[1].pos < r[0].End()
  {
    var cur := buf[0];
    WellFormedIsNotEmpty(cur.chain);
    JoinExtends(stream, cur, more);
    var seg := cur.(chain := Join(cur.chain, more));
    WellFormedIsNotEmpty(seg.chain);
    ConsumeStraddled(cur.End(), cur.pos, seg.End(), buf[1..]);
  }

  lemma {:induction false} StraddledInside(stream: int -> byte, lo: int, buf: seq<Node>, n: Node)
    requires Insertable(stream, lo, buf, n) && buf != [] && buf[0].pos <= n.pos <= buf[0].End() < n.End()
    requires Straddled(buf[1..], n.pos, n.End(), buf[0].End() == n.pos)
    ensures var r := Insert(buf, n);
            Overlapping(r) && r[0].pos == buf[0].pos && PktLen(r[0].chain) > 0 && r[1].pos < r[0].End()
  {
    var cur := buf[0];
    WellFormedIsNotEmpty(cur.chain);
    StraddledBehind(cur.End(), buf[1..], n.pos, cur.pos, n.End(), cur.End() == n.pos);
    InsertGrows(stream, lo, buf, n);
    GrownStraddled(stream, lo, buf, Beyond(cur, n));
  }

  lemma {:induction false} InsertStraddled(stream: int -> byte, lo: int, buf: seq<Node>, n: Node)
    requires Insertable(stream, lo, buf, n) && Straddled(buf, n.pos, n.End(), false)
    ensures Overlapping(Insert(buf, n))
    ensures n.pos <= buf[0].pos ==>
              var r := Insert(buf, n);
              |r| >= 2 && r[0].pos == n.pos && PktLen(r[0].chain) > 0 && r[1].pos < r[0].End()
    decreases |buf|
  {
    var cur := buf[0];
    WellFormedIsNotEmpty(n.chain);
    WellFormedIsNotEmpty(cur.chain);
    if n.pos < cur.pos {
      StraddledBefore(lo, buf, n);
    } else {
      StraddledBehindHead(lo, buf, n);
      if n.pos <= cur.End() {
        StraddledInside(stream, lo, buf, n);
      } else {
        InsertStraddled(stream, cur.End(), buf[1..], n);
        OverlappingBehind(cur, Insert(buf[1..], n));
      }
    }
  }

  lemma StraddledBehindHead(lo: int, buf: seq<Node>, n: Node)
    requires Ordered(lo, buf) && buf != [] && buf[0].pos <= n.pos
    requires Straddled(buf, n.pos, n.End(), false)
    ensures Straddled(buf[1..], n.pos, n.End(), buf[0].End() == n.pos) && buf[0].End() < n.End()
  {
    var cur := buf[0];
    WellFormedIsNotEmpty(cur.chain);
    if n.pos <= cur.End() {
      StraddledBehind(cur.End(), buf[1..], n.pos, cur.pos, n.End(), cur.End() == n.pos);
      StraddledReaches(cur.End(), buf[1..], cur.pos, n.End());
    } else {
      StraddledHasExtent(buf[1..], n.pos, n.End(), false);
    }
  }

  lemma {:induction false} StraddledHasExtent(buf: seq<Node>, from: int, to: int, joins: bool)
    requires Straddled(buf, from, to, joins)
    ensures from < to
    decreases |buf|
  {
    if !((from < buf[0].pos || (joins && from == buf[0].pos)) && buf[0].pos < to < buf[0].End()) {
      StraddledHasExtent(buf[1..], from, to, buf[0].End() == from);
    }
  }

  lemma {:induction false} DeliverOverlapping(s: Rcv, answers: seq<nat>)
    requires Overlapping(s.buf)
    ensures !Ordered(Deliver(s, answers).nxt, Deliver(s, answers).buf)
    decreases |s.buf|
  {
    var seg := s.buf[0];
    if s.nxt != seg.pos {
      if Ordered(s.nxt, s.buf) {
        OrderedIsNotOverlapping(s.nxt, s.buf);
      }
    } else {
      var d := Consumed(answers, PktLen(seg.chain));
      if d == PktLen(seg.chain) {
        var t := Rcv(s.nxt + d, s.buf[1..], s.out + Prefix(Bytes(seg.chain), d));
        if Overlapping(s.buf[1..]) {
          DeliverOverlapping(t, RestOf(answers));
        } else {
          assert t.buf[0].pos < t.nxt;
        }
      } else {
        var r := [seg.(chain := Trim(seg.chain, d))] + s.buf[1..];
        assert r[1..] == s.buf[1..];
        if Ordered(s.nxt + d, r) {
          OrderedIsNotOverlapping(s.nxt + d, r);
          if !Overlapping(s.buf[1..]) {
            WellFormedIsNotEmpty(seg.chain);
            AdjOfNothing(seg.chain);
          }
        }
      }
    }
  }

  // ----- one call

  lemma FreshIsInsertable(stream: int -> byte, start: int, s: Rcv, a: Arrival)
    requires Good(stream, start, s) && Legit(stream, a) && !Stale(s.nxt, a)
    ensures Insertable(stream, s.nxt, s.buf, Fresh(s.nxt, a))
    ensures Fresh(s.nxt, a).End() == a.pos + PktLen(a.chain)
  {
    FreshIsRight(stream, s.nxt, a);
  }

  lemma FreshIsRight(stream: int -> byte, nxt: int, a: Arrival)
    requires Legit(stream, a) && !Stale(nxt, a)
    ensures var n := Fresh(nxt, a);
            && nxt <= n.pos && n.End() == a.pos + PktLen(a.chain)
            && WellFormed(n.chain) && SuffixLengths(n.chain) && NodeFromStream(stream, n)
  {
    if a.pos < nxt {
      TrimAdvances(stream, Node(a.pos, a.chain), nxt - a.pos);
      assert a.pos + (nxt - a.pos) == nxt;
    }
  }

  /** From a good state, tcp_data_handle keeps the state good if and only if the
      segment straddles no buffered one and the application does not stop in
      the middle of a segment. A caller can evaluate both beforehand. */
  lemma HandleKeepsGoodIff(stream: int -> byte, start: int, s: Rcv, a: Arrival)
    requires Good(stream, start, s) && Legit(stream, a)
    ensures Good(stream, start, Handle(s, a)) <==> Harmless(s, a)
  {
    if Stale(s.nxt, a) {
      if Straddles(s, a) {
        StraddledHasExtent(s.buf, Max(a.pos, s.nxt), a.pos + PktLen(a.chain), false);
      }
    } else {
      var n := Fresh(s.nxt, a);
      FreshIsInsertable(stream, start, s, a);
      if Straddles(s, a) {
        InsertStraddled(stream, s.nxt, s.buf, n);
        DeliverOverlapping(Stored(s, a), a.answers);
      } else {
        InsertKeeps(stream, s.nxt, s.buf, n);
        if ConsumesPartly(Stored(s, a), a.answers) {
          PartialDeliveryWedges(Stored(s, a), a.answers);
        } else {
          DeliverKeeps(stream, start, Stored(s, a), a.answers);
        }
      }
    }
  }

  /** A harmless call receives exactly the positions of its segment, and with an
      application that takes everything RCV.NXT is the next missing position. */
  lemma HandleReceivesSegment(stream: int -> byte, start: int, s: Rcv, a: Arrival)
    requires Good(stream, start, s) && Legit(stream, a) && Harmless(s, a)
    ensures forall p | start <= p :: Received(start, Handle(s, a), p) <==>
              Received(start, s, p) || a.pos <= p < a.pos + PktLen(a.chain)
    ensures a.answers == [] && !Buffered(s.buf, s.nxt) ==>
              !Received(start, Handle(s, a), Handle(s, a).nxt)
  {
    if !Stale(s.nxt, a) {
      FreshIsInsertable(stream, start, s, a);
      InsertKeeps(stream, s.nxt, s.buf, Fresh(s.nxt, a));
      DeliverKeeps(stream, start, Stored(s, a), a.answers);
      DeliverStopsAtGap(Stored(s, a));
    }
  }

  // ----- a harmless call frees no header

  /** Only a straddling segment makes a cut of more than nothing. */
  lemma {:induction false} ConsumeFreesNothing(lo: int, from: int, end: int, buf: seq<Node>)
    requires Ordered(lo, buf) && from < lo && !Straddled(buf, from, end, false)
    ensures !ConsumeFrees(end, buf)
    decreases |buf|
  {
    if buf != [] && buf[0].pos <= end {
      WellFormedIsNotEmpty(buf[0].chain);
      if end >= buf[0].End() {
        StraddledBehind(buf[0].End(), buf[1..], from, from, end, buf[0].End() == from);
        ConsumeFreesNothing(buf[0].End(), from, end, buf[1..]);
      }
    }
  }

  lemma {:induction false} InsertFreesNothing(stream: int -> byte, lo: int, buf: seq<Node>, n: Node)
    requires Insertable(stream, lo, buf, n) && !Straddled(buf, n.pos, n.End(), false)
    ensures !InsertFrees(buf, n)
    decreases |buf|
  {
    if buf != [] {
      var cur := buf[0];
      WellFormedIsNotEmpty(n.chain);
      WellFormedIsNotEmpty(cur.chain);
      if Contained(n, cur) {
      } else if n.pos < cur.pos {
        ConsumeFreesNothing(cur.pos, n.pos, n.End(), buf);
      } else if n.pos <= cur.End() {
        StraddledBehind(cur.End(), buf[1..], n.pos, cur.pos, n.End(), cur.End() == n.pos);
        GrowthFreesNothing(stream, lo, buf, n);
      } else {
        InsertFreesNothing(stream, cur.End(), buf[1..], n);
      }
    }
  }

  lemma GrowthFreesNothing(stream: int -> byte, lo: int, buf: seq<Node>, n: Node)
    requires Insertable(stream, lo, buf, n) && buf != [] && buf[0].pos <= n.pos <= buf[0].End() < n.End()
    requires !Straddled(buf[1..], buf[0].pos, n.End(), false)
    ensures !GrownFrees(buf[0], Beyond(buf[0], n), buf[1..])
  {
    var cur := buf[0];
    WellFormedIsNotEmpty(cur.chain);
    BeyondIsRight(stream, cur, n);
    JoinExtends(stream, cur, Beyond(cur, n));
    ConsumeFreesNothing(cur.End(), cur.pos, n.End(), buf[1..]);
  }

  lemma {:induction false} DeliverFreesNothing(lo: int, s: Rcv, answers: seq<nat>)
    requires Ordered(lo, s.buf) && !ConsumesPartly(s, answers)
    ensures !DeliverFrees(s, answers)
    decreases |s.buf|
  {
    if s.buf != [] && s.nxt == s.buf[0].pos {
      var seg := s.buf[0];
      WellFormedIsNotEmpty(seg.chain);
      var d := Consumed(answers, PktLen(seg.chain));
      if d == PktLen(seg.chain) {
        DeliverFreesNothing(seg.End(), Rcv(s.nxt + d, s.buf[1..], []), RestOf(answers));
      }
    }
  }

  /** A harmless call from a good state frees no header that stays in the list, so the
      results about harmless runs are not affected by such headers. */
  lemma HarmlessKeepsHeaders(stream: int -> byte, start: int, s: Rcv, a: Arrival)
    requires Good(stream, start, s) && Legit(stream, a) && Harmless(s, a)
    ensures !FreesHeader(s, a)
  {
    if !Stale(s.nxt, a) {
      FreshIsInsertable(stream, start, s, a);
      InsertFreesNothing(stream, s.nxt, s.buf, Fresh(s.nxt, a));
      InsertKeeps(stream, s.nxt, s.buf, Fresh(s.nxt, a));
      DeliverFreesNothing(s.nxt, Stored(s, a), a.answers);
    }
  }

  lemma {:induction false} HarmlessRunKeepsHeaders(stream: int -> byte, start: int, s: Rcv, arrivals: seq<Arrival>)
    requires Good(stream, start, s) && HarmlessRun(stream, s, arrivals)
    ensures KeepsHeaders(s, arrivals)
    decreases |arrivals|
  {
    if arrivals != [] {
      HarmlessKeepsHeaders(stream, start, s, arrivals[0]);
      HandleKeepsGoodIff(stream, start, s, arrivals[0]);
      HarmlessRunKeepsHeaders(stream, start, Handle(s, arrivals[0]), arrivals[1..]);
    }
  }

  /** As long as all nodes are single mbufs and the application takes everything, no
      header is freed either, whatever arrives. */
  lemma SingleMbufsKeepHeaders(s: Rcv, a: Arrival)
    requires a.answers == [] && forall i :: 0 <= i < |s.buf| ==> |s.buf[i].chain| <= 1
    ensures !FreesHeader(s, a)
  {
    SinglesAreNotFreed(s.buf, Fresh(s.nxt, a));
    WholeDeliveryFreesNothing(Stored(s, a));
  }

  lemma {:induction false} SinglesAreNotConsumed(buf: seq<Node>, end: int)
    requires forall i :: 0 <= i < |buf| ==> |buf[i].chain| <= 1
    ensures !ConsumeFrees(end, buf)
    decreases |buf|
  {
    if buf != [] {
      SinglesAreNotConsumed(buf[1..], end);
    }
  }

  lemma {:induction false} SinglesAreNotFreed(buf: seq<Node>, n: Node)
    requires forall i :: 0 <= i < |buf| ==> |buf[i].chain| <= 1
    ensures !InsertFrees(buf, n)
    decreases |buf|
  {
    if buf != [] {
      var cur := buf[0];
      SinglesAreNotConsumed(buf, n.End());
      SinglesAreNotConsumed(buf[1..], cur.(chain := Join(cur.chain, n.chain)).End());
      SinglesAreNotConsumed(buf[1..], cur.(chain := Join(cur.chain, Trim(n.chain, cur.End() - n.pos))).End());
      SinglesAreNotFreed(buf[1..], n);
    }
  }

  lemma {:induction false} WholeDeliveryFreesNothing(s: Rcv)
    ensures !DeliverFrees(s, [])
    decreases |s.buf|
  {
    if s.buf != [] && s.nxt == s.buf[0].pos {
      WholeDeliveryFreesNothing(Rcv(s.nxt + PktLen(s.buf[0].chain), s.buf[1..], []));
    }
  }

  // ----- whole runs

  /** In every run of harmless arrivals, in any order and with any duplicates and
      overlaps, the bytes delivered are exactly the stream up to RCV.NXT, the
      list stays good, and the positions received are those of the arrivals. */
  lemma {:induction false} RunDeliversStream(stream: int -> byte, start: int, s: Rcv, arrivals: seq<Arrival>)
    requires Good(stream, start, s) && HarmlessRun(stream, s, arrivals)
    ensures Good(stream, start, Run(s, arrivals))
    ensures forall p | start <= p :: Received(start, Run(s, arrivals), p) <==>
              Received(start, s, p) || InSome(arrivals, p)
    decreases |arrivals|
  {
    if arrivals != [] {
      HandleKeepsGoodIff(stream, start, s, arrivals[0]);
      HandleReceivesSegment(stream, start, s, arrivals[0]);
      RunDeliversStream(stream, start, Handle(s, arrivals[0]), arrivals[1..]);
    }
  }

  predicate InSome(arrivals: seq<Arrival>, p: int) {
    arrivals != [] &&
    (arrivals[0].pos <= p < arrivals[0].pos + PktLen(arrivals[0].chain) || InSome(arrivals[1..], p))
  }

  /** With an application that always takes everything, RCV.NXT is after every
      call the first position that no arrival has carried. */
  lemma {:induction false} RunStopsAtFirstMissing(stream: int -> byte, start: int, s: Rcv, arrivals: seq<Arrival>)
    requires Good(stream, start, s) && HarmlessRun(stream, s, arrivals) && !Buffered(s.buf, s.nxt)
    requires forall i :: 0 <= i < |arrivals| ==> arrivals[i].answers == []
    ensures var t := Run(s, arrivals);
            && !Received(start, t, t.nxt)
            && forall p | start <= p < t.nxt :: Received(start, s, p) || InSome(arrivals, p)
    decreases |arrivals|
  {
    RunDeliversStream(stream, start, s, arrivals);
    if arrivals != [] {
      HandleKeepsGoodIff(stream, start, s, arrivals[0]);
      HandleReceivesSegment(stream, start, s, arrivals[0]);
      RunStopsAtFirstMissing(stream, start, Handle(s, arrivals[0]), arrivals[1..]);
    }
  }

  // ----- what goes wrong otherwise

  /** A wedged connection delivers nothing ever again, whatever arrives, as long as no
      header of the list is freed. */
  lemma {:induction false} WedgedForever(s: Rcv, arrivals: seq<Arrival>)
    requires Wedged(s) && KeepsHeaders(s, arrivals)
    ensures var t := Run(s, arrivals); Wedged(t) && t.nxt == s.nxt && t.out == s.out
    decreases |arrivals|
  {
    if arrivals != [] {
      var t := Handle(s, arrivals[0]);
      assert Wedged(t) && t.nxt == s.nxt && t.out == s.out;
      WedgedForever(t, arrivals[1..]);
    }
  }

  /** A segment that arrives in order but ends inside a buffered segment wedges
      the connection, and so does an application that stops inside a segment. */
  lemma InOrderStraddleWedges(stream: int -> byte, start: int, s: Rcv, a: Arrival)
    requires Good(stream, start, s) && Legit(stream, a)
    requires Straddles(s, a) && a.pos <= s.nxt && a.answers == []
    ensures Wedged(Handle(s, a))
  {
    StraddledHasExtent(s.buf, Max(a.pos, s.nxt), a.pos + PktLen(a.chain), false);
    FreshIsInsertable(stream, start, s, a);
    InsertStraddled(stream, s.nxt, s.buf, Fresh(s.nxt, a));
    var t := Stored(s, a);
    DeliverHead(t);
    var u := HeadDelivered(t);
    assert u.buf[0] == t.buf[1] && u.buf[0].pos < u.nxt;
    assert Deliver(u, []) == u;
  }

  function Packet(data: seq<byte>): Chain {
    [Mbuf(data, |data|, 1)]
  }

  function Counting(p: int): byte {
    p % 256
  }

  const STRADDLING_RUN := [Arrival(4, Packet([4, 5]), []), Arrival(2, Packet([2, 3, 4]), []),
                           Arrival(1, Packet([1, 2]), []), Arrival(3, Packet([3]), []),
                           Arrival(0, Packet([0]), [])]

  /** Straddling segments can also make the code hand over wrong bytes. Five
      segments of the stream 0, 1, 2, ... are enough: the application gets 5 in
      the place of 4. */
  lemma StraddlesCorruptStream()
    ensures Run(Rcv(0, [], []), STRADDLING_RUN) == Rcv(5, [], [0, 1, 2, 3, 5])
  {
    FirstStep();
    SecondStep();
    ThirdStep();
    FourthStep();
    FifthStep();
    RunOfFive(Rcv(0, [], []), Arrival(4, Packet([4, 5]), []), Arrival(2, Packet([2, 3, 4]), []),
              Arrival(1, Packet([1, 2]), []), Arrival(3, Packet([3]), []), Arrival(0, Packet([0]), []));
  }

  lemma StraddlingRunIsLegit(i: nat)
    requires i < |STRADDLING_RUN|
    ensures Legit(Counting, STRADDLING_RUN[i]) && Good(Counting, 0, Rcv(0, [], []))
  {
    var a := STRADDLING_RUN[i];
    PacketIsLegit(a.pos, a.chain[0].data);
  }

  const AFTER_ONE := Rcv(0, [Node(4, Packet([4, 5]))], [])
  const AFTER_TWO := Rcv(0, [Node(2, Packet([2, 3, 4])), Node(4, Packet([5]))], [])
  const AFTER_THREE :=
    Rcv(0, [Node(1, Packet([1, 2])), Node(2, Packet([3, 4])), Node(4, Packet([5]))], [])

  lemma FirstStep()
    ensures Handle(Rcv(0, [], []), Arrival(4, Packet([4, 5]), [])) == AFTER_ONE
  {
  }

  lemma SecondStep()
    ensures Handle(AFTER_ONE, Arrival(2, Packet([2, 3, 4]), [])) == AFTER_TWO
  {
    assert Trim(Packet([4, 5]), 1) == Packet([5]);
  }

  lemma ThirdStep()
    ensures Handle(AFTER_TWO, Arrival(1, Packet([1, 2]), [])) == AFTER_THREE
  {
    assert Trim(Packet([2, 3, 4]), 1) == Packet([3, 4]);
  }

  const JOINED := [Mbuf([1, 2], 3, 2), Mbuf([3], 1, 1)]
  const AFTER_FOUR := Rcv(0, [Node(1, JOINED), Node(4, Packet([5]))], [])

  lemma FourthStep()
    ensures Handle(AFTER_THREE, Arrival(3, Packet([3]), [])) == AFTER_FOUR
  {
    assert Join(Packet([1, 2]), Packet([3])) == JOINED;
    var rest := AFTER_THREE.buf[1..];
    assert Consume(4, rest) == Consume(4, rest[1..]);
    assert Trim(Packet([5]), 0) == Packet([5]);
  }

  lemma FifthStep()
    ensures Handle(AFTER_FOUR, Arrival(0, Packet([0]), [])) == Rcv(5, [], [0, 1, 2, 3, 5])
  {
    var t0, t1 := Stored(AFTER_FOUR, Arrival(0, Packet([0]), [])), Rcv(1, AFTER_FOUR.buf, [0]);
    AdjOfNothing(JOINED);
    assert t0.buf == [Node(0, Packet([0]))] + AFTER_FOUR.buf;
    assert HeadDelivered(t0) == t1;
    DeliverHead(t0);
    LastDeliveries(t1);
  }

  lemma LastDeliveries(t1: Rcv)
    requires t1 == Rcv(1, AFTER_FOUR.buf, [0])
    ensures Deliver(t1, []) == Rcv(5, [], [0, 1, 2, 3, 5])
  {
    var t2 := Rcv(4, AFTER_FOUR.buf[1..], [0, 1, 2, 3]);
    JoinedBytes();
    assert HeadDelivered(t1) == t2;
    assert HeadDelivered(t2) == Rcv(5, [], [0, 1, 2, 3, 5]);
    DeliverHead(t1);
    DeliverHead(t2);
  }

  lemma JoinedBytes()
    ensures Bytes(JOINED) == [1, 2, 3]
  {
    assert JOINED[1..] == Packet([3]);
  }

  /** No header is freed on the way, so this is what the code does. */
  lemma StraddlingRunKeepsHeaders()
    ensures KeepsHeaders(Rcv(0, [], []), STRADDLING_RUN)
  {
    var a0, a1, a2 := Arrival(4, Packet([4, 5]), []), Arrival(2, Packet([2, 3, 4]), []), Arrival(1, Packet([1, 2]), []);
    var a3, a4 := Arrival(3, Packet([3]), []), Arrival(0, Packet([0]), []);
    SingleMbufsKeepHeaders(Rcv(0, [], []), a0);
    FirstStep();
    SingleMbufsKeepHeaders(AFTER_ONE, a1);
    SecondStep();
    SingleMbufsKeepHeaders(AFTER_TWO, a2);
    ThirdStep();
    SingleMbufsKeepHeaders(AFTER_THREE, a3);
    FourthStep();
    LastStepKeepsHeaders();
    KeepsOneMore(AFTER_FOUR, a4, []);
    KeepsOneMore(AFTER_THREE, a3, [a4]);
    KeepsOneMore(AFTER_TWO, a2, [a3, a4]);
    KeepsOneMore(AFTER_ONE, a1, [a2, a3, a4]);
    KeepsOneMore(Rcv(0, [], []), a0, [a1, a2, a3, a4]);
  }

  lemma LastStepKeepsHeaders()
    ensures !FreesHeader(AFTER_FOUR, Arrival(0, Packet([0]), []))
  {
    WholeDeliveryFreesNothing(Stored(AFTER_FOUR, Arrival(0, Packet([0]), [])));
  }

  lemma KeepsOneMore(s: Rcv, a: Arrival, rest: seq<Arrival>)
    ensures KeepsHeaders(s, [a] + rest) <==> !FreesHeader(s, a) && KeepsHeaders(Handle(s, a), rest)
  {
    assert ([a] + rest)[1..] == rest;
  }

  const TWO_MBUFS := [Mbuf([1, 2], 4, 2), Mbuf([3, 4], 2, 1)]
  const AFTER_MERGE := Rcv(0, [Node(1, TWO_MBUFS)], [])

  /** Two packets merge into one node; a third one in order ends inside the second mbuf.
      The cut frees the first mbuf of the node and with it the header that the list
      still leads to. */
  lemma HeaderCanBeFreed()
    ensures Handle(Handle(Rcv(0, [], []), Arrival(1, Packet([1, 2]), [])), Arrival(3, Packet([3, 4]), [])) == AFTER_MERGE
    ensures FreesHeader(AFTER_MERGE, Arrival(0, Packet([0, 1, 2, 3]), []))
  {
    var s := Rcv(0, [Node(1, Packet([1, 2]))], []);
    assert Handle(Rcv(0, [], []), Arrival(1, Packet([1, 2]), [])) == s;
    assert Join(Packet([1, 2]), Packet([3, 4])) == TWO_MBUFS;
    assert Handle(s, Arrival(3, Packet([3, 4]), [])) == AFTER_MERGE;
    assert ConsumeFrees(4, AFTER_MERGE.buf);
  }

  lemma DeliverHead(s: Rcv)
    requires s.buf != [] && s.nxt == s.buf[0].pos
    ensures Deliver(s, []) == Deliver(HeadDelivered(s), [])
  {
  }

  lemma RunOfFive(s: Rcv, a0: Arrival, a1: Arrival, a2: Arrival, a3: Arrival, a4: Arrival)
    ensures Run(s, [a0, a1, a2, a3, a4])
            == Handle(Handle(Handle(Handle(Handle(s, a0), a1), a2), a3), a4)
  {
    RunOneMore(s, a0, [a1, a2, a3, a4]);
    var s1 := Handle(s, a0);
    RunOneMore(s1, a1, [a2, a3, a4]);
    var s2 := Handle(s1, a1);
    RunOneMore(s2, a2, [a3, a4]);
    var s3 := Handle(s2, a2);
    RunOneMore(s3, a3, [a4]);
    RunOneMore(Handle(s3, a3), a4, []);
  }

  lemma RunOneMore(s: Rcv, a: Arrival, rest: seq<Arrival>)
    ensures Run(s, [a] + rest) == Run(Handle(s, a), rest)
  {
  }

  lemma PacketIsWellFormed(data: seq<byte>)
    requires data != []
    ensures WellFormed(Packet(data)) && SuffixLengths(Packet(data)) && Bytes(Packet(data)) == data
  {
    assert Packet(data)[1..] == [];
    assert Bytes(Packet(data)) == data + [] == data;
  }

  lemma JoinedIsWellFormed()
    ensures WellFormed(JOINED)
  {
    assert JOINED[1..] == Packet([3]);
    PacketIsWellFormed([3]);
  }

  lemma PacketIsLegit(pos: int, data: seq<byte>)
    requires data != [] && forall i :: 0 <= i < |data| ==> data[i] == Counting(pos + i)
    ensures Legit(Counting, Arrival(pos, Packet(data), []))
  {
    PacketIsWellFormed(data);
  }
}
