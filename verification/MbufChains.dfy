/** Mbuf chains, inc/tpg_data.h. A chain is the sequence of mbufs reached through
    the next pointers, so the empty sequence is the NULL pointer. Every mbuf
    carries its own pkt_len and nb_segs fields; only those of the first mbuf
    of a chain mean anything. */
module MbufChains {
  import opened Prelude

  datatype Mbuf = Mbuf(data: seq<byte>, pktLen: int, nbSegs: int)

  type Chain = seq<Mbuf>

  /** The payload: the data of all mbufs, in order. */
  function Bytes(c: Chain): seq<byte> {
    if c == [] then [] else c[0].data + Bytes(c[1..])
  }

  function PktLen(c: Chain): int {
    if c == [] then 0 else c[0].pktLen
  }

  lemma {:induction false} BytesOfConcat(c: Chain, d: Chain)
    ensures Bytes(c + d) == Bytes(c) + Bytes(d)
  {
    if c == [] {
      assert c + d == d;
    } else {
      assert (c + d)[1..] == c[1..] + d;
      BytesOfConcat(c[1..], d);
    }
  }

  /** No mbuf is empty and the first one knows the length of the payload. */
  ghost predicate WellFormed(c: Chain) {
    && c != []
    && c[0].pktLen == |Bytes(c)|
    && NoneEmpty(c)
  }

  ghost predicate NoneEmpty(c: Chain) {
    forall i :: 0 <= i < |c| ==> c[i].data != []
  }

  /** Every mbuf records the length from itself to the end of the chain. A
      packet received into a single mbuf always has this form. */
  ghost predicate SuffixLengths(c: Chain) {
    c != [] ==> c[0].pktLen == |Bytes(c)| && SuffixLengths(c[1..])
  }

  /** rte_pktmbuf_adj on the first mbuf, for len no larger than its data. */
  function AdjFirst(m: Mbuf, len: nat): Mbuf
    requires len <= |m.data|
  {
    m.(data := m.data[len..], pktLen := m.pktLen - len)
  }

  /** The loop at lines 254-259: drop mbufs while the cut covers them whole. */
  function DropWhole(c: Chain, len: nat): (Chain, nat)
    requires len <= |Bytes(c)|
    decreases |c|
  {
    if len > 0 && len >= |c[0].data| then DropWhole(c[1..], len - |c[0].data|) else (c, len)
  }

  /** data_adj_chain: remove the first len bytes. */
  function Adj(c: Chain, len: nat): Chain
    requires c != [] && len <= |Bytes(c)|
  {
    if len <= |c[0].data| then
      if len < |c[0].data| || |c| == 1 then [AdjFirst(c[0], len)] + c[1..]
      else c[1..]
    else
      var (rest, left) := DropWhole(c, len);
      DropWholeDrops(c, len);
      if rest == [] then []
      else [AdjFirst(rest[0], left).(pktLen := c[0].pktLen - len)] + rest[1..]
  }

  lemma {:induction false} DropWholeDrops(c: Chain, len: nat)
    requires len <= |Bytes(c)|
    ensures var (rest, left) := DropWhole(c, len);
            && left <= |Bytes(rest)| && Bytes(rest)[left..] == Bytes(c)[len..]
            && |rest| <= |c| && rest == c[|c| - |rest|..]
            && (left > 0 ==> rest != [] && left < |rest[0].data|)
            && (rest == [] ==> left == 0)
    decreases |c|
  {
    if len > 0 && len >= |c[0].data| {
      DropWholeDrops(c[1..], len - |c[0].data|);
      assert Bytes(c)[len..] == Bytes(c[1..])[len - |c[0].data|..];
    } else {
      assert c == c[0..];
    }
  }

  /** data_adj_chain drops exactly the first len bytes, across any boundaries. */
  lemma {:induction false} AdjDropsBytes(c: Chain, len: nat)
    requires c != [] && len <= |Bytes(c)|
    ensures Bytes(Adj(c, len)) == Bytes(c)[len..]
  {
    if len <= |c[0].data| {
      assert Bytes(c)[len..] == c[0].data[len..] + Bytes(c[1..]);
      if !(len < |c[0].data| || |c| == 1) {
        assert c[0].data[len..] == [];
      }
    } else {
      var (rest, left) := DropWhole(c, len);
      DropWholeDrops(c, len);
      if rest != [] {
        assert Bytes(rest)[left..] == rest[0].data[left..] + Bytes(rest[1..]);
      }
    }
  }

  /** When the length field of the result is right: in every case but the one
      where the cut ends exactly at the end of the first mbuf and the second one
      does not happen to hold the remaining length. */
  lemma AdjKeepsPktLenIff(c: Chain, len: nat)
    requires c != [] && c[0].pktLen == |Bytes(c)| && len <= |Bytes(c)|
    ensures PktLen(Adj(c, len)) == |Bytes(Adj(c, len))|
       <==> (len == |c[0].data| && |c| > 1 ==> c[1].pktLen == |Bytes(c)| - len)
  {
    assert |Bytes(Adj(c, len))| == |Bytes(c)| - len by {
      AdjDropsBytes(c, len);
    }
    if len > |c[0].data| {
      DropWholeDrops(c, len);
    }
  }

  /** A packet of two mbufs, the second with no length of its own, loses its length when
      the cut ends between them. */
  lemma AdjLosesPktLen(c: Chain)
    requires c == [Mbuf([1], 2, 2), Mbuf([2], 0, 1)]
    ensures c[0].pktLen == |Bytes(c)| && PktLen(Adj(c, 1)) == 0 && |Bytes(Adj(c, 1))| == 1
  {
    assert Bytes(c[1..]) == c[1].data + Bytes(c[1..][1..]);
    AdjDropsBytes(c, 1);
  }

  /** A cut inside the payload of a well-formed chain leaves a well-formed chain,
      under the same condition. */
  lemma AdjKeepsWellFormed(c: Chain, len: nat)
    requires WellFormed(c) && len < |Bytes(c)|
    requires len == |c[0].data| && |c| > 1 ==> c[1].pktLen == |Bytes(c)| - len
    ensures WellFormed(Adj(c, len))
  {
    AdjDropsBytes(c, len);
    AdjKeepsPktLenIff(c, len);
    AdjLeavesNoneEmpty(c, len);
  }

  lemma {:induction false} AdjLeavesNoneEmpty(c: Chain, len: nat)
    requires c != [] && NoneEmpty(c) && len < |Bytes(c)|
    ensures Adj(c, len) != [] && NoneEmpty(Adj(c, len))
  {
    if len > |c[0].data| {
      var (rest, left) := DropWhole(c, len);
      DropWholeDrops(c, len);
      var k := |c| - |rest|;
      assert forall i :: 0 <= i < |rest| ==> rest[i] == c[k + i];
    }
  }

  lemma {:induction false} SuffixLengthsOfSuffix(c: Chain, k: nat)
    requires SuffixLengths(c) && k <= |c|
    ensures SuffixLengths(c[k..])
  {
    if k == 0 {
      assert c[0..] == c;
    } else {
      SuffixLengthsOfSuffix(c[1..], k - 1);
      assert c[1..][k - 1..] == c[k..];
    }
  }

  lemma AdjKeepsSuffixLengths(c: Chain, len: nat)
    requires c != [] && SuffixLengths(c) && len <= |Bytes(c)|
    ensures SuffixLengths(Adj(c, len))
  {
    AdjDropsBytes(c, len);
    AdjKeepsPktLenIff(c, len);
    var r := Adj(c, len);
    if len <= |c[0].data| {
      assert r[1..] == c[1..] || r == c[1..];
    } else {
      var (rest, left) := DropWhole(c, len);
      DropWholeDrops(c, len);
      SuffixLengthsOfSuffix(c, |c| - |rest|);
      if rest != [] {
        assert r[1..] == rest[1..];
      }
    }
  }

  lemma AdjOfNothing(c: Chain)
    requires c != [] && c[0].data != []
    ensures Adj(c, 0) == c
  {
    assert [AdjFirst(c[0], 0)] + c[1..] == c;
  }

  /** data_mbuf_merge: link src behind dest. */
  function Merge(dest: Chain, src: Chain): Chain
    requires dest != [] && src != []
  {
    [dest[0].(nbSegs := dest[0].nbSegs + src[0].nbSegs,
              pktLen := dest[0].pktLen + src[0].pktLen)] + dest[1..] + src
  }

  lemma MergeJoins(dest: Chain, src: Chain)
    requires WellFormed(dest) && WellFormed(src)
    ensures WellFormed(Merge(dest, src))
    ensures Bytes(Merge(dest, src)) == Bytes(dest) + Bytes(src)
    ensures dest[0].nbSegs == |dest| && src[0].nbSegs == |src| ==> Merge(dest, src)[0].nbSegs == |Merge(dest, src)|
  {
    MergedBytes(dest, src);
    MergedNoneEmpty(dest, src);
  }

  lemma MergedBytes(dest: Chain, src: Chain)
    requires dest != [] && src != []
    ensures Bytes(Merge(dest, src)) == Bytes(dest) + Bytes(src)
  {
    assert Merge(dest, src)[1..] == dest[1..] + src;
    BytesOfConcat(dest[1..], src);
  }

  lemma MergedNoneEmpty(dest: Chain, src: Chain)
    requires dest != [] && src != [] && NoneEmpty(dest) && NoneEmpty(src)
    ensures NoneEmpty(Merge(dest, src))
  {
    var m := Merge(dest, src);
    forall i | 0 <= i < |m|
      ensures m[i].data != []
    {
      assert i >= |dest| ==> m[i] == src[i - |dest|];
    }
  }

  /** data_adj_chain as written: a fast path inside the first mbuf, otherwise a
      loop that frees whole mbufs and a final cut. */
  method AdjChain(c: Chain, len: nat) returns (r: Chain)
    requires c != [] && len <= |Bytes(c)|
    ensures r == Adj(c, len)
  {
    var newPktLen := c[0].pktLen - len;
    AdjCases(c, len);
    if len <= |c[0].data| {
      var mbuf := AdjFirst(c[0], len);
      if |mbuf.data| != 0 {
        return [mbuf] + c[1..];
      }
      if |c| > 1 {
        return c[1..];
      }
      return [mbuf] + c[1..];
    }
    var left: nat;
    r, left := DropWholeMbufs(c, len);
    if r != [] {
      r := [AdjFirst(r[0], left).(pktLen := newPktLen)] + r[1..];
    }
  }

  /** The result by how far the cut reaches. */
  lemma AdjCases(c: Chain, len: nat)
    requires c != [] && len <= |Bytes(c)|
    ensures len < |c[0].data| || (len == |c[0].data| && |c| == 1) ==> Adj(c, len) == [AdjFirst(c[0], len)] + c[1..]
    ensures len == |c[0].data| && |c| > 1 ==> Adj(c, len) == c[1..]
    ensures len > |c[0].data| ==>
              var (rest, left) := DropWhole(c, len);
              && (rest == [] ==> Adj(c, len) == [])
              && (rest != [] ==>
                    && left <= |rest[0].data|
                    && Adj(c, len) == [AdjFirst(rest[0], left).(pktLen := c[0].pktLen - len)] + rest[1..])
  {
    DropWholeDrops(c, len);
  }

  method DropWholeMbufs(c: Chain, len: nat) returns (r: Chain, left: nat)
    requires len <= |Bytes(c)|
    ensures (r, left) == DropWhole(c, len)
  {
    r, left := c, len;
    while left > 0 && left >= |r[0].data|
      invariant left <= |Bytes(r)|
      invariant DropWhole(r, left) == DropWhole(c, len)
      decreases |r|
    {
      r, left := r[1..], left - |r[0].data|;
    }
  }
}
