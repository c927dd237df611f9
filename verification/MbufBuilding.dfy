/** The functions of inc/tpg_data.h that build chains out of a pool of mbufs which
    may run out at any point. */
module MbufBuilding {
  import opened Prelude
  import opened Arithmetic
  import opened MbufChains

  /** The mbuf pool: only the number of free mbufs matters here. */
  class Mempool {
    var free: nat

    method Alloc() returns (ok: bool)
      modifies this
      ensures ok <==> old(free) > 0
      ensures free == if ok then old(free) - 1 else old(free)
    {
      ok := free > 0;
      if ok {
        free := free - 1;
      }
    }

    /** pkt_mbuf_free: releases the whole chain. */
    method Free(c: Chain)
      modifies this
      ensures free == old(free) + |c|
    {
      free := free + |c|;
    }
  }

  // ----- data_clone_seg

  /** The data of the mbufs that hold the first len bytes of c, the last one cut. */
  function Pieces(c: Chain, len: nat): seq<seq<byte>>
    requires len <= |Bytes(c)|
    decreases |c|
  {
    if len == 0 then []
    else
      var n := Min(len, |c[0].data|);
      [c[0].data[..n]] + Pieces(c[1..], len - n)
  }

  /** Lines 445-448: the mbuf that holds byte off, and the offset inside it. */
  function Seek(c: Chain, off: nat): (Chain, nat)
    requires off < |Bytes(c)|
    decreases |c|
  {
    if off >= |c[0].data| then Seek(c[1..], off - |c[0].data|) else (c, off)
  }

  lemma {:induction false} SeekFinds(c: Chain, off: nat)
    requires off < |Bytes(c)|
    ensures var (rest, o) := Seek(c, off);
            rest != [] && o < |rest[0].data| && Bytes(rest)[o..] == Bytes(c)[off..]
    decreases |c|
  {
    if off >= |c[0].data| {
      SeekFinds(c[1..], off - |c[0].data|);
      assert Bytes(c)[off..] == Bytes(c[1..])[off - |c[0].data|..];
    }
  }

  /** Byte o of c is byte p of d, in the same place of the same mbufs. */
  ghost predicate SamePlace(c: Chain, o: nat, d: Chain, p: nat) {
    o < |Bytes(c)| ==> p < |Bytes(d)| && Seek(c, o) == Seek(d, p)
  }

  lemma {:induction false} SeekOn(c: Chain, off: nat, n: nat)
    requires off + n < |Bytes(c)|
    ensures var (rest, o) := Seek(c, off);
            o + n < |Bytes(rest)| && Seek(c, off + n) == Seek(rest, o + n)
    decreases |c|
  {
    if off >= |c[0].data| {
      SeekOn(c[1..], off - |c[0].data|, n);
    }
  }

  /** Moving on from the same place leads to the same place, and a clone from there
      takes the same mbufs. */
  lemma SamePlaceOn(c: Chain, o: nat, d: Chain, p: nat, n: nat)
    requires SamePlace(c, o, d, p) && o <= |Bytes(c)| && p <= |Bytes(d)| && |Bytes(c)| - o == |Bytes(d)| - p
    ensures SamePlace(c, o + n, d, p + n)
  {
    if o + n < |Bytes(c)| {
      SeekOn(c, o, n);
      SeekOn(d, p, n);
    }
  }

  lemma SamePlaceSameClones(c: Chain, o: nat, d: Chain, p: nat, len: nat)
    requires SamePlace(c, o, d, p) && o + len <= |Bytes(c)| && p + len <= |Bytes(d)|
    ensures ClonesNeeded(c, o, len) == ClonesNeeded(d, p, len)
  {
  }

  /** The source positioned at byte off: what data_clone_seg walks over. */
  function SeekAdj(c: Chain, off: nat): Chain
    requires off < |Bytes(c)|
  {
    SeekFinds(c, off);
    var (rest, o) := Seek(c, off);
    [AdjFirst(rest[0], o)] + rest[1..]
  }

  lemma SeekAdjDrops(c: Chain, off: nat)
    requires off < |Bytes(c)|
    ensures Bytes(SeekAdj(c, off)) == Bytes(c)[off..]
  {
    SeekFinds(c, off);
    var (rest, o) := Seek(c, off);
    assert SeekAdj(c, off)[1..] == rest[1..];
    assert Bytes(rest)[o..] == rest[0].data[o..] + Bytes(rest[1..]);
  }

  /** How many mbufs cloning bytes off..off+len takes. */
  function ClonesNeeded(c: Chain, off: nat, len: nat): nat
    requires off + len <= |Bytes(c)|
  {
    if len == 0 then 0 else SeekAdjDrops(c, off); |Pieces(SeekAdj(c, off), len)|
  }

  lemma BytesOfAppend(c: Chain, m: Mbuf)
    ensures Bytes(c + [m]) == Bytes(c) + m.data
  {
    BytesOfConcat(c, [m]);
    assert Bytes([m]) == m.data + [];
  }

  lemma BytesIgnoreLengths(c: Chain, pktLen: int, nbSegs: int)
    requires c != []
    ensures Bytes([c[0].(pktLen := pktLen, nbSegs := nbSegs)] + c[1..]) == Bytes(c)
  {
  }

  /** Clone bytes off..off+len of a chain. The result is NULL exactly for an
      empty request or a pool that is too small, and then no mbuf is lost. */
  method CloneSeg(pool: Mempool, c: Chain, len: nat, off: nat) returns (r: Chain)
    requires off + len <= |Bytes(c)|
    modifies pool
    ensures r == [] <==> len == 0 || old(pool.free) < ClonesNeeded(c, off, len)
    ensures pool.free == old(pool.free) - |r|
    ensures r != [] ==> Bytes(r) == Bytes(c)[off..off + len]
    ensures r != [] ==> r[0].pktLen == len && r[0].nbSegs == |r| == ClonesNeeded(c, off, len)
  {
    if len == 0 {
      return [];
    }
    var src, offset := SeekTo(c, off);
    SeekFinds(c, off);
    SeekAdjDrops(c, off);
    r := CloneFrom(pool, [AdjFirst(src[0], offset)] + src[1..], len);
    if r != [] {
      BytesIgnoreLengths(r, len, |r|);
      r := [r[0].(pktLen := len, nbSegs := |r|)] + r[1..];
      assert Bytes(c)[off..][..len] == Bytes(c)[off..off + len];
    }
  }

  method SeekTo(c: Chain, off: nat) returns (src: Chain, offset: nat)
    requires off < |Bytes(c)|
    ensures (src, offset) == Seek(c, off)
  {
    src, offset := c, off;
    while offset >= |src[0].data|
      invariant offset < |Bytes(src)| && Seek(src, offset) == Seek(c, off)
      decreases |src|
    {
      src, offset := src[1..], offset - |src[0].data|;
    }
  }

  lemma CutFirst(c: Chain, len: nat)
    requires c != [] && 0 < len <= |Bytes(c)|
    ensures var n := Min(len, |c[0].data|);
            && len - n <= |Bytes(c[1..])|
            && Bytes(c)[..len] == c[0].data[..n] + Bytes(c[1..])[..len - n]
            && |Pieces(c, len)| == 1 + |Pieces(c[1..], len - n)|
  {
  }

  lemma CloneTurn(r: Chain, clone: Mbuf, rest: seq<byte>)
    ensures Bytes(r) + (clone.data + rest) == Bytes(r + [clone]) + rest
  {
    BytesOfAppend(r, clone);
  }

  /** The loop at lines 450-501 and the failure exit, with the adjustment of the
      first clone (line 461) already made in from. */
  method CloneFrom(pool: Mempool, from: Chain, len: nat) returns (r: Chain)
    requires 0 < len <= |Bytes(from)|
    modifies pool
    ensures r == [] <==> old(pool.free) < |Pieces(from, len)|
    ensures pool.free == old(pool.free) - |r|
    ensures r != [] ==> Bytes(r) == Bytes(from)[..len] && |r| == |Pieces(from, len)|
  {
    var segDataLen: nat := len;
    var segData := from;
    r := [];
    while segDataLen > 0
      invariant segDataLen <= |Bytes(segData)| && (r == [] ==> segDataLen == len)
      invariant pool.free == old(pool.free) - |r|
      invariant |Pieces(from, len)| == |r| + |Pieces(segData, segDataLen)|
      invariant Bytes(from)[..len] == Bytes(r) + Bytes(segData)[..segDataLen]
      decreases |segData|
    {
      CutFirst(segData, segDataLen);
      var ok := pool.Alloc();
      if !ok {
        pool.Free(r);
        return [];
      }
      var n := Min(segDataLen, |segData[0].data|);
      var clone := Mbuf(segData[0].data[..n], |segData[0].data|, 1);
      CloneTurn(r, clone, Bytes(segData[1..])[..segDataLen - n]);
      r := r + [clone];
      segDataLen, segData := segDataLen - n, segData[1..];
    }
  }

  // ----- data_chain_from_static_template

  /** How many copies of the template make up dataLen bytes. */
  function CopiesNeeded(dataLen: nat, templateLen: nat): nat
    requires templateLen > 0
  {
    if dataLen == 0 then 0
    else if dataLen <= templateLen then 1
    else 1 + CopiesNeeded(dataLen - templateLen, templateLen)
  }

  ghost predicate Repeats(data: seq<byte>, template: seq<byte>) {
    template != [] && forall i :: 0 <= i < |data| ==> data[i] == template[i % |template|]
  }

  lemma RepeatsOneMore(data: seq<byte>, template: seq<byte>, k: nat, n: nat)
    requires Repeats(data, template) && |data| == k * |template| && n <= |template|
    ensures Repeats(data + template[..n], template)
  {
    var more := data + template[..n];
    forall i | 0 <= i < |more|
      ensures more[i] == template[i % |template|]
    {
      if i >= |data| {
        QuotientIsUnique(i, |template|, k, i - |data|);
      }
    }
  }

  /** Fill dataLen bytes with copies of the template. With an empty template the
      loop allocates until the pool is empty, gives everything back and fails. */
  method ChainFromStaticTemplate(pool: Mempool, dataLen: nat, template: seq<byte>) returns (r: Chain)
    modifies pool
    ensures r == [] <==> dataLen == 0 || template == [] ||
                         old(pool.free) < CopiesNeeded(dataLen, |template|)
    ensures pool.free == old(pool.free) - |r|
    ensures r != [] ==> |Bytes(r)| == dataLen && Repeats(Bytes(r), template)
    ensures r != [] ==> r[0].pktLen == dataLen && r[0].nbSegs == |r| == CopiesNeeded(dataLen, |template|)
  {
    r := [];
    if dataLen == 0 {
      return;
    }
    var ok := pool.Alloc();
    if !ok {
      return;
    }
    if dataLen <= |template| {
      r := [Mbuf(template[..dataLen], dataLen, 1)];
      FirstCopy(r[0], template);
      return;
    }
    r := [Mbuf(template, |template|, 1)];
    FirstCopy(r[0], template);
    var left: nat := dataLen - |template|;
    while left >= |template|
      invariant r != [] && pool.free == old(pool.free) - |r|
      invariant dataLen == |Bytes(r)| + left && |Bytes(r)| == |r| * |template|
      invariant template != [] ==>
                  && Repeats(Bytes(r), template)
                  && CopiesNeeded(dataLen, |template|) == |r| + CopiesNeeded(left, |template|)
      decreases pool.free
    {
      ok := pool.Alloc();
      if !ok {
        pool.Free(r);
        return [];
      }
      OneMoreCopy(r, Mbuf(template, |template|, 1), template);
      r := r + [Mbuf(template, |template|, 1)];
      left := left - |template|;
    }
    if left > 0 {
      ok := pool.Alloc();
      if !ok {
        pool.Free(r);
        return [];
      }
      OneMoreCopy(r, Mbuf(template[..left], left, 1), template);
      r := r + [Mbuf(template[..left], left, 1)];
    }
    BytesIgnoreLengths(r, dataLen, |r|);
    r := [r[0].(pktLen := dataLen, nbSegs := |r|)] + r[1..];
  }

  lemma FirstCopy(m: Mbuf, template: seq<byte>)
    requires m.data <= template
    ensures Bytes([m]) == m.data
    ensures template != [] ==> Repeats(m.data, template)
  {
    BytesOfAppend([], m);
    assert [] + [m] == [m];
    if template != [] {
      RepeatsOneMore([], template, 0, |m.data|);
      assert [] + template[..|m.data|] == m.data;
    }
  }

  lemma OneMoreCopy(r: Chain, m: Mbuf, template: seq<byte>)
    requires |Bytes(r)| == |r| * |template| && m.data <= template
    ensures Bytes(r + [m]) == Bytes(r) + m.data
    ensures (|r| + 1) * |template| == |r| * |template| + |template|
    ensures Repeats(Bytes(r), template) ==> Repeats(Bytes(r + [m]), template)
  {
    BytesOfAppend(r, m);
    if Repeats(Bytes(r), template) {
      RepeatsOneMore(Bytes(r), template, |r|, |m.data|);
      assert template[..|m.data|] == m.data;
    }
  }

  // ----- data_chain_from_static_chain

  /** The rest of a chain, from an offset in its first mbuf on. */
  function FromOffset(c: Chain, offset: nat): Chain
    requires c != [] && offset <= |c[0].data|
  {
    [AdjFirst(c[0], offset)] + c[1..]
  }

  /** How many mbufs of a chain hold its first len bytes, all of them when there are
      not that many bytes. */
  function MbufsSpanned(c: Chain, len: nat): nat {
    if c == [] || len == 0 then 0
    else 1 + MbufsSpanned(c[1..], len - Min(|c[0].data|, len))
  }

  /** The first len bytes of a chain, or as many as there are. */
  function FirstBytes(c: Chain, len: nat): seq<byte> {
    Bytes(c)[..Min(len, |Bytes(c)|)]
  }

  lemma FromOffsetDrops(c: Chain, offset: nat)
    requires c != [] && offset <= |c[0].data|
    ensures Bytes(FromOffset(c, offset)) == Bytes(c)[offset..]
  {
    var rest := Bytes(c[1..]);
    assert FromOffset(c, offset)[1..] == c[1..];
    assert Bytes(FromOffset(c, offset)) == c[0].data[offset..] + rest;
    assert (c[0].data + rest)[offset..] == c[0].data[offset..] + rest;
  }

  lemma SpanFirst(c: Chain, len: nat)
    requires c != [] && len > 0
    ensures var n := Min(|c[0].data|, len);
            && FirstBytes(c, len) == c[0].data[..n] + FirstBytes(c[1..], len - n)
            && MbufsSpanned(c, len) == 1 + MbufsSpanned(c[1..], len - n)
  {
  }

  /** Share dataLen bytes of a static chain from an offset in its first mbuf on. The
      code stops at the end of the chain, but writes the length it was asked
      for, so pkt_len is right if and only if the chain has that many bytes. */
  method ChainFromStaticChain(pool: Mempool, staticChain: Chain, dataOffset: nat, dataLen: nat) returns (r: Chain)
    requires staticChain != [] ==> dataOffset <= |staticChain[0].data|
    modifies pool
    ensures r == [] <==> dataLen == 0 || staticChain == []
                         || old(pool.free) < MbufsSpanned(FromOffset(staticChain, dataOffset), dataLen)
    ensures pool.free == old(pool.free) - |r|
    ensures r != [] ==> Bytes(r) == Bytes(staticChain)[dataOffset..][..Min(dataLen, |Bytes(staticChain)| - dataOffset)]
    ensures r != [] ==> r[0].nbSegs == |r| == MbufsSpanned(FromOffset(staticChain, dataOffset), dataLen)
    ensures r != [] ==> (r[0].pktLen == |Bytes(r)| <==> dataLen <= |Bytes(staticChain)| - dataOffset)
  {
    r := [];
    if dataLen == 0 || staticChain == [] {
      return;
    }
    FromOffsetDrops(staticChain, dataOffset);
    r := ShareSegs(pool, FromOffset(staticChain, dataOffset), dataLen);
    if r != [] {
      BytesIgnoreLengths(r, dataLen, |r|);
      r := [r[0].(pktLen := dataLen, nbSegs := |r|)] + r[1..];
    }
  }

  lemma NothingSpanned(c: Chain, len: nat)
    requires c == [] || len == 0
    ensures FirstBytes(c, len) == [] && MbufsSpanned(c, len) == 0
  {
  }

  /** The loop at lines 394-412 and the failure exit, with the first mbuf already
      advanced to the offset. */
  method ShareSegs(pool: Mempool, from: Chain, len: nat) returns (r: Chain)
    requires from != [] && len > 0
    modifies pool
    ensures r == [] <==> old(pool.free) < MbufsSpanned(from, len)
    ensures pool.free == old(pool.free) - |r|
    ensures r != [] ==> Bytes(r) == FirstBytes(from, len) && |r| == MbufsSpanned(from, len)
  {
    ghost var goal, needed := FirstBytes(from, len), MbufsSpanned(from, len);
    SpanFirst(from, len);
    var dataLen: nat, chain := len, from;
    r := [];
    while dataLen > 0 && chain != []
      invariant r == [] ==> dataLen > 0 && chain != []
      invariant pool.free == old(pool.free) - |r|
      invariant needed == |r| + MbufsSpanned(chain, dataLen)
      invariant goal == Bytes(r) + FirstBytes(chain, dataLen)
      decreases |chain|
    {
      ghost var rest := FirstBytes(chain[1..], dataLen - Min(|chain[0].data|, dataLen));
      SpanFirst(chain, dataLen);
      var ok := pool.Alloc();
      if !ok {
        pool.Free(r);
        return [];
      }
      var n := Min(|chain[0].data|, dataLen);
      var clone := Mbuf(chain[0].data[..n], 0, 1);
      CloneTurn(r, clone, rest);
      r := r + [clone];
      dataLen, chain := dataLen - n, chain[1..];
    }
    NothingSpanned(chain, dataLen);
  }
}
