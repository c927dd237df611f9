/** The TCP and UDP checksum over scattered mbufs, inc/tpg_ipv4.h, against the
    Internet checksum of the flattened bytes, section 1 of RFC 1071. Words are
    summed in little-endian order. */
module Checksum {
  import opened Prelude
  import opened Arithmetic

  // ----- the definition

  /** The sum of the 16-bit words; a last odd byte is a word of its own. */
  function WordSum(b: seq<byte>): nat {
    if b == [] then 0
    else if |b| == 1 then b[0]
    else b[0] + 256 * b[1] + WordSum(b[2..])
  }

  /** Add the carries back once. */
  function Fold(x: nat): nat {
    x / 0x1_0000 + x % 0x1_0000
  }

  /** Add the carries back until there are none. */
  function Folded(x: nat): nat {
    if x < 0x1_0000 then x else FoldShrinks(x); Folded(Fold(x))
  }

  /** The checksum as it is sent: the complement, with zero sent as 0xffff. */
  function Sent(sum: nat): nat
    requires sum <= 0xFFFF
  {
    if sum == 0xFFFF then 0xFFFF else 0xFFFF - sum
  }

  function InternetChecksum(b: seq<byte>): nat {
    FoldedFits(WordSum(b));
    Sent(Folded(WordSum(b)))
  }

  // ----- arithmetic modulo 65535, with the quotients

  lemma FoldShrinks(x: nat)
    requires x >= 0x1_0000
    ensures Fold(x) < x
  {
  }

  lemma {:induction false} FoldedFits(x: nat)
    ensures Folded(x) <= 0xFFFF
  {
    if x >= 0x1_0000 {
      FoldShrinks(x);
      FoldedFits(Fold(x));
    }
  }

  lemma FoldQuotient(x: nat)
    ensures x == Fold(x) + 0xFFFF * (x / 0x1_0000)
  {
  }

  lemma {:induction false} FoldedQuotient(x: nat) returns (q: nat)
    ensures Folded(x) <= 0xFFFF && x == Folded(x) + 0xFFFF * q
  {
    if x < 0x1_0000 {
      q := 0;
    } else {
      FoldShrinks(x);
      FoldQuotient(x);
      q := FoldedQuotient(Fold(x));
      q := q + x / 0x1_0000;
    }
  }

  /** Numbers from 0 to 65534 that differ by a multiple of 65535 are the same. */
  lemma SameResidue(x: int, y: int, q: int)
    requires x == y + 0xFFFF * q && -0xFFFF < x - y < 0xFFFF
    ensures x == y
  {
    MulAtLeast(0xFFFF, q);
  }

  /** The checksum is the complement of the word sum modulo 65535, never zero. */
  lemma ChecksumQuotient(b: seq<byte>) returns (q: int)
    ensures 1 <= InternetChecksum(b) <= 0xFFFF
    ensures InternetChecksum(b) == 0xFFFF - (WordSum(b) - 0xFFFF * q)
  {
    var p := FoldedQuotient(WordSum(b));
    q := if Folded(WordSum(b)) == 0xFFFF then p + 1 else p;
  }

  // ----- word sums of concatenations

  lemma {:induction false} WordSumOfConcat(a: seq<byte>, b: seq<byte>)
    requires |a| % 2 == 0
    ensures WordSum(a + b) == WordSum(a) + WordSum(b)
    decreases |a|
  {
    if a == [] {
      assert a + b == b;
    } else {
      assert (a + b)[2..] == a[2..] + b;
      WordSumOfConcat(a[2..], b);
    }
  }

  /** One byte in front makes low bytes high ones and the other way round. */
  lemma {:induction false} WordSumBehindByte(x: byte, b: seq<byte>) returns (q: nat)
    ensures x + 256 * WordSum(b) == WordSum([x] + b) + 0xFFFF * q
    decreases |b|
  {
    q := 0;
    if b == [] {
      assert [x] + b == [x];
    } else if |b| == 1 {
      assert ([x] + b)[2..] == [];
    } else {
      assert ([x] + b)[2..] == [b[1]] + b[2..];
      q := WordSumBehindByte(b[1], b[2..]);
      q := q + b[1];
    }
  }

  lemma WordSumOfOddConcat(a: seq<byte>, b: seq<byte>) returns (q: nat)
    requires |a| % 2 == 1
    ensures WordSum(a) + 256 * WordSum(b) == WordSum(a + b) + 0xFFFF * q
  {
    var even, x := a[..|a| - 1], a[|a| - 1];
    assert a == even + [x] && a + b == even + ([x] + b);
    WordSumOfConcat(even, [x]);
    WordSumOfConcat(even, [x] + b);
    q := WordSumBehindByte(x, b);
  }

  // ----- the code

  /** rte_raw_cksum: the sum of one buffer, folded twice into 16 bits. */
  function RawCksum(b: seq<byte>): nat {
    Fold(Fold(WordSum(b)))
  }

  lemma {:induction false} WordSumBound(b: seq<byte>)
    ensures WordSum(b) <= 0xFFFF * ((|b| + 1) / 2)
    decreases |b|
  {
    if |b| > 1 {
      WordSumBound(b[2..]);
    }
  }

  /** A buffer length fits 16 bits, so folding twice is enough. */
  lemma RawCksumFits(b: seq<byte>) returns (q: nat)
    requires |b| <= 0xFFFF
    ensures RawCksum(b) <= 0xFFFF && WordSum(b) == RawCksum(b) + 0xFFFF * q
  {
    WordSumBound(b);
    FoldQuotient(WordSum(b));
    FoldQuotient(Fold(WordSum(b)));
    q := WordSum(b) / 0x1_0000 + Fold(WordSum(b)) / 0x1_0000;
  }

  /** Lines 144-149: one fold, complement, zero becomes 0xffff. */
  function Finish(cksum: nat): nat {
    var c := 0xFFFF - Fold(cksum) % 0x1_0000;
    if c == 0 then 0xFFFF else c
  }

  lemma FinishOf(cksum: nat)
    requires cksum < 0x1_0000_0000
    ensures var c := Fold(cksum);
            && c <= 0x1_FFFE
            && Finish(cksum) == if c < 0xFFFF then 0xFFFF - c else if c == 0xFFFF then 0xFFFF else 0x1_FFFF - c
  {
  }

  lemma DivideBy257(s: nat)
    ensures s == 257 * (s / 257) + s % 257
  {
  }

  /** When the code is right. It folds cksum, the sum that should be finished is larger
      by 255 * odd, and wanted is the checksum of that: they agree if and only if
      the single fold leaves no carry and odd is a multiple of 257. A carry is
      never made up for. */
  lemma FinishIsRightIff(cksum: nat, odd: nat, wanted: int, q: int)
    requires cksum < 0x1_0000_0000 && 1 <= wanted <= 0xFFFF
    requires wanted == 0xFFFF - (cksum + 255 * odd - 0xFFFF * q)
    ensures Finish(cksum) == wanted <==> Fold(cksum) <= 0xFFFF && odd % 257 == 0
  {
    var c, p, d := Fold(cksum), cksum / 0x1_0000, odd / 257;
    FoldQuotient(cksum);
    FinishOf(cksum);
    DivideBy257(odd);
    if c > 0xFFFF {
      MulAtLeast(255, odd + 257 * (p - q + 1));
    } else {
      var e := if c == 0xFFFF then 1 else 0;
      assert wanted - Finish(cksum) == 0xFFFF * (q - p - d - e) - 255 * (odd % 257);
      if odd % 257 == 0 {
        SameResidue(wanted, Finish(cksum), q - p - d - e);
      } else {
        NoMultiple(q - p - d - e, odd % 257);
      }
    }
  }

  lemma NoMultiple(k: int, r: int)
    requires 0 < r < 257
    ensures 0xFFFF * k != 255 * r
  {
    MulAtLeast(0xFFFF, k);
  }

  type Frags = seq<seq<byte>>

  function Flat(f: Frags): seq<byte> {
    if f == [] then [] else f[0] + Flat(f[1..])
  }

  /** The first len bytes of the fragments, or as many as there are. */
  function FirstBytes(f: Frags, len: nat): seq<byte> {
    Flat(f)[..Min(len, |Flat(f)|)]
  }

  /** What the loop adds up over the first len bytes of the fragments. */
  function ScatterSum(f: Frags, len: nat): nat {
    if f == [] || len == 0 then 0
    else
      var n := Min(len, |f[0]|);
      RawCksum(f[0][..n]) + ScatterSum(f[1..], len - n)
  }

  /** The word sums of those fragments that start at an odd offset, when the first one
      starts at an odd or even one: their low and high bytes are mixed up. */
  function OddSum(f: Frags, len: nat, odd: bool): nat {
    if f == [] || len == 0 then 0
    else
      var n := Min(len, |f[0]|);
      (if odd then WordSum(f[0][..n]) else 0) + OddSum(f[1..], len - n, odd != (n % 2 == 1))
  }

  ghost predicate Buffers(f: Frags) {
    forall i :: 0 <= i < |f| ==> |f[i]| <= 0xFFFF
  }

  /** All fragments but the last have even length. */
  ghost predicate EvenButLast(f: Frags) {
    forall i :: 0 <= i < |f| - 1 ==> |f[i]| % 2 == 0
  }

  /** Then no fragment that is summed starts at an odd offset. */
  lemma {:induction false} EvenFragmentsAddNothing(f: Frags, len: nat)
    requires EvenButLast(f)
    ensures OddSum(f, len, false) == 0
    decreases |f|
  {
    if f != [] && len > 0 {
      var n := Min(len, |f[0]|);
      if |f| > 1 && n == |f[0]| {
        EvenFragmentsAddNothing(f[1..], len - n);
      }
    }
  }

  lemma FlatCut(f: Frags, len: nat)
    requires f != [] && len > 0
    ensures var n := Min(len, |f[0]|);
            FirstBytes(f, len) == f[0][..n] + FirstBytes(f[1..], len - n)
  {
  }

  lemma {:induction false} ScatterSumBound(f: Frags, len: nat)
    requires Buffers(f)
    ensures ScatterSum(f, len) <= 0xFFFF * |f|
    decreases |f|
  {
    if f != [] && len > 0 {
      var n := Min(len, |f[0]|);
      var q := RawCksumFits(f[0][..n]);
      ScatterSumBound(f[1..], len - n);
    }
  }

  /** What the words of bytes at an odd or even offset are worth. */
  function Weighted(odd: bool, x: int): int {
    if odd then 256 * x else x
  }

  /** The word sum of a fragment and the rest, by the parity of their offsets. */
  lemma WordSumOfParts(a: seq<byte>, b: seq<byte>, odd: bool) returns (q: int)
    ensures Weighted(odd, WordSum(a + b))
            == Weighted(odd, WordSum(a)) + Weighted(odd != (|a| % 2 == 1), WordSum(b)) + 0xFFFF * q
  {
    if |a| % 2 == 0 {
      WordSumOfConcat(a, b);
      q := 0;
    } else {
      q := WordSumOfOddConcat(a, b);
      q := if odd then WordSum(b) - 256 * q else -q;
    }
  }

  /** For fragments of any lengths: the loop misses the word sum of the flattened bytes
      by 255 times the sum of the fragments at odd offsets, modulo 65535. */
  lemma {:induction false} ScatterSumQuotient(f: Frags, len: nat, odd: bool) returns (q: int)
    requires Buffers(f)
    ensures Weighted(odd, WordSum(FirstBytes(f, len))) == ScatterSum(f, len) + 255 * OddSum(f, len, odd) + 0xFFFF * q
    decreases |f|
  {
    if f == [] || len == 0 {
      assert FirstBytes(f, len) == [];
      q := 0;
    } else {
      var n := Min(len, |f[0]|);
      var a, b, flips := f[0][..n], FirstBytes(f[1..], len - n), odd != (n % 2 == 1);
      assert FirstBytes(f, len) == a + b by {
        FlatCut(f, len);
      }
      q := ScatterSumQuotient(f[1..], len - n, flips);
      var p := RawCksumFits(a);
      var r := WordSumOfParts(a, b, odd);
      SumsOfFirst(f, len, odd);
      q := q + p + r;
    }
  }

  lemma SumsOfFirst(f: Frags, len: nat, odd: bool)
    requires f != [] && len > 0
    ensures var n := Min(len, |f[0]|);
            && ScatterSum(f, len) == RawCksum(f[0][..n]) + ScatterSum(f[1..], len - n)
            && OddSum(f, len, odd) == (if odd then WordSum(f[0][..n]) else 0)
                                      + OddSum(f[1..], len - n, odd != (n % 2 == 1))
  {
  }

  /** The loops of both functions. */
  method AddFragments(f: Frags, len: nat) returns (sum: nat)
    ensures sum == ScatterSum(f, len)
  {
    sum := 0;
    var i, bytesLeft: nat := 0, len;
    while i < |f| && bytesLeft > 0
      invariant i <= |f| && sum + ScatterSum(f[i..], bytesLeft) == ScatterSum(f, len)
    {
      var dataLen := Min(bytesLeft, |f[i]|);
      assert f[i..][0] == f[i] && f[i..][1..] == f[i + 1..];
      sum := sum + RawCksum(f[i][..dataLen]);
      bytesLeft := bytesLeft - dataLen;
      i := i + 1;
    }
  }

  /** The pseudo header: addresses, zero, protocol, and the length, big-endian. */
  function PseudoHeader(addrs: seq<byte>, proto: byte, len: u16): (r: seq<byte>)
    requires |addrs| == 8
    ensures |r| == 12
  {
    addrs + [0, proto, len / 256, len % 256]
  }

  /** The fragments from the given offset into the first one. */
  function From(f: Frags, offset: nat): Frags
    requires f != [] && offset <= |f[0]|
  {
    [f[0][offset..]] + f[1..]
  }

  /** What is covered: pseudo header, then the bytes. */
  function Covered(addrs: seq<byte>, proto: byte, f: Frags, len: u16): seq<byte>
    requires |addrs| == 8
  {
    PseudoHeader(addrs, proto, len) + FirstBytes(f, len)
  }

  function RawTotal(addrs: seq<byte>, proto: byte, f: Frags, len: u16): nat
    requires |addrs| == 8
  {
    RawCksum(PseudoHeader(addrs, proto, len)) + ScatterSum(f, len)
  }

  /** What ipv4_general_l4_cksum returns. */
  function GeneralCksum(addrs: seq<byte>, proto: byte, f: Frags, len: u16): nat
    requires |addrs| == 8
  {
    Finish(RawTotal(addrs, proto, f, len))
  }

  /** For fragments of any lengths it is the Internet checksum of pseudo header and
      flattened bytes if and only if the single fold leaves no carry and the
      fragments at odd offsets add up to a multiple of 257. */
  lemma GeneralCksumIsRightIff(addrs: seq<byte>, proto: byte, f: Frags, len: u16)
    requires |addrs| == 8 && Buffers(f) && |f| < 0x1_0000
    ensures GeneralCksum(addrs, proto, f, len) == InternetChecksum(Covered(addrs, proto, f, len))
       <==> Fold(RawTotal(addrs, proto, f, len)) <= 0xFFFF && OddSum(f, len, false) % 257 == 0
  {
    var psd, data := PseudoHeader(addrs, proto, len), FirstBytes(f, len);
    var a := RawCksumFits(psd);
    var b := ScatterSumQuotient(f, len, false);
    var q := ChecksumQuotient(psd + data);
    WordSumOfConcat(psd, data);
    ScatterSumBound(f, len);
    FinishIsRightIff(RawTotal(addrs, proto, f, len), OddSum(f, len, false),
                     InternetChecksum(psd + data), q - a - b);
  }

  /** ipv4_general_l4_cksum. */
  method GeneralL4Cksum(addrs: seq<byte>, proto: byte, f: Frags, offset: nat, len: u16) returns (c: nat)
    requires |addrs| == 8 && f != [] && offset <= |f[0]| && Buffers(f) && |f| < 0x1_0000
    ensures c == GeneralCksum(addrs, proto, From(f, offset), len)
    ensures c == InternetChecksum(Covered(addrs, proto, From(f, offset), len))
       <==> Fold(RawTotal(addrs, proto, From(f, offset), len)) <= 0xFFFF
            && OddSum(From(f, offset), len, false) % 257 == 0
  {
    var sum := AddFragments(From(f, offset), len);
    c := Finish(RawCksum(PseudoHeader(addrs, proto, len)) + sum);
    GeneralCksumIsRightIff(addrs, proto, From(f, offset), len);
  }

  /** A packet in a single mbuf always gets the right checksum. */
  lemma OneMbufIsRight(addrs: seq<byte>, proto: byte, data: seq<byte>, len: u16)
    requires |addrs| == 8 && |data| <= 0xFFFF
    ensures GeneralCksum(addrs, proto, [data], len) == InternetChecksum(Covered(addrs, proto, [data], len))
  {
    var q := RawCksumFits(PseudoHeader(addrs, proto, len));
    ScatterSumBound([data], len);
    OneBufferFits(RawCksum(PseudoHeader(addrs, proto, len)), ScatterSum([data], len));
    EvenFragmentsAddNothing([data], len);
    GeneralCksumIsRightIff(addrs, proto, [data], len);
  }

  /** One buffer next to the pseudo header never leaves a carry. */
  lemma OneBufferFits(a: nat, b: nat)
    requires a <= 0xFFFF && b <= 0xFFFF
    ensures Fold(a + b) <= 0xFFFF
  {
  }

  // ----- packets that get a wrong checksum

  lemma OneWord(x: byte, y: byte)
    ensures WordSum([x, y]) == x + 256 * y && RawCksum([x, y]) == x + 256 * y
  {
    assert [x, y][2..] == [];
  }

  lemma FirstFragment(a: seq<byte>, rest: Frags, len: nat)
    requires a != []
    ensures ScatterSum([a] + rest, |a| + len) == RawCksum(a) + ScatterSum(rest, len)
    ensures OddSum([a] + rest, |a| + len, false) == OddSum(rest, len, |a| % 2 == 1)
    ensures OddSum([a] + rest, |a| + len, true) == WordSum(a) + OddSum(rest, len, |a| % 2 == 0)
  {
    assert ([a] + rest)[1..] == rest && a[..|a|] == a;
  }

  lemma {:induction false} TwoFragments(a: seq<byte>, b: seq<byte>)
    requires a != [] && b != []
    ensures ScatterSum([a, b], |a| + |b|) == RawCksum(a) + RawCksum(b)
    ensures OddSum([a, b], |a| + |b|, false) == if |a| % 2 == 1 then WordSum(b) else 0
  {
    OneFragment(b);
    FirstFragment(a, [b], |b|);
    assert [a] + [b] == [a, b];
  }

  lemma OneFragment(b: seq<byte>)
    requires b != []
    ensures ScatterSum([b], |b|) == RawCksum(b)
    ensures OddSum([b], |b|, false) == 0 && OddSum([b], |b|, true) == WordSum(b)
  {
    FirstFragment(b, [], 0);
    assert [b] + [] == [b];
  }

  /** Two fragments of one word each, ff ff and 01 00, from 255.245.0.0 to 0.0.0.0: the
      fold leaves a carry. */
  lemma CarryIsWrong(addrs: seq<byte>, a: seq<byte>, b: seq<byte>)
    requires addrs == [0xFF, 0xF5, 0, 0, 0, 0, 0, 0] && a == [0xFF, 0xFF] && b == [1, 0]
    ensures GeneralCksum(addrs, 6, [a, b], 4) != InternetChecksum(Covered(addrs, 6, [a, b], 4))
  {
    CarryTotal(addrs, a, b);
    CarryOf(RawTotal(addrs, 6, [a, b], 4));
    GeneralCksumIsRightIff(addrs, 6, [a, b], 4);
  }

  lemma CarryTotal(addrs: seq<byte>, a: seq<byte>, b: seq<byte>)
    requires addrs == [0xFF, 0xF5, 0, 0, 0, 0, 0, 0] && a == [0xFF, 0xFF] && b == [1, 0]
    ensures RawTotal(addrs, 6, [a, b], 4) == 0x1_FFFF
  {
    CarryHeader(addrs);
    assert ScatterSum([a, b], 4) == RawCksum(a) + RawCksum(b) by {
      TwoFragments(a, b);
    }
    OneWord(0xFF, 0xFF);
    OneWord(1, 0);
  }

  lemma CarryHeader(addrs: seq<byte>)
    requires addrs == [0xFF, 0xF5, 0, 0, 0, 0, 0, 0]
    ensures RawCksum(PseudoHeader(addrs, 6, 4)) == 0xFFFF
  {
    assert WordSum(PseudoHeader(addrs, 6, 4)) == 0xFFFF by {
      PseudoHeaderSum(addrs, 6, 4);
      SumOfFive(0xFF, 0xF5, 6);
      TenBytes(addrs, 0xFF, 0xF5, 6);
    }
  }

  lemma TenBytes(addrs: seq<byte>, x: byte, y: byte, p: byte)
    requires addrs == [x, y, 0, 0, 0, 0, 0, 0]
    ensures addrs + [0, p] == [x, y, 0, 0, 0, 0, 0, 0, 0, p]
  {
  }

  lemma SumOfFive(x: byte, y: byte, p: byte)
    ensures WordSum([x, y, 0, 0, 0, 0, 0, 0, 0, p]) == x + 256 * y + 256 * p
  {
    var s: seq<byte> := [x, y, 0, 0, 0, 0, 0, 0, 0, p];
    assert s == [x, y] + ([0, 0] + ([0, 0] + ([0, 0] + [0, p])));
    OneWord(x, y);
    OneWord(0, 0);
    OneWord(0, p);
    WordSumOfConcat([0, 0], [0, p]);
    WordSumOfConcat([0, 0], [0, 0] + [0, p]);
    WordSumOfConcat([0, 0], [0, 0] + ([0, 0] + [0, p]));
    WordSumOfConcat([x, y], [0, 0] + ([0, 0] + ([0, 0] + [0, p])));
  }

  lemma CarryOf(total: nat)
    ensures total == 0x1_FFFF ==> Fold(total) == 0x1_0000
  {
  }

  /** Two fragments of one byte each: the checksum is wrong unless the second byte is
      zero. */
  lemma OddFragmentsAreWrong(addrs: seq<byte>, proto: byte, a: seq<byte>, b: seq<byte>)
    requires |addrs| == 8 && |a| == |b| == 1 && b[0] != 0
    ensures GeneralCksum(addrs, proto, [a, b], 2) != InternetChecksum(Covered(addrs, proto, [a, b], 2))
  {
    assert OddSum([a, b], 2, false) == b[0] by {
      TwoFragments(a, b);
    }
    SmallRemainder(b[0]);
    GeneralCksumIsRightIff(addrs, proto, [a, b], 2);
  }

  lemma SmallRemainder(x: byte)
    ensures x % 257 == x
  {
  }

  // ----- adding data to the checksum of a header

  /** The word that a big-endian length is read as. */
  function SwappedLength(x: u16): nat {
    x / 256 + 256 * (x % 256)
  }

  lemma SwappedQuotient(x: u16)
    ensures SwappedLength(x) == 256 * x - 0xFFFF * (x / 256)
  {
  }

  lemma PseudoHeaderSum(addrs: seq<byte>, proto: byte, len: u16)
    requires |addrs| == 8
    ensures WordSum(PseudoHeader(addrs, proto, len))
            == WordSum(addrs + [0, proto]) + SwappedLength(len)
  {
    var tail: seq<byte> := [len / 256, len % 256];
    assert PseudoHeader(addrs, proto, len) == addrs + [0, proto] + tail;
    WordSumOfConcat(addrs + [0, proto], tail);
    assert tail[2..] == [];
  }

  /** What ipv4_update_general_l4_cksum folds. */
  function UpdateTotal(cksumIn: u16, f: Frags, len: u16): nat {
    0xFFFF - cksumIn + SwappedLength(len) + ScatterSum(f, len)
  }

  function UpdateCksum(cksumIn: u16, f: Frags, len: u16): nat {
    Finish(UpdateTotal(cksumIn, f, len))
  }

  /** The header checksum, brought up to date with data in fragments of any lengths
      behind the header, is the checksum of header and data under a pseudo header
      with the total length, under the same condition. */
  lemma {:induction false} UpdateCksumIsRightIff(addrs: seq<byte>, proto: byte, header: seq<byte>, f: Frags, len: u16, cksumIn: u16)
    requires |addrs| == 8 && |header| % 2 == 0 && |header| + len <= 0xFFFF && Buffers(f) && |f| < 0xFFFF
    requires cksumIn == InternetChecksum(PseudoHeader(addrs, proto, |header|) + header)
    ensures UpdateCksum(cksumIn, f, len)
            == InternetChecksum(PseudoHeader(addrs, proto, |header| + len) + (header + FirstBytes(f, len)))
       <==> Fold(UpdateTotal(cksumIn, f, len)) <= 0xFFFF && OddSum(f, len, false) % 257 == 0
  {
    var n, data := |header|, FirstBytes(f, len);
    var q := UpdateQuotient(addrs, proto, header, data, len, cksumIn);
    var c := ScatterSumQuotient(f, len, false);
    ScatterSumBound(f, len);
    FinishIsRightIff(UpdateTotal(cksumIn, f, len), OddSum(f, len, false),
                     InternetChecksum(PseudoHeader(addrs, proto, n + len) + (header + data)), q - c);
  }

  /** The complement of the header checksum, the length and the word sum of the data
      make up the new checksum modulo 65535. */
  lemma UpdateQuotient(addrs: seq<byte>, proto: byte, header: seq<byte>, data: seq<byte>, len: u16, cksumIn: u16)
    returns (q: int)
    requires |addrs| == 8 && |header| % 2 == 0 && |header| + len <= 0xFFFF
    requires cksumIn == InternetChecksum(PseudoHeader(addrs, proto, |header|) + header)
    ensures var c := InternetChecksum(PseudoHeader(addrs, proto, |header| + len) + (header + data));
            && 1 <= c <= 0xFFFF
            && c == 0xFFFF - (0xFFFF - cksumIn + SwappedLength(len) + WordSum(data) - 0xFFFF * q)
  {
    var n := |header|;
    var a := ChecksumOfParts(addrs, proto, n, header, []);
    assert header + [] == header;
    var b := ChecksumOfParts(addrs, proto, n + len, header, data);
    var j := SwapAdds(n, len);
    q := b - a + j;
  }

  lemma SwapAdds(n: u16, len: u16) returns (j: int)
    requires n + len <= 0xFFFF
    ensures SwappedLength(n) + SwappedLength(len) == SwappedLength(n + len) + 0xFFFF * j
  {
    SwappedQuotient(n);
    SwappedQuotient(len);
    SwappedQuotient(n + len);
    j := (n + len) / 256 - n / 256 - len / 256;
  }

  lemma ChecksumOfParts(addrs: seq<byte>, proto: byte, len: u16, header: seq<byte>, data: seq<byte>) returns (q: int)
    requires |addrs| == 8 && |header| % 2 == 0
    ensures var c := InternetChecksum(PseudoHeader(addrs, proto, len) + (header + data));
            && 1 <= c <= 0xFFFF
            && c == 0xFFFF - (WordSum(addrs + [0, proto]) + SwappedLength(len) + WordSum(header) + WordSum(data)
                              - 0xFFFF * q)
  {
    PseudoHeaderSum(addrs, proto, len);
    WordSumOfConcat(header, data);
    WordSumOfConcat(PseudoHeader(addrs, proto, len), header + data);
    q := ChecksumQuotient(PseudoHeader(addrs, proto, len) + (header + data));
  }

  /** ipv4_update_general_l4_cksum. */
  method UpdateGeneralL4Cksum(cksumIn: u16, f: Frags, len: u16,
                              ghost addrs: seq<byte>, ghost proto: byte, ghost header: seq<byte>)
    returns (c: nat)
    requires |addrs| == 8 && |header| % 2 == 0 && |header| + len <= 0xFFFF && Buffers(f) && |f| < 0xFFFF
    requires cksumIn == InternetChecksum(PseudoHeader(addrs, proto, |header|) + header)
    ensures c == UpdateCksum(cksumIn, f, len)
    ensures c == InternetChecksum(PseudoHeader(addrs, proto, |header| + len) + (header + FirstBytes(f, len)))
       <==> Fold(UpdateTotal(cksumIn, f, len)) <= 0xFFFF && OddSum(f, len, false) % 257 == 0
  {
    var sum := AddFragments(f, len);
    c := Finish(0xFFFF - cksumIn + SwappedLength(len) + sum);
    UpdateCksumIsRightIff(addrs, proto, header, f, len, cksumIn);
  }
}
