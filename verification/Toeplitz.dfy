/** The table-driven Toeplitz hash, 3rdparty/toeplitz.c and 3rdparty/toeplitz2.h.
    A uint32_t hash word is its 32 bits, the most significant first: 1 << (31 - j)
    is the word with bit j set and ^ works bit by bit. Addresses and ports are
    numbers. */
module Toeplitz {
  import opened Prelude
  import opened Arithmetic

  type Word = w: seq<bool> | |w| == 32 witness seq(32, _ => false)

  function Zero(): Word {
    seq(32, _ => false)
  }

  function Xor(a: Word, b: Word): Word {
    seq(32, i requires 0 <= i < 32 => a[i] != b[i])
  }

  // ----- the definition

  /** The hash of Microsoft RSS: for every input bit that is set, exclusive-or the
      leftmost 32 bits of the key; the key moves left by one for each bit. */
  function Hash(key: seq<bool>, input: seq<bool>): Word
    requires |key| >= |input| + 31
  {
    if input == [] then Zero()
    else if input[0] then Xor(key[..32], Hash(key[1..], input[1..]))
    else Hash(key[1..], input[1..])
  }

  /** v >> n. */
  function Shifted(v: nat, n: nat): nat {
    if n == 0 then v else Shifted(v, n - 1) / 2
  }

  /** Bit b of a byte, counted from the most significant one. */
  predicate ByteBit(v: byte, b: nat)
    requires b < 8
  {
    Shifted(v, 8 - b - 1) % 2 == 1
  }

  function ByteBits(v: byte): (r: seq<bool>)
    ensures |r| == 8
  {
    seq(8, b requires 0 <= b < 8 => ByteBit(v, b))
  }

  function Bits(bytes: seq<byte>): (r: seq<bool>)
    ensures |r| == 8 * |bytes|
  {
    if bytes == [] then [] else ByteBits(bytes[0]) + Bits(bytes[1..])
  }

  // ----- which bits are meant

  /** The number that bits denote in binary, the most significant first. */
  function Value(bits: seq<bool>): nat {
    if bits == [] then 0
    else 2 * Value(bits[..|bits| - 1]) + if bits[|bits| - 1] then 1 else 0
  }

  function Doubled(x: nat, n: nat): nat {
    if n == 0 then x else 2 * Doubled(x, n - 1)
  }

  lemma EightShifts(v: byte, x: nat)
    ensures Shifted(v, 8) == 0 && Doubled(x, 8) == 256 * x
  {
    assert Shifted(v, 1) < 128;
    assert Shifted(v, 2) < 64;
    assert Shifted(v, 3) < 32;
    assert Shifted(v, 4) < 16;
    assert Shifted(v, 5) < 8;
    assert Shifted(v, 6) < 4;
    assert Shifted(v, 7) < 2;
    assert Doubled(x, 1) == 2 * x;
    assert Doubled(x, 2) == 4 * x;
    assert Doubled(x, 3) == 8 * x;
    assert Doubled(x, 4) == 16 * x;
    assert Doubled(x, 5) == 32 * x;
    assert Doubled(x, 6) == 64 * x;
    assert Doubled(x, 7) == 128 * x;
  }

  /** The first n bits of a byte behind other bits. */
  lemma {:induction false} ValueOfPart(bits: seq<bool>, v: byte, n: nat)
    requires n <= 8
    ensures Value(bits + ByteBits(v)[..n]) == Doubled(Value(bits), n) + Shifted(v, 8 - n)
    decreases n
  {
    var part := ByteBits(v)[..n];
    if n == 0 {
      EightShifts(v, 0);
      assert bits + part == bits;
    } else {
      ValueOfPart(bits, v, n - 1);
      ValueOfLast(bits + ByteBits(v)[..n - 1], ByteBit(v, n - 1));
      assert bits + part == bits + ByteBits(v)[..n - 1] + [ByteBit(v, n - 1)];
    }
  }

  lemma ValueOfLast(bits: seq<bool>, last: bool)
    ensures Value(bits + [last]) == 2 * Value(bits) + if last then 1 else 0
  {
    assert (bits + [last])[..|bits|] == bits;
  }

  lemma ValueOfByte(bits: seq<bool>, v: byte)
    ensures Value(bits + ByteBits(v)) == 256 * Value(bits) + v
  {
    ValueOfPart(bits, v, 8);
    EightShifts(v, Value(bits));
    assert ByteBits(v)[..8] == ByteBits(v);
  }

  /** The bits of a byte are those of its binary form. */
  lemma ByteIsBinary(v: byte)
    ensures Value(ByteBits(v)) == v
  {
    ValueOfByte([], v);
    assert [] + ByteBits(v) == ByteBits(v);
  }

  /** The bits of bytes are those of the number that they are in network byte order. */
  lemma BytesAreBinary(bytes: seq<byte>, v: byte)
    ensures Value(Bits(bytes + [v])) == 256 * Value(Bits(bytes)) + v
  {
    BitsOfConcat(bytes, [v]);
    BitsOfOne(v);
    ValueOfByte(Bits(bytes), v);
  }

  lemma BitsOfOne(v: byte)
    ensures Bits([v]) == ByteBits(v)
  {
    assert ByteBits(v) + Bits([]) == ByteBits(v);
  }

  /** So a number in host order is hashed as what it is in network byte order. */
  lemma WireIsBigEndian(x: u32, p: u16)
    ensures Value(Bits(Wire32(x))) == x && Value(Bits(Wire16(p))) == p
  {
    FourAreBinary(ByteOf(x, 3), ByteOf(x, 2), ByteOf(x, 1), ByteOf(x, 0));
    BytesWeigh(x);
    TwoAreBinary(ByteOf(p, 1), ByteOf(p, 0));
    BytesWeigh(p);
  }

  lemma TwoAreBinary(a: byte, b: byte)
    ensures Value(Bits([a, b])) == 256 * a + b
  {
    BitsOfOne(a);
    ByteIsBinary(a);
    BytesAreBinary([a], b);
    assert [a] + [b] == [a, b];
  }

  lemma FourAreBinary(a: byte, b: byte, c: byte, d: byte)
    ensures Value(Bits([a, b, c, d])) == 16777216 * a + 65536 * b + 256 * c + d
  {
    TwoAreBinary(a, b);
    BytesAreBinary([a, b], c);
    BytesAreBinary([a, b, c], d);
    assert [a, b] + [c] == [a, b, c] && [a, b, c] + [d] == [a, b, c, d];
  }

  /** The bytes of a number weigh 1, 256, 65536 and 16777216. */
  lemma BytesWeigh(x: u32)
    ensures x == ByteOf(x, 0) + 256 * ByteOf(x, 1) + 65536 * ByteOf(x, 2) + 16777216 * ByteOf(x, 3)
    ensures x < 65536 ==> x == ByteOf(x, 0) + 256 * ByteOf(x, 1)
  {
    var q := x / 256;
    assert x == 256 * q + ByteOf(x, 0) && x / 65536 == q / 256;
    assert q == 256 * (q / 256) + ByteOf(x, 1) && x / 16777216 == q / 256 / 256;
  }

  // ----- properties of the definition

  lemma XorLaws(a: Word, b: Word, c: Word)
    ensures Xor(a, b) == Xor(b, a)
    ensures Xor(Xor(a, b), c) == Xor(a, Xor(b, c))
    ensures Xor(a, Zero()) == a && Xor(Zero(), a) == a
    ensures Xor(a, a) == Zero()
  {
  }

  /** Hashing in pieces: the second piece continues with the key moved on. */
  lemma {:induction false} HashOfConcat(key: seq<bool>, a: seq<bool>, b: seq<bool>)
    requires |key| >= |a| + |b| + 31
    ensures Hash(key, a + b) == Xor(Hash(key, a), Hash(key[|a|..], b))
    decreases |a|
  {
    var rest := Hash(key[|a|..], b);
    if a == [] {
      assert a + b == b && key[0..] == key;
      XorLaws(rest, rest, rest);
    } else {
      assert (a + b)[1..] == a[1..] + b;
      assert key[1..][|a| - 1..] == key[|a|..];
      HashOfConcat(key[1..], a[1..], b);
      XorLaws(key[..32], Hash(key[1..], a[1..]), rest);
    }
  }

  function XorBits(a: seq<bool>, b: seq<bool>): (r: seq<bool>)
    requires |a| == |b|
    ensures |r| == |a|
  {
    seq(|a|, i requires 0 <= i < |a| => a[i] != b[i])
  }

  /** The hash is linear: the hash of an exclusive-or is the exclusive-or of the
      hashes. */
  lemma {:induction false} HashIsLinear(key: seq<bool>, a: seq<bool>, b: seq<bool>)
    requires |a| == |b| && |key| >= |a| + 31
    ensures Hash(key, XorBits(a, b)) == Xor(Hash(key, a), Hash(key, b))
    decreases |a|
  {
    if a == [] {
      XorLaws(Zero(), Zero(), Zero());
    } else {
      var x, y := Hash(key[1..], a[1..]), Hash(key[1..], b[1..]);
      var w := key[..32];
      assert XorBits(a, b)[1..] == XorBits(a[1..], b[1..]);
      HashIsLinear(key[1..], a[1..], b[1..]);
      LinearStep(w, x, y);
    }
  }

  lemma LinearStep(w: Word, x: Word, y: Word)
    ensures Xor(w, Xor(x, y)) == Xor(Xor(w, x), y) == Xor(x, Xor(w, y))
    ensures Xor(x, y) == Xor(Xor(w, x), Xor(w, y))
  {
  }

  lemma {:induction false} BitsOfConcat(a: seq<byte>, b: seq<byte>)
    ensures Bits(a + b) == Bits(a) + Bits(b)
  {
    if a == [] {
      assert a + b == b;
    } else {
      assert (a + b)[1..] == a[1..] + b;
      BitsOfConcat(a[1..], b);
    }
  }

  lemma {:induction false} BitAt(bytes: seq<byte>, p: nat)
    requires p < 8 * |bytes|
    ensures Bits(bytes)[p] == ByteBit(bytes[p / 8], p % 8)
    decreases |bytes|
  {
    if p < 8 {
    } else {
      assert Bits(bytes)[p] == Bits(bytes[1..])[p - 8];
      BitAt(bytes[1..], p - 8);
      assert (p - 8) / 8 == p / 8 - 1 && (p - 8) % 8 == p % 8;
    }
  }

  // ----- building the table

  /** Entry val of row i: the hash of the byte val at position i of the input. */
  ghost predicate EntryOk(cache: array2<Word>, key: seq<byte>, i: nat, val: int)
    requires i + 4 < |key| && i < cache.Length0 && cache.Length1 == 256 && 0 <= val < 256
    reads cache
  {
    cache[i, val] == Hash(Bits(key)[8 * i..], ByteBits(val))
  }

  /** Lines 98-102. */
  predicate KeyBit(key: seq<byte>, bit: nat)
    requires bit < 8 * |key|
    ensures KeyBit(key, bit) == Bits(key)[bit]
  {
    BitAt(key, bit);
    var k := key[bit / 8];
    ByteBit(k, bit % 8)
  }

  /** Lines 93-105: the 32-bit key window at bit 8 * i + b. The row needs the bytes
      i to i + 4 of the key. */
  method KeyWindow(key: seq<byte>, i: nat, b: nat) returns (w: Word)
    requires i + 4 < |key| && b < 8
    ensures w == Bits(key)[8 * i + b..8 * i + b + 32]
  {
    ghost var start, bits := 8 * i + b, Bits(key);
    w := Zero();
    WindowEnds(bits, start);
    for j := 0 to 32
      invariant w == FirstOfWindow(bits, start, j)
    {
      var isSet := KeyBit(key, i * 8 + b + j);
      WindowTurn(bits, start, j);
      if isSet {
        w := w[j := true];
      }
    }
  }

  /** The first j bits of a window, and zeros. */
  function FirstOfWindow(bits: seq<bool>, start: nat, j: nat): Word
    requires start + j <= |bits| && j <= 32
  {
    seq(32, i requires 0 <= i < 32 => i < j && bits[start + i])
  }

  lemma WindowTurn(bits: seq<bool>, start: nat, j: nat)
    requires start + j < |bits| && j < 32
    ensures var w := FirstOfWindow(bits, start, j);
            FirstOfWindow(bits, start, j + 1) == if bits[start + j] then w[j := true] else w
  {
  }

  lemma WindowEnds(bits: seq<bool>, start: nat)
    requires start + 32 <= |bits|
    ensures FirstOfWindow(bits, start, 0) == Zero() && FirstOfWindow(bits, start, 32) == bits[start..start + 32]
  {
  }

  /** Lines 114-118: combine the windows of the bits that are set in val. */
  method Combine(windows: seq<Word>, val: byte, ghost key: seq<bool>) returns (res: Word)
    requires |windows| == 8 && |key| >= 39
    requires forall b :: 0 <= b < 8 ==> windows[b] == key[b..b + 32]
    ensures res == Hash(key, ByteBits(val))
  {
    res := Zero();
    ghost var bits := ByteBits(val);
    for b := 0 to 8
      invariant res == Hash(key, bits[..b])
    {
      assert bits[..b + 1] == bits[..b] + [bits[b]];
      HashOfConcat(key, bits[..b], [bits[b]]);
      HashOfBit(key[b..], bits[b]);
      assert key[b..][..32] == key[b..b + 32];
      XorLaws(res, res, res);
      if ByteBit(val, b) {
        res := Xor(res, windows[b]);
      }
    }
    assert bits[..8] == bits;
  }

  lemma HashOfBit(key: seq<bool>, bit: bool)
    requires |key| >= 32
    ensures Hash(key, [bit]) == if bit then key[..32] else Zero()
  {
    XorLaws(key[..32], key[..32], key[..32]);
    assert Hash(key[1..], []) == Zero();
  }

  /** toeplitz_cache_create. The code fills all 40 rows from a 40-byte key and so
      reads up to four bytes behind it for the last rows; key is the memory it
      reads. */
  method CacheCreate(cache: array2<Word>, cacheLen: nat, key: seq<byte>)
    requires cacheLen <= cache.Length0 && cache.Length1 == 256 && cacheLen + 4 <= |key|
    modifies cache
    ensures forall i, val :: 0 <= i < cacheLen && 0 <= val < 256 ==> EntryOk(cache, key, i, val)
  {
    for i := 0 to cacheLen
      invariant forall r, val :: 0 <= r < i && 0 <= val < 256 ==> EntryOk(cache, key, r, val)
    {
      CreateRow(cache, i, key);
    }
  }

  lemma SliceOfRest(bits: seq<bool>, from: nat, b: nat, n: nat)
    requires from + b + n <= |bits|
    ensures bits[from..][b..b + n] == bits[from + b..from + b + n]
  {
  }

  method RowWindows(key: seq<byte>, i: nat) returns (windows: seq<Word>)
    requires i + 4 < |key|
    ensures |windows| == 8 && forall b :: 0 <= b < 8 ==> windows[b] == Bits(key)[8 * i..][b..b + 32]
  {
    windows := [];
    for b := 0 to 8
      invariant |windows| == b
      invariant forall c :: 0 <= c < b ==> windows[c] == Bits(key)[8 * i..][c..c + 32]
    {
      var w := KeyWindow(key, i, b);
      SliceOfRest(Bits(key), 8 * i, b, 32);
      windows := windows + [w];
    }
  }

  method CreateRow(cache: array2<Word>, i: nat, key: seq<byte>)
    requires i < cache.Length0 && cache.Length1 == 256 && i + 4 < |key|
    modifies cache
    ensures forall val :: 0 <= val < 256 ==> EntryOk(cache, key, i, val)
    ensures forall r, v :: 0 <= r < cache.Length0 && 0 <= v < 256 && r != i
              ==> cache[r, v] == old(cache[r, v])
  {
    var windows := RowWindows(key, i);
    for val := 0 to 256
      invariant forall v :: 0 <= v < val ==> EntryOk(cache, key, i, v)
      invariant forall r, v :: 0 <= r < cache.Length0 && 0 <= v < 256 && r != i
                  ==> cache[r, v] == old(cache[r, v])
    {
      var res := Combine(windows, val, Bits(key)[8 * i..]);
      label Before:
      cache[i, val] := res;
      forall v | 0 <= v <= val
        ensures EntryOk(cache, key, i, v)
      {
        if v < val {
          assert cache[i, v] == old@Before(cache[i, v]) && old@Before(EntryOk(cache, key, i, v));
        }
      }
    }
  }

  // ----- hashing addresses and ports

  /** (x >> 8 * n) & 0xff. */
  function ByteOf(x: u32, n: nat): byte
    requires n < 4
  {
    match n
    case 0 => x % 256
    case 1 => x / 256 % 256
    case 2 => x / 65536 % 256
    case _ => x / 16777216 % 256
  }

  /** The bytes of a number as a little-endian machine stores them, and as they
      are on the wire when the number is in host order. */
  function Stored32(x: u32): (r: seq<byte>)
    ensures |r| == 4
  {
    [ByteOf(x, 0), ByteOf(x, 1), ByteOf(x, 2), ByteOf(x, 3)]
  }

  function Wire32(x: u32): (r: seq<byte>)
    ensures |r| == 4
  {
    [ByteOf(x, 3), ByteOf(x, 2), ByteOf(x, 1), ByteOf(x, 0)]
  }

  function Stored16(x: u16): (r: seq<byte>)
    ensures |r| == 2
  {
    [ByteOf(x, 0), ByteOf(x, 1)]
  }

  function Wire16(x: u16): (r: seq<byte>)
    ensures |r| == 2
  {
    [ByteOf(x, 1), ByteOf(x, 0)]
  }

  /** rte_cpu_to_be_32 and rte_cpu_to_be_16 on a little-endian machine. */
  function Swap32(x: u32): u32 {
    ByteOf(x, 3) + 256 * ByteOf(x, 2) + 65536 * ByteOf(x, 1) + 16777216 * ByteOf(x, 0)
  }

  function Swap16(x: u16): u16 {
    ByteOf(x, 1) + 256 * ByteOf(x, 0)
  }

  lemma Swap32ReversesBytes(x: u32)
    ensures Stored32(Swap32(x)) == Wire32(x)
  {
    BytesOfSum(ByteOf(x, 3), ByteOf(x, 2), ByteOf(x, 1), ByteOf(x, 0));
  }

  lemma Swap16ReversesBytes(p: u16)
    ensures Stored16(Swap16(p)) == Wire16(p)
  {
    QuotientIsUnique(Swap16(p), 256, ByteOf(p, 0), ByteOf(p, 1));
    QuotientIsUnique(ByteOf(p, 0), 256, 0, ByteOf(p, 0));
  }

  lemma BytesOfSum(b0: byte, b1: byte, b2: byte, b3: byte)
    ensures Stored32(b0 + 256 * b1 + 65536 * b2 + 16777216 * b3) == [b0, b1, b2, b3]
  {
    var x := b0 + 256 * b1 + 65536 * b2 + 16777216 * b3;
    QuotientIsUnique(x, 256, b1 + 256 * b2 + 65536 * b3, b0);
    QuotientIsUnique(x / 256, 256, b2 + 256 * b3, b1);
    QuotientIsUnique(x, 65536, b2 + 256 * b3, b0 + 256 * b1);
    QuotientIsUnique(x / 65536, 256, b3, b2);
    QuotientIsUnique(x, 16777216, b3, b0 + 256 * b1 + 65536 * b2);
    QuotientIsUnique(b3, 256, 0, b3);
  }

  /** Rows 0 to 11 of the table were made from the key. */
  ghost predicate TableFor(cache: array2<Word>, key: seq<byte>)
    reads cache
  {
    && cache.Length0 >= 12 && cache.Length1 == 256 && |key| >= 16
    && forall i, val :: 0 <= i < 12 && 0 <= val < 256 ==> EntryOk(cache, key, i, val)
  }

  /** toeplitz_rawhash_addrport. */
  function RawHash(cache: array2<Word>, faddr: u32, laddr: u32, fport: u16, lport: u16): Word
    requires cache.Length0 >= 12 && cache.Length1 == 256
    reads cache
  {
    var r := cache[0, ByteOf(faddr, 0)];
    var r := Xor(r, cache[1, ByteOf(faddr, 1)]);
    var r := Xor(r, cache[2, ByteOf(faddr, 2)]);
    var r := Xor(r, cache[3, ByteOf(faddr, 3)]);
    var r := Xor(r, cache[4, ByteOf(laddr, 0)]);
    var r := Xor(r, cache[5, ByteOf(laddr, 1)]);
    var r := Xor(r, cache[6, ByteOf(laddr, 2)]);
    var r := Xor(r, cache[7, ByteOf(laddr, 3)]);
    var r := Xor(r, cache[8, ByteOf(fport, 0)]);
    var r := Xor(r, cache[9, ByteOf(fport, 1)]);
    var r := Xor(r, cache[10, ByteOf(lport, 0)]);
    Xor(r, cache[11, ByteOf(lport, 1)])
  }

  /** toeplitz_cpuhash_addrport. */
  function CpuHash(cache: array2<Word>, faddr: u32, laddr: u32, fport: u16, lport: u16): Word
    requires cache.Length0 >= 12 && cache.Length1 == 256
    reads cache
  {
    var r := cache[3, ByteOf(faddr, 0)];
    var r := Xor(r, cache[2, ByteOf(faddr, 1)]);
    var r := Xor(r, cache[1, ByteOf(faddr, 2)]);
    var r := Xor(r, cache[0, ByteOf(faddr, 3)]);
    var r := Xor(r, cache[7, ByteOf(laddr, 0)]);
    var r := Xor(r, cache[6, ByteOf(laddr, 1)]);
    var r := Xor(r, cache[5, ByteOf(laddr, 2)]);
    var r := Xor(r, cache[4, ByteOf(laddr, 3)]);
    var r := Xor(r, cache[9, ByteOf(fport, 0)]);
    var r := Xor(r, cache[8, ByteOf(fport, 1)]);
    var r := Xor(r, cache[11, ByteOf(lport, 0)]);
    Xor(r, cache[10, ByteOf(lport, 1)])
  }

  /** toeplitz_rawhash_addr. */
  function RawHashAddr(cache: array2<Word>, faddr: u32, laddr: u32): Word
    requires cache.Length0 >= 12 && cache.Length1 == 256
    reads cache
  {
    var r := cache[0, ByteOf(faddr, 0)];
    var r := Xor(r, cache[1, ByteOf(faddr, 1)]);
    var r := Xor(r, cache[2, ByteOf(faddr, 2)]);
    var r := Xor(r, cache[3, ByteOf(faddr, 3)]);
    var r := Xor(r, cache[4, ByteOf(laddr, 0)]);
    var r := Xor(r, cache[5, ByteOf(laddr, 1)]);
    var r := Xor(r, cache[6, ByteOf(laddr, 2)]);
    Xor(r, cache[7, ByteOf(laddr, 3)])
  }

  /** toeplitz_cpuhash_addr. */
  function CpuHashAddr(cache: array2<Word>, faddr: u32, laddr: u32): Word
    requires cache.Length0 >= 12 && cache.Length1 == 256
    reads cache
  {
    var r := cache[3, ByteOf(faddr, 0)];
    var r := Xor(r, cache[2, ByteOf(faddr, 1)]);
    var r := Xor(r, cache[1, ByteOf(faddr, 2)]);
    var r := Xor(r, cache[0, ByteOf(faddr, 3)]);
    var r := Xor(r, cache[7, ByteOf(laddr, 0)]);
    var r := Xor(r, cache[6, ByteOf(laddr, 1)]);
    var r := Xor(r, cache[5, ByteOf(laddr, 2)]);
    Xor(r, cache[4, ByteOf(laddr, 3)])
  }

  /** The hash of a byte string out of the table, byte by byte. */
  ghost function Lookups(cache: array2<Word>, row: nat, bytes: seq<byte>): Word
    requires row + |bytes| <= 12 && cache.Length0 >= 12 && cache.Length1 == 256
    reads cache
    decreases |bytes|
  {
    if bytes == [] then Zero() else Xor(cache[row, bytes[0]], Lookups(cache, row + 1, bytes[1..]))
  }

  lemma {:induction false} LookupsAreHash(cache: array2<Word>, key: seq<byte>, row: nat, bytes: seq<byte>)
    requires TableFor(cache, key) && row + |bytes| <= 12
    ensures Lookups(cache, row, bytes) == Hash(Bits(key)[8 * row..], Bits(bytes))
    decreases |bytes|
  {
    if bytes != [] {
      assert EntryOk(cache, key, row, bytes[0]);
      LookupsAreHash(cache, key, row + 1, bytes[1..]);
      HashOfFirst(Bits(key), 8 * row, bytes);
    }
  }

  lemma {:induction false} HashOfFirst(key: seq<bool>, from: nat, bytes: seq<byte>)
    requires bytes != [] && |key| >= from + 8 * |bytes| + 31
    ensures Hash(key[from..], Bits(bytes))
            == Xor(Hash(key[from..], ByteBits(bytes[0])), Hash(key[from + 8..], Bits(bytes[1..])))
  {
    HashOfConcat(key[from..], ByteBits(bytes[0]), Bits(bytes[1..]));
    assert key[from..][8..] == key[from + 8..];
  }

  /** The exclusive-or of twelve words does not depend on grouping, nor on the
      order inside the four groups of the addresses and ports. */
  lemma TwelveWords(w: seq<Word>)
    requires |w| == 12
    ensures var chain := Xor(w[0], Xor(w[1], Xor(w[2], Xor(w[3], Xor(w[4], Xor(w[5],
                         Xor(w[6], Xor(w[7], Xor(w[8], Xor(w[9], Xor(w[10], Xor(w[11], Zero()))))))))))));
            && Xor(Xor(Xor(Xor(Xor(Xor(Xor(Xor(Xor(Xor(Xor(w[0], w[1]), w[2]), w[3]), w[4]), w[5]),
                 w[6]), w[7]), w[8]), w[9]), w[10]), w[11]) == chain
            && Xor(Xor(Xor(Xor(Xor(Xor(Xor(Xor(Xor(Xor(Xor(w[3], w[2]), w[1]), w[0]), w[7]), w[6]),
                 w[5]), w[4]), w[9]), w[8]), w[11]), w[10]) == chain
  {
  }

  lemma {:induction false} LookupsChain(cache: array2<Word>, b: seq<byte>)
    requires |b| == 12 && cache.Length0 >= 12 && cache.Length1 == 256
    ensures Lookups(cache, 0, b)
            == Xor(cache[0, b[0]], Xor(cache[1, b[1]], Xor(cache[2, b[2]], Xor(cache[3, b[3]],
               Xor(cache[4, b[4]], Xor(cache[5, b[5]], Xor(cache[6, b[6]], Xor(cache[7, b[7]],
               Xor(cache[8, b[8]], Xor(cache[9, b[9]], Xor(cache[10, b[10]],
               Xor(cache[11, b[11]], Zero()))))))))))))
  {
    FourLookups(cache, b, 0);
    FourLookups(cache, b, 4);
    FourLookups(cache, b, 8);
    assert b[0..] == b && b[12..] == [];
  }

  lemma FourLookups(cache: array2<Word>, b: seq<byte>, i: nat)
    requires i + 4 <= |b| <= 12 && cache.Length0 >= 12 && cache.Length1 == 256
    ensures Lookups(cache, i, b[i..])
            == Xor(cache[i, b[i]], Xor(cache[i + 1, b[i + 1]], Xor(cache[i + 2, b[i + 2]],
               Xor(cache[i + 3, b[i + 3]], Lookups(cache, i + 4, b[i + 4..])))))
  {
    LookupsStep(cache, b, i);
    LookupsStep(cache, b, i + 1);
    LookupsStep(cache, b, i + 2);
    LookupsStep(cache, b, i + 3);
  }

  lemma LookupsStep(cache: array2<Word>, b: seq<byte>, i: nat)
    requires i < |b| <= 12 && cache.Length0 >= 12 && cache.Length1 == 256
    ensures Lookups(cache, i, b[i..]) == Xor(cache[i, b[i]], Lookups(cache, i + 1, b[i + 1..]))
  {
    assert b[i..][1..] == b[i + 1..];
  }

  function Input(a: seq<byte>, b: seq<byte>, c: seq<byte>, d: seq<byte>): seq<byte> {
    a + b + c + d
  }

  /** For every key and every tuple, the twelve table lookups on numbers in network
      order are the bitwise hash of the bytes as they are stored. */
  lemma RawHashIsToeplitz(cache: array2<Word>, key: seq<byte>, faddr: u32, laddr: u32, fport: u16, lport: u16)
    requires TableFor(cache, key)
    ensures RawHash(cache, faddr, laddr, fport, lport)
            == Hash(Bits(key), Bits(Input(Stored32(faddr), Stored32(laddr), Stored16(fport), Stored16(lport))))
  {
    var b := Input(Stored32(faddr), Stored32(laddr), Stored16(fport), Stored16(lport));
    var w := seq(12, i requires 0 <= i < 12 reads cache => cache[i, b[i]]);
    TwelveWords(w);
    LookupsChain(cache, b);
    LookupsAreHash(cache, key, 0, b);
    assert Bits(key)[8 * 0..] == Bits(key);
  }

  /** And on numbers in host order they are the hash of the bytes on the wire. */
  lemma CpuHashIsToeplitz(cache: array2<Word>, key: seq<byte>, faddr: u32, laddr: u32, fport: u16, lport: u16)
    requires TableFor(cache, key)
    ensures CpuHash(cache, faddr, laddr, fport, lport)
            == Hash(Bits(key), Bits(Input(Wire32(faddr), Wire32(laddr), Wire16(fport), Wire16(lport))))
  {
    var b := Input(Wire32(faddr), Wire32(laddr), Wire16(fport), Wire16(lport));
    var w := seq(12, i requires 0 <= i < 12 reads cache => cache[i, b[i]]);
    TwelveWords(w);
    LookupsChain(cache, b);
    LookupsAreHash(cache, key, 0, b);
    assert Bits(key)[8 * 0..] == Bits(key);
  }

  lemma EightWords(w: seq<Word>)
    requires |w| == 8
    ensures var chain := Xor(w[0], Xor(w[1], Xor(w[2], Xor(w[3], Xor(w[4], Xor(w[5], Xor(w[6], Xor(w[7], Zero()))))))));
            && Xor(Xor(Xor(Xor(Xor(Xor(Xor(w[0], w[1]), w[2]), w[3]), w[4]), w[5]), w[6]), w[7]) == chain
            && Xor(Xor(Xor(Xor(Xor(Xor(Xor(w[3], w[2]), w[1]), w[0]), w[7]), w[6]), w[5]), w[4]) == chain
  {
  }

  /** The forms without ports are the hash of the two addresses. */
  lemma AddrHashIsToeplitz(cache: array2<Word>, key: seq<byte>, faddr: u32, laddr: u32)
    requires TableFor(cache, key)
    ensures RawHashAddr(cache, faddr, laddr) == Hash(Bits(key), Bits(Stored32(faddr) + Stored32(laddr)))
    ensures CpuHashAddr(cache, faddr, laddr) == Hash(Bits(key), Bits(Wire32(faddr) + Wire32(laddr)))
  {
    EightLookups(cache, key, Stored32(faddr) + Stored32(laddr));
    EightLookups(cache, key, Wire32(faddr) + Wire32(laddr));
  }

  lemma {:induction false} EightLookups(cache: array2<Word>, key: seq<byte>, b: seq<byte>)
    requires TableFor(cache, key) && |b| == 8
    ensures var w := seq(8, i requires 0 <= i < 8 reads cache => cache[i, b[i]]);
            && Xor(Xor(Xor(Xor(Xor(Xor(Xor(w[0], w[1]), w[2]), w[3]), w[4]), w[5]), w[6]), w[7])
               == Hash(Bits(key), Bits(b))
            && Xor(Xor(Xor(Xor(Xor(Xor(Xor(w[3], w[2]), w[1]), w[0]), w[7]), w[6]), w[5]), w[4])
               == Hash(Bits(key), Bits(b))
  {
    EightWords(seq(8, i requires 0 <= i < 8 reads cache => cache[i, b[i]]));
    FourLookups(cache, b, 0);
    FourLookups(cache, b, 4);
    LookupsAreHash(cache, key, 0, b);
    assert b[0..] == b && b[8..] == [];
    assert Bits(key)[8 * 0..] == Bits(key);
  }

  /** So both compute the same hash of a connection, whatever the table: this is
      the check that tlkp_init makes for one tuple, for all of them. */
  lemma HostOrderHashIsPacketOrderHash(cache: array2<Word>, faddr: u32, laddr: u32, fport: u16, lport: u16)
    requires cache.Length0 >= 12 && cache.Length1 == 256
    ensures CpuHash(cache, faddr, laddr, fport, lport)
            == RawHash(cache, Swap32(faddr), Swap32(laddr), Swap16(fport), Swap16(lport))
  {
    Swap32ReversesBytes(faddr);
    Swap32ReversesBytes(laddr);
    Swap16ReversesBytes(fport);
    Swap16ReversesBytes(lport);
    var b := Input(Wire32(faddr), Wire32(laddr), Wire16(fport), Wire16(lport));
    var w := seq(12, i requires 0 <= i < 12 reads cache => cache[i, b[i]]);
    TwelveWords(w);
    SwappedBytes(faddr);
    SwappedBytes(laddr);
  }

  lemma SwappedBytes(x: u32)
    ensures ByteOf(Swap32(x), 0) == ByteOf(x, 3) && ByteOf(Swap32(x), 1) == ByteOf(x, 2)
    ensures ByteOf(Swap32(x), 2) == ByteOf(x, 1) && ByteOf(Swap32(x), 3) == ByteOf(x, 0)
  {
    Swap32ReversesBytes(x);
    var a, b := Stored32(Swap32(x)), Wire32(x);
    assert a[0] == b[0] && a[1] == b[1] && a[2] == b[2] && a[3] == b[3];
  }

  // ----- from the key of the port to the hash

  const KEY_LEN := 40   // TOEPLITZ_KEYSEED_CNT, TOEPLITZ_INIT_KEYLEN

  class Rss {
    const keyseeds: array<u32>
    const cache: array2<Word>

    constructor (seeds: seq<u32>)
      requires |seeds| == KEY_LEN
      ensures Valid() && keyseeds[..] == seeds && fresh(keyseeds) && fresh(cache)
    {
      keyseeds := new u32[KEY_LEN](i requires 0 <= i < KEY_LEN => seeds[i]);
      cache := new Word[KEY_LEN, 256]((_, _) => Zero());
    }

    ghost predicate Valid() {
      keyseeds.Length == KEY_LEN && cache.Length0 == KEY_LEN && cache.Length1 == 256
    }

    /** The seeds as bytes. */
    ghost function SeedBytes(): (r: seq<byte>)
      requires Valid()
      reads keyseeds
      ensures |r| == KEY_LEN
    {
      seq(KEY_LEN, i requires 0 <= i < KEY_LEN reads keyseeds => keyseeds[i] % 256)
    }

    /** toeplitz_init. A key of at least 40 bytes becomes the seeds; with a shorter one
        the seeds stay, reduced to bytes. behind is the memory after the local key,
        which the last rows of the table read but the hash does not. */
    method Init(keyIn: seq<byte>, behind: seq<byte>)
      requires Valid() && |behind| >= 4
      modifies keyseeds, cache
      ensures SeedBytes() == if |keyIn| < KEY_LEN then old(SeedBytes()) else keyIn[..KEY_LEN]
      ensures TableFor(cache, SeedBytes())
    {
      TakeSeeds(keyIn);
      var key := GetKey();
      CacheCreate(cache, KEY_LEN, key + behind);
      ShortKeyIsEnough(cache, key + behind, key);
    }

    method TakeSeeds(keyIn: seq<byte>)
      requires Valid()
      modifies keyseeds
      ensures SeedBytes() == if |keyIn| < KEY_LEN then old(SeedBytes()) else keyIn[..KEY_LEN]
      ensures forall i :: 0 <= i < KEY_LEN ==> keyseeds[i] < 256
    {
      if |keyIn| < KEY_LEN {
        for i := 0 to KEY_LEN
          invariant forall j :: 0 <= j < i ==> keyseeds[j] == old(keyseeds[j]) % 256
          invariant forall j :: i <= j < KEY_LEN ==> keyseeds[j] == old(keyseeds[j])
        {
          keyseeds[i] := keyseeds[i] % 256;
        }
      } else {
        for i := 0 to KEY_LEN
          invariant forall j :: 0 <= j < i ==> keyseeds[j] == keyIn[j]
        {
          keyseeds[i] := keyIn[i];
        }
      }
    }

    /** toeplitz_get_key, for the length that Init asks for. */
    method GetKey() returns (key: seq<byte>)
      requires Valid()
      ensures key == SeedBytes()
    {
      key := [];
      for i := 0 to KEY_LEN
        invariant key == SeedBytes()[..i]
      {
        key := key + [keyseeds[i % KEY_LEN] % 256];
      }
    }
  }

  /** The twelve rows that are looked up depend on the first 16 bytes of the key
      only. */
  lemma ShortKeyIsEnough(cache: array2<Word>, key: seq<byte>, other: seq<byte>)
    requires TableFor(cache, key) && |other| >= 16 && key[..16] == other[..16]
    ensures TableFor(cache, other)
  {
    forall i, val: int | 0 <= i < 12 && 0 <= val < 256
      ensures EntryOk(cache, other, i, val)
    {
      assert EntryOk(cache, key, i, val);
      SameWindow(key, other, i);
      HashReads(Bits(key)[8 * i..], Bits(other)[8 * i..], ByteBits(val));
    }
  }

  lemma SameWindow(key: seq<byte>, other: seq<byte>, i: nat)
    requires |key| >= 16 && |other| >= 16 && key[..16] == other[..16] && i < 12
    ensures Bits(key)[8 * i..][..39] == Bits(other)[8 * i..][..39]
  {
    var a, b := Bits(key)[8 * i..][..39], Bits(other)[8 * i..][..39];
    forall p | 0 <= p < 39
      ensures a[p] == b[p]
    {
      SameBit(key, other, 8 * i + p);
    }
  }

  lemma SameBit(key: seq<byte>, other: seq<byte>, p: nat)
    requires |key| >= 16 && |other| >= 16 && key[..16] == other[..16] && p < 128
    ensures Bits(key)[p] == Bits(other)[p]
  {
    BitAt(key, p);
    BitAt(other, p);
    SameByte(key, other, p / 8);
  }

  lemma SameByte(key: seq<byte>, other: seq<byte>, i: nat)
    requires |key| >= 16 && |other| >= 16 && key[..16] == other[..16] && i < 16
    ensures key[i] == other[i]
  {
    assert key[..16][i] == other[..16][i];
  }

  /** The hash of n bits reads n + 31 bits of the key. */
  lemma {:induction false} HashReads(a: seq<bool>, b: seq<bool>, input: seq<bool>)
    requires |a| >= |input| + 31 && |b| >= |input| + 31 && a[..|input| + 31] == b[..|input| + 31]
    ensures Hash(a, input) == Hash(b, input)
    decreases |input|
  {
    if input != [] {
      assert a[..32] == a[..|input| + 31][..32] && b[..32] == b[..|input| + 31][..32];
      assert a[1..][..|input| + 30] == a[..|input| + 31][1..] && b[1..][..|input| + 30] == b[..|input| + 31][1..];
      HashReads(a[1..], b[1..], input[1..]);
    }
  }
}
