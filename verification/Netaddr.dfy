/** Network addresses as the repository stores them: sixteen octets in network
    order plus a length in bits (include/isolario/netaddr.h). The prefix an
    address denotes is the sequence of its first `bitlen` bits. */
module Netaddr {

  type Bits = seq<bool>

  datatype Family = AF_UNSPEC | AF_INET | AF_INET6

  datatype Netaddr<Octet> = Netaddr(family: Family, bitlen: nat, bytes: seq<Octet>)

  /** The test b & (0x80 >> j). */
  predicate ByteBit(b: bv8, j: nat)
    requires j < 8
  {
    b & BitMask(j) != 0
  }

  function BitMask(j: nat): bv8
    requires j < 8
  {
    if j == 0 then 0x80
    else if j == 1 then 0x40
    else if j == 2 then 0x20
    else if j == 3 then 0x10
    else if j == 4 then 0x08
    else if j == 5 then 0x04
    else if j == 6 then 0x02
    else 0x01
  }

  /** The low byte of ~0 << (8 - r). */
  function HighMask(r: nat): bv8
    requires r < 8
  {
    if r == 0 then 0x00
    else if r == 1 then 0x80
    else if r == 2 then 0xc0
    else if r == 3 then 0xe0
    else if r == 4 then 0xf0
    else if r == 5 then 0xf8
    else if r == 6 then 0xfc
    else 0xfe
  }

  lemma MasksAreShifts(j: nat)
    requires j < 8
    ensures BitMask(j) == 0x80 >> j
    ensures HighMask(j) == 0xff << (8 - j)
  {
  }

  /** The test bytes[i >> 3] & (0x80 >> (i & 7)). */
  predicate BitAt(bytes: seq<bv8>, i: nat)
    requires i < 8 * |bytes|
  {
    ByteBit(bytes[i / 8], i % 8)
  }

  ghost function AddrBits(bytes: seq<bv8>): (s: Bits)
    requires |bytes| == 16
    ensures |s| == 128 && forall i :: 0 <= i < 128 ==> s[i] == BitAt(bytes, i)
  {
    seq(128, i requires 0 <= i < 128 => BitAt(bytes, i))
  }

  /** What every address handed to the trie satisfies. */
  ghost predicate ValidAddr(a: Netaddr<bv8>) {
    |a.bytes| == 16 && a.bitlen <= 128
  }

  /** The prefix an address denotes. */
  ghost function Key(a: Netaddr<bv8>): (k: Bits)
    requires ValidAddr(a)
    ensures |k| == a.bitlen
  {
    AddrBits(a.bytes)[..a.bitlen]
  }

  // ---- Masked comparison -------------------------------------------------

  /** patcompwithmask: memcmp() on whole bytes, then the leading bits of the
      byte the mask ends in. */
  predicate CompWithMask(addr: seq<bv8>, dest: seq<bv8>, mask: nat)
    requires |addr| == |dest| == 16 && mask <= 128
  {
    && addr[..mask / 8] == dest[..mask / 8]
    && (mask % 8 == 0 ||
        addr[mask / 8] & HighMask(mask % 8) == dest[mask / 8] & HighMask(mask % 8))
  }

  lemma EqualFromBits(b: bv8, c: bv8)
    requires forall j :: 0 <= j < 8 ==> ByteBit(b, j) == ByteBit(c, j)
    ensures b == c
  {
    assert ByteBit(b, 0) == ByteBit(c, 0) && ByteBit(b, 1) == ByteBit(c, 1);
    assert ByteBit(b, 2) == ByteBit(c, 2) && ByteBit(b, 3) == ByteBit(c, 3);
    assert ByteBit(b, 4) == ByteBit(c, 4) && ByteBit(b, 5) == ByteBit(c, 5);
    assert ByteBit(b, 6) == ByteBit(c, 6) && ByteBit(b, 7) == ByteBit(c, 7);
  }

  lemma HighMaskBit(b: bv8, r: nat, j: nat)
    requires r < 8 && j < 8
    ensures ByteBit(b & HighMask(r), j) == (j < r && ByteBit(b, j))
  {
  }

  lemma HighMaskEqual(b: bv8, c: bv8, r: nat)
    requires r < 8
    ensures b & HighMask(r) == c & HighMask(r) <==>
            forall j :: 0 <= j < r ==> ByteBit(b, j) == ByteBit(c, j)
  {
    var b', c' := b & HighMask(r), c & HighMask(r);
    forall j | 0 <= j < 8
      ensures ByteBit(b', j) == (j < r && ByteBit(b, j))
      ensures ByteBit(c', j) == (j < r && ByteBit(c, j))
    {
      HighMaskBit(b, r, j);
      HighMaskBit(c, r, j);
    }
    if forall j :: 0 <= j < r ==> ByteBit(b, j) == ByteBit(c, j) {
      EqualFromBits(b', c');
    }
  }

  ghost predicate SameBits(addr: seq<bv8>, dest: seq<bv8>, lo: nat, hi: nat)
    requires |addr| == |dest| == 16 && hi <= 128
  {
    forall i :: lo <= i < hi ==> BitAt(addr, i) == BitAt(dest, i)
  }

  lemma SameByteBits(addr: seq<bv8>, dest: seq<bv8>, k: nat, r: nat)
    requires |addr| == |dest| == 16 && k < 16 && r <= 8
    requires SameBits(addr, dest, 8 * k, 8 * k + r)
    ensures forall j :: 0 <= j < r ==> ByteBit(addr[k], j) == ByteBit(dest[k], j)
  {
    forall j | 0 <= j < r ensures ByteBit(addr[k], j) == ByteBit(dest[k], j) {
      assert BitAt(addr, 8 * k + j) == BitAt(dest, 8 * k + j);
    }
  }

  lemma CompWithMaskSound(addr: seq<bv8>, dest: seq<bv8>, mask: nat)
    requires |addr| == |dest| == 16 && mask <= 128
    requires CompWithMask(addr, dest, mask)
    ensures SameBits(addr, dest, 0, mask)
  {
    var q, r := mask / 8, mask % 8;
    forall i | 0 <= i < mask ensures BitAt(addr, i) == BitAt(dest, i) {
      if i / 8 < q {
        assert addr[..q][i / 8] == dest[..q][i / 8];
      } else {
        HighMaskEqual(addr[q], dest[q], r);
      }
    }
  }

  lemma CompWithMaskComplete(addr: seq<bv8>, dest: seq<bv8>, mask: nat)
    requires |addr| == |dest| == 16 && mask <= 128
    requires SameBits(addr, dest, 0, mask)
    ensures CompWithMask(addr, dest, mask)
  {
    var q, r := mask / 8, mask % 8;
    forall k | 0 <= k < q ensures addr[k] == dest[k] {
      SameByteBits(addr, dest, k, 8);
      EqualFromBits(addr[k], dest[k]);
    }
    if r != 0 {
      SameByteBits(addr, dest, q, r);
      HighMaskEqual(addr[q], dest[q], r);
    }
  }

  /** patcompwithmask answers whether two addresses agree on their first
      `mask` bits. */
  lemma CompWithMaskIsPrefixEquality(addr: seq<bv8>, dest: seq<bv8>, mask: nat)
    requires |addr| == |dest| == 16 && mask <= 128
    ensures CompWithMask(addr, dest, mask) <==> AddrBits(addr)[..mask] == AddrBits(dest)[..mask]
  {
    var a, d := AddrBits(addr), AddrBits(dest);
    if CompWithMask(addr, dest, mask) {
      CompWithMaskSound(addr, dest, mask);
    }
    if a[..mask] == d[..mask] {
      assert forall i :: 0 <= i < mask ==> a[..mask][i] == a[i] && d[..mask][i] == d[i];
      CompWithMaskComplete(addr, dest, mask);
    }
  }

  // ---- First differing bit, 32 bits at a time -----------------------------

  function Pack(b0: bv8, b1: bv8, b2: bv8, b3: bv8): bv32 {
    (b0 as bv32 << 24) | (b1 as bv32 << 16) | (b2 as bv32 << 8) | (b3 as bv32)
  }

  /** frombig32(u32[i]): four bytes read as a big endian word. */
  function Word(bytes: seq<bv8>, i: nat): bv32
    requires |bytes| == 16 && i < 4
  {
    Pack(bytes[4 * i], bytes[4 * i + 1], bytes[4 * i + 2], bytes[4 * i + 3])
  }

  /** Bit j of a word, counting from the most significant one. */
  predicate WordBit(w: bv32, j: nat)
    requires j < 32
  {
    ByteBit(WordByte(w, j / 8), j % 8)
  }

  function WordByte(w: bv32, k: nat): bv8
    requires k < 4
  {
    if k == 0 then (w >> 24) as bv8
    else if k == 1 then ((w >> 16) & 0xff) as bv8
    else if k == 2 then ((w >> 8) & 0xff) as bv8
    else (w & 0xff) as bv8
  }

  /** bitclz: how many bits of w come before its first one, scanning from bit j. */
  function Clz(w: bv32, j: nat): (n: nat)
    requires j <= 32
    ensures j <= n <= 32
    ensures forall i :: j <= i < n ==> !WordBit(w, i)
    ensures n < 32 ==> WordBit(w, n)
    decreases 32 - j
  {
    if j == 32 || WordBit(w, j) then j else Clz(w, j + 1)
  }

  lemma XorThenMask(b: bv8, c: bv8, m: bv8)
    ensures (b ^ c) & m == (b & m) ^ (c & m)
  {
  }

  lemma XorIsZero(b: bv8, c: bv8)
    ensures b ^ c == 0 <==> b == c
  {
  }

  lemma OneBit(b: bv8, j: nat)
    requires j < 8
    ensures b & BitMask(j) == 0 || b & BitMask(j) == BitMask(j)
  {
  }

  lemma XorByte(b: bv8, c: bv8, x: bv8, j: nat)
    requires j < 8 && x == b ^ c
    ensures ByteBit(x, j) == (ByteBit(b, j) != ByteBit(c, j))
  {
    XorThenMask(b, c, BitMask(j));
    XorIsZero(b & BitMask(j), c & BitMask(j));
    OneBit(b, j);
    OneBit(c, j);
  }

  lemma XorWordByte(v: bv32, w: bv32, k: nat)
    requires k < 4
    ensures WordByte(v ^ w, k) == WordByte(v, k) ^ WordByte(w, k)
  {
    if k == 0 {} else if k == 1 {} else if k == 2 {} else {}
  }

  lemma WordBytes(a: seq<bv8>, i: nat, k: nat)
    requires |a| == 16 && i < 4 && k < 4
    ensures WordByte(Word(a, i), k) == a[4 * i + k]
  {
    var b0, b1, b2, b3 := a[4 * i], a[4 * i + 1], a[4 * i + 2], a[4 * i + 3];
    PackBytes(b0, b1, b2, b3);
  }

  lemma PackBytes(b0: bv8, b1: bv8, b2: bv8, b3: bv8)
    ensures WordByte(Pack(b0, b1, b2, b3), 0) == b0 && WordByte(Pack(b0, b1, b2, b3), 1) == b1
    ensures WordByte(Pack(b0, b1, b2, b3), 2) == b2 && WordByte(Pack(b0, b1, b2, b3), 3) == b3
  {
  }

  lemma ZeroWord(w: bv32)
    requires forall j :: 0 <= j < 32 ==> !WordBit(w, j)
    ensures w == 0
  {
    forall k | 0 <= k < 4 ensures WordByte(w, k) == 0 {
      forall j | 0 <= j < 8 ensures ByteBit(WordByte(w, k), j) == ByteBit(0, j) {
        assert !WordBit(w, 8 * k + j);
      }
      EqualFromBits(WordByte(w, k), 0);
    }
    assert WordByte(w, 0) == 0 && WordByte(w, 1) == 0 && WordByte(w, 2) == 0 && WordByte(w, 3) == 0;
  }

  lemma ZeroHasNoBit(w: bv32, j: nat)
    requires j < 32 && w == 0
    ensures !WordBit(w, j)
  {
    assert WordByte(w, j / 8) == 0;
  }

  lemma WordBitIsBit(a: seq<bv8>, i: nat, j: nat)
    requires |a| == 16 && i < 4 && j < 32
    ensures WordBit(Word(a, i), j) == BitAt(a, 32 * i + j)
  {
    WordBytes(a, i, j / 8);
    assert (32 * i + j) / 8 == 4 * i + j / 8 && (32 * i + j) % 8 == j % 8;
  }

  lemma XorBit(v: bv32, w: bv32, j: nat)
    requires j < 32
    ensures WordBit(v ^ w, j) == (WordBit(v, j) != WordBit(w, j))
  {
    XorWordByte(v, w, j / 8);
    XorByte(WordByte(v, j / 8), WordByte(w, j / 8), WordByte(v ^ w, j / 8), j % 8);
  }

  /** The word holds the bits of the address from 32 * i on. */
  ghost predicate WordOf(v: bv32, a: seq<bv8>, i: nat)
    requires |a| == 16 && i < 4
  {
    forall j: nat :: j < 32 ==> WordBit(v, j) == BitAt(a, 32 * i + j)
  }

  lemma WordHasItsBits(a: seq<bv8>, i: nat)
    requires |a| == 16 && i < 4
    ensures WordOf(Word(a, i), a, i)
  {
    forall j: nat | j < 32 ensures WordBit(Word(a, i), j) == BitAt(a, 32 * i + j) {
      WordBitIsBit(a, i, j);
    }
  }

  /** The set bits of the word are where the addresses differ. */
  ghost predicate Difference(r: bv32, a: seq<bv8>, b: seq<bv8>, i: nat)
    requires |a| == |b| == 16 && i < 4
  {
    forall j: nat :: j < 32 ==> WordBit(r, j) == (BitAt(a, 32 * i + j) != BitAt(b, 32 * i + j))
  }

  lemma XorIsDifference(v: bv32, w: bv32, a: seq<bv8>, b: seq<bv8>, i: nat)
    requires |a| == |b| == 16 && i < 4 && WordOf(v, a, i) && WordOf(w, b, i)
    ensures Difference(v ^ w, a, b, i)
  {
    var r := v ^ w;
    forall j: nat | j < 32
      ensures WordBit(r, j) == (BitAt(a, 32 * i + j) != BitAt(b, 32 * i + j))
    {
      XorBit(v, w, j);
    }
  }

  /** What the exclusive or of one word of each address says about them. */
  lemma WordTells(r: bv32, a: seq<bv8>, b: seq<bv8>, i: nat)
    requires |a| == |b| == 16 && i < 4 && Difference(r, a, b, i)
    ensures r == 0 ==> SameBits(a, b, 32 * i, 32 * i + 32)
    ensures r != 0 ==>
              var n := Clz(r, 0);
              n < 32 && SameBits(a, b, 32 * i, 32 * i + n) && BitAt(a, 32 * i + n) != BitAt(b, 32 * i + n)
  {
    var n := Clz(r, 0);
    forall k | 32 * i <= k < 32 * i + n ensures BitAt(a, k) == BitAt(b, k) {
      assert !WordBit(r, k - 32 * i);
    }
    if n == 32 {
      ZeroWord(r);
    } else if r == 0 {
      ZeroHasNoBit(r, n);
    }
  }

  /** The loop of patinsertn that finds the first bit at which two addresses
      differ, a word at a time, capped at `checkBit`. */
  method DifferBit(prefix: seq<bv8>, other: seq<bv8>, checkBit: nat) returns (differBit: nat)
    requires |prefix| == |other| == 16 && checkBit <= 128
    ensures differBit <= checkBit
    ensures SameBits(prefix, other, 0, differBit)
    ensures differBit < checkBit ==> BitAt(prefix, differBit) != BitAt(other, differBit)
  {
    differBit := 0;
    var i, z := 0, 0;
    while z < checkBit
      invariant z == 32 * i == differBit && z < checkBit + 32
      invariant SameBits(prefix, other, 0, if z <= 128 then z else 128)
    {
      var v, w := Word(prefix, i), Word(other, i);
      WordHasItsBits(prefix, i);
      WordHasItsBits(other, i);
      XorIsDifference(v, w, prefix, other, i);
      var r := v ^ w;
      WordTells(r, prefix, other, i);
      if r == 0 {
        differBit := z + 32;
      } else {
        differBit := z + Clz(r, 0);
        break;
      }
      i, z := i + 1, z + 32;
    }
    if differBit > checkBit {
      differBit := checkBit;
    }
  }
}
