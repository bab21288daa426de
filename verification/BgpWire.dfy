/** The wire forms an UPDATE is made of (section 4.3 of RFC 4271, section 3 of
    RFC 7911): prefixes with or without a path identifier, path attributes, and
    the three fields laid one after the other behind the 19-octet header. */
module BgpWire {
  import opened Netaddr
  import opened Wrappers

  type Byte = x: int | 0 <= x < 256

  type Bytes = seq<Byte>

  // ---- Big-endian numbers ------------------------------------------------

  function U16(n: nat): (s: Bytes)
    requires n < 0x1_0000
    ensures |s| == 2 && s[0] == n / 256 && s[1] == n % 256
  {
    [n / 256, n % 256]
  }

  function U32(n: nat): (s: Bytes)
    requires n < 0x1_0000_0000
    ensures |s| == 4
  {
    U16(n / 0x1_0000) + U16(n % 0x1_0000)
  }

  function BE16(b: Bytes, at: nat): (n: nat)
    requires at + 2 <= |b|
    ensures n < 0x1_0000
  {
    var hi: int := b[at];
    256 * hi + b[at + 1]
  }

  function BE32(b: Bytes, at: nat): (n: nat)
    requires at + 4 <= |b|
    ensures n < 0x1_0000_0000
  {
    0x1_0000 * BE16(b, at) + BE16(b, at + 2)
  }

  lemma BE16Reads(b: Bytes, at: nat, n: nat)
    requires n < 0x1_0000 && at + 2 <= |b| && b[at..at + 2] == U16(n)
    ensures BE16(b, at) == n
  {
    assert b[at] == b[at..at + 2][0] && b[at + 1] == b[at..at + 2][1];
  }

  lemma BE32Reads(b: Bytes, at: nat, n: nat)
    requires n < 0x1_0000_0000 && at + 4 <= |b| && b[at..at + 4] == U32(n)
    ensures BE32(b, at) == n
  {
    assert b[at..at + 2] == b[at..at + 4][..2] == U16(n / 0x1_0000);
    assert b[at + 2..at + 4] == b[at..at + 4][2..] == U16(n % 0x1_0000);
    BE16Reads(b, at, n / 0x1_0000);
    BE16Reads(b, at + 2, n % 0x1_0000);
  }

  // ---- memcpy() ----------------------------------------------------------

  ghost function Written(b: Bytes, at: nat, src: Bytes): (r: Bytes)
    requires at + |src| <= |b|
    ensures |r| == |b|
  {
    b[..at] + src + b[at + |src|..]
  }

  lemma WrittenAt(b: Bytes, at: nat, src: Bytes)
    requires at + |src| <= |b|
    ensures Written(b, at, src)[at..at + |src|] == src
    ensures Written(b, at, src)[..at] == b[..at]
  {
  }

  lemma WrittenElsewhere(b: Bytes, at: nat, src: Bytes, lo: nat, hi: nat)
    requires at + |src| <= |b| && lo <= hi <= |b|
    requires hi <= at || at + |src| <= lo
    ensures Written(b, at, src)[lo..hi] == b[lo..hi]
  {
  }

  lemma WrittenTwice(b: Bytes, at: nat, x: Bytes, y: Bytes)
    requires at + |x| + |y| <= |b|
    ensures Written(Written(b, at, x), at + |x|, y) == Written(b, at, x + y)
  {
  }

  method Memcpy(dst: array<Byte>, at: nat, src: Bytes)
    requires at + |src| <= dst.Length
    modifies dst
    ensures dst[..] == Written(old(dst[..]), at, src)
  {
    ghost var was := dst[..];
    var i := 0;
    while i < |src|
      invariant i <= |src|
      invariant dst[..] == Written(was, at, src[..i])
    {
      assert src[..i + 1] == src[..i] + [src[i]];
      dst[at + i] := src[i];
      i := i + 1;
    }
    assert src[..i] == src;
  }

  // ---- Prefixes ----------------------------------------------------------

  datatype NetaddrAp = NetaddrAp(pfx: Netaddr<Byte>, pathid: nat)

  /** What a caller must hand to the put functions. */
  ghost predicate ValidRoute(r: NetaddrAp) {
    |r.pfx.bytes| == 16 && r.pfx.bitlen <= 128 && r.pathid < 0x1_0000_0000
  }

  ghost predicate ValidRoutes(rs: seq<NetaddrAp>) {
    forall i :: 0 <= i < |rs| ==> ValidRoute(rs[i])
  }

  /** naddrsize: the octets that hold so many bits. */
  function NaddrSize(bitlen: nat): (n: nat)
    ensures 8 * n < bitlen + 8 && bitlen <= 8 * n
  {
    bitlen / 8 + if bitlen % 8 != 0 then 1 else 0
  }

  ghost function EncodeRoute(ap: bool, r: NetaddrAp): (s: Bytes)
    requires ValidRoute(r)
    ensures |s| == (if ap then 4 else 0) + 1 + NaddrSize(r.pfx.bitlen)
  {
    (if ap then U32(r.pathid) else []) + [r.pfx.bitlen] + r.pfx.bytes[..NaddrSize(r.pfx.bitlen)]
  }

  ghost function EncodeRoutes(ap: bool, rs: seq<NetaddrAp>): Bytes
    requires ValidRoutes(rs)
  {
    if rs == [] then [] else EncodeRoute(ap, rs[0]) + EncodeRoutes(ap, rs[1..])
  }

  lemma {:induction false} EncodeRoutesSnoc(ap: bool, rs: seq<NetaddrAp>, r: NetaddrAp)
    requires ValidRoutes(rs) && ValidRoute(r)
    ensures ValidRoutes(rs + [r])
    ensures EncodeRoutes(ap, rs + [r]) == EncodeRoutes(ap, rs) + EncodeRoute(ap, r)
  {
    if rs == [] {
      assert rs + [r] == [r];
      assert EncodeRoutes(ap, [r]) == EncodeRoute(ap, r) + EncodeRoutes(ap, []);
    } else {
      assert (rs + [r])[1..] == rs[1..] + [r];
      EncodeRoutesSnoc(ap, rs[1..], r);
      var x, y, z := EncodeRoute(ap, rs[0]), EncodeRoutes(ap, rs[1..]), EncodeRoute(ap, r);
      assert x + (y + z) == (x + y) + z;
    }
  }

  datatype Step<T> = End | Bad | Got(value: T, next: nat)

  /** Enough of the field is left for a prefix length, and that length fits the
      sixteen octets of an address. */
  predicate RouteInRange(ap: bool, b: Bytes, p: nat, hi: nat)
    requires p <= hi <= |b|
  {
    var at := p + if ap then 4 else 0;
    at < hi ==> b[at] <= 128
  }

  function Zeros(n: nat): (s: Bytes)
    ensures |s| == n
    ensures forall i :: 0 <= i < n ==> s[i] == 0
  {
    if n == 0 then [] else [0] + Zeros(n - 1)
  }

  /** What one read at p of a field that ends at hi makes of the entry. The
      family, and the path identifier when there is none on the wire, stay as
      they were in the reader's buffer. */
  function RouteAt(ap: bool, cur: NetaddrAp, b: Bytes, p: nat, hi: nat): (r: Step<NetaddrAp>)
    requires p <= hi <= |b| && RouteInRange(ap, b, p, hi)
    ensures r.Got? ==> p < r.next <= hi
  {
    var at := p + if ap then 4 else 0;
    if p == hi then
      End
    else if at >= hi then
      Bad
    else
      var bitlen := b[at];
      var n := NaddrSize(bitlen);
      if at + 1 + n > hi then
        Bad
      else
        var bytes := b[at + 1..at + 1 + n] + Zeros(16 - n);
        var pathid := if ap then BE32(b, p) else cur.pathid;
        Got(NetaddrAp(cur.pfx.(bitlen := bitlen, bytes := bytes), pathid), at + 1 + n)
  }

  /** What a written prefix reads back as: octets past its length are zero. */
  ghost function AsRead(ap: bool, cur: NetaddrAp, r: NetaddrAp): NetaddrAp
    requires ValidRoute(r)
  {
    var n := NaddrSize(r.pfx.bitlen);
    NetaddrAp(
      cur.pfx.(bitlen := r.pfx.bitlen, bytes := r.pfx.bytes[..n] + Zeros(16 - n)),
      if ap then r.pathid else cur.pathid)
  }

  lemma RouteReadsBack(ap: bool, cur: NetaddrAp, b: Bytes, p: nat, hi: nat, r: NetaddrAp)
    requires ValidRoute(r)
    requires p + |EncodeRoute(ap, r)| <= hi <= |b|
    requires b[p..p + |EncodeRoute(ap, r)|] == EncodeRoute(ap, r)
    ensures RouteInRange(ap, b, p, hi)
    ensures RouteAt(ap, cur, b, p, hi) == Got(AsRead(ap, cur, r), p + |EncodeRoute(ap, r)|)
  {
    var e := EncodeRoute(ap, r);
    var k := if ap then 4 else 0;
    var n := NaddrSize(r.pfx.bitlen);
    assert e[k] == r.pfx.bitlen && e[k + 1..] == r.pfx.bytes[..n];
    assert b[p + k] == b[p..p + |e|][k];
    assert b[p + k + 1..p + k + 1 + n] == b[p..p + |e|][k + 1..];
    if ap {
      assert b[p..p + 4] == b[p..p + |e|][..4] == U32(r.pathid);
      BE32Reads(b, p, r.pathid);
    }
  }

  /** Reads until the field ends; None when an entry is cut short. */
  ghost function ReadRoutes(ap: bool, cur: NetaddrAp, b: Bytes, p: nat, hi: nat): Option<seq<NetaddrAp>>
    requires p <= hi <= |b|
    decreases hi - p
  {
    if !RouteInRange(ap, b, p, hi) then None
    else match RouteAt(ap, cur, b, p, hi)
      case End => Some([])
      case Bad => None
      case Got(r, q) =>
        var rest := ReadRoutes(ap, r, b, q, hi);
        if rest.None? then None else Some([r] + rest.value)
  }

  ghost function AllAsRead(ap: bool, cur: NetaddrAp, rs: seq<NetaddrAp>): (s: seq<NetaddrAp>)
    requires ValidRoutes(rs)
    ensures |s| == |rs|
    ensures forall i :: 0 <= i < |rs| ==> s[i] == AsRead(ap, cur, rs[i])
  {
    seq(|rs|, i requires 0 <= i < |rs| => AsRead(ap, cur, rs[i]))
  }

  lemma AllAsReadCons(ap: bool, cur: NetaddrAp, rs: seq<NetaddrAp>)
    requires ValidRoutes(rs) && rs != []
    ensures AllAsRead(ap, cur, rs) ==
            [AsRead(ap, cur, rs[0])] + AllAsRead(ap, AsRead(ap, cur, rs[0]), rs[1..])
  {
    var r := AsRead(ap, cur, rs[0]);
    forall i | 0 <= i < |rs| - 1 ensures AllAsRead(ap, r, rs[1..])[i] == AsRead(ap, cur, rs[i + 1]) {
      assert rs[1..][i] == rs[i + 1];
    }
  }

  lemma FirstRoute(ap: bool, b: Bytes, p: nat, hi: nat, rs: seq<NetaddrAp>)
    requires ValidRoutes(rs) && rs != []
    requires p <= hi <= |b| && b[p..hi] == EncodeRoutes(ap, rs)
    ensures var q := p + |EncodeRoute(ap, rs[0])|;
            q <= hi && b[p..q] == EncodeRoute(ap, rs[0]) && b[q..hi] == EncodeRoutes(ap, rs[1..])
  {
    var e := EncodeRoute(ap, rs[0]);
    var q := p + |e|;
    assert b[p..q] == b[p..hi][..|e|];
    assert b[q..hi] == b[p..hi][|e|..];
  }

  /** A list of prefixes that fills a field is read back entry by entry. */
  lemma {:induction false} RoutesReadBack(
      ap: bool, cur: NetaddrAp, b: Bytes, p: nat, hi: nat, rs: seq<NetaddrAp>)
    requires ValidRoutes(rs)
    requires p <= hi <= |b| && b[p..hi] == EncodeRoutes(ap, rs)
    ensures ReadRoutes(ap, cur, b, p, hi) == Some(AllAsRead(ap, cur, rs))
    decreases |rs|
  {
    if rs == [] {
    } else {
      FirstRoute(ap, b, p, hi, rs);
      RouteReadsBack(ap, cur, b, p, hi, rs[0]);
      var q := p + |EncodeRoute(ap, rs[0])|;
      RoutesReadBack(ap, AsRead(ap, cur, rs[0]), b, q, hi, rs[1..]);
      AllAsReadCons(ap, cur, rs);
    }
  }

  // ---- Path attributes ---------------------------------------------------

  datatype Attr = Attr(flags: Byte, code: Byte, data: Bytes)

  /** ATTR_EXTENDED_LENGTH, bit 4 of the flags. */
  predicate Extended(flags: Byte) {
    flags / 16 % 2 == 1
  }

  /** The length field has room for the data. */
  ghost predicate LengthFits(a: Attr) {
    |a.data| < if Extended(a.flags) then 0x1_0000 else 256
  }

  ghost predicate AllLengthsFit(s: seq<Attr>) {
    forall i :: 0 <= i < |s| ==> LengthFits(s[i])
  }

  /** ... and the code is one that attr_code_index has a slot for. */
  ghost predicate ValidAttr(a: Attr) {
    a.code < 255 && LengthFits(a)
  }

  ghost predicate ValidAttrs(s: seq<Attr>) {
    forall i :: 0 <= i < |s| ==> ValidAttr(s[i])
  }

  function HdrSize(flags: Byte): nat {
    if Extended(flags) then 4 else 3
  }

  function EncodeAttr(a: Attr): (s: Bytes)
    requires LengthFits(a)
    ensures |s| == HdrSize(a.flags) + |a.data|
  {
    [a.flags, a.code] + (if Extended(a.flags) then U16(|a.data|) else [|a.data|]) + a.data
  }

  ghost function EncodeAttrs(s: seq<Attr>): Bytes
    requires AllLengthsFit(s)
  {
    if s == [] then [] else EncodeAttr(s[0]) + EncodeAttrs(s[1..])
  }

  lemma {:induction false} EncodeAttrsSnoc(s: seq<Attr>, a: Attr)
    requires AllLengthsFit(s) && LengthFits(a)
    ensures AllLengthsFit(s + [a])
    ensures EncodeAttrs(s + [a]) == EncodeAttrs(s) + EncodeAttr(a)
  {
    if s == [] {
      assert s + [a] == [a];
      assert EncodeAttrs([a]) == EncodeAttr(a) + EncodeAttrs([]);
    } else {
      assert (s + [a])[1..] == s[1..] + [a];
      EncodeAttrsSnoc(s[1..], a);
      var x, y, z := EncodeAttr(s[0]), EncodeAttrs(s[1..]), EncodeAttr(a);
      assert x + (y + z) == (x + y) + z;
    }
  }

  /** The header of an attribute at p lies before hi. */
  predicate HasHeader(b: Bytes, p: nat, hi: nat)
    requires p <= hi <= |b|
  {
    p + 3 <= hi && p + HdrSize(b[p]) <= hi
  }

  function AttrLen(b: Bytes, p: nat): nat
    requires p + 3 <= |b| && p + HdrSize(b[p]) <= |b|
  {
    if Extended(b[p]) then BE16(b, p + 2) else b[p + 2]
  }

  function AttrEnd(b: Bytes, p: nat): (q: nat)
    requires p + 3 <= |b| && p + HdrSize(b[p]) <= |b|
    ensures q > p
  {
    p + HdrSize(b[p]) + AttrLen(b, p)
  }

  /** A whole attribute lies between p and hi. */
  predicate AttrFits(b: Bytes, p: nat, hi: nat)
    requires p <= hi <= |b|
  {
    HasHeader(b, p, hi) && AttrEnd(b, p) <= hi
  }

  function AttrAt(b: Bytes, p: nat): Attr
    requires p <= |b| && AttrFits(b, p, |b|)
  {
    Attr(b[p], b[p + 1], b[p + HdrSize(b[p])..AttrEnd(b, p)])
  }

  lemma AttrOctets(a: Attr)
    requires LengthFits(a)
    ensures var e, h := EncodeAttr(a), HdrSize(a.flags);
            && e[0] == a.flags && e[1] == a.code && e[h..] == a.data
            && if Extended(a.flags) then e[2..4] == U16(|a.data|) else e[2] == |a.data|
  {
    var l := if Extended(a.flags) then U16(|a.data|) else [|a.data|];
    assert EncodeAttr(a) == [a.flags, a.code] + l + a.data;
    assert ([a.flags, a.code] + l)[2..] == l;
  }

  lemma SliceAt(b: Bytes, lo: nat, hi: nat, i: nat)
    requires lo <= hi <= |b| && i < hi - lo
    ensures b[lo..hi][i] == b[lo + i]
  {
  }

  lemma AttrReadsBack(b: Bytes, p: nat, hi: nat, a: Attr)
    requires LengthFits(a) && p + |EncodeAttr(a)| <= hi <= |b|
    requires b[p..p + |EncodeAttr(a)|] == EncodeAttr(a)
    ensures AttrFits(b, p, hi) && AttrEnd(b, p) == p + |EncodeAttr(a)| && AttrAt(b, p) == a
  {
    AttrOctets(a);
    var h, n := HdrSize(a.flags), |EncodeAttr(a)|;
    hide EncodeAttr, U16, BE16;
    SliceAt(b, p, p + n, 0);
    SliceAt(b, p, p + n, 1);
    SliceAt(b, p, p + n, 2);
    SliceOfSlice(b, p, p + n, h, n);
    if Extended(a.flags) {
      SliceOfSlice(b, p, p + n, 2, 4);
      BE16Reads(b, p + 2, |a.data|);
    }
  }

  /** Reads until the field ends; None when an attribute is cut short. */
  ghost function ReadAttrs(b: Bytes, p: nat, hi: nat): Option<seq<Attr>>
    requires p <= hi <= |b|
    decreases hi - p
  {
    if p == hi then Some([])
    else if !AttrFits(b, p, hi) then None
    else
      var rest := ReadAttrs(b, AttrEnd(b, p), hi);
      if rest.None? then None else Some([AttrAt(b, p)] + rest.value)
  }

  lemma FirstAttr(b: Bytes, p: nat, hi: nat, s: seq<Attr>)
    requires AllLengthsFit(s) && s != []
    requires p <= hi <= |b| && b[p..hi] == EncodeAttrs(s)
    ensures var q := p + |EncodeAttr(s[0])|;
            q <= hi && b[p..q] == EncodeAttr(s[0]) && b[q..hi] == EncodeAttrs(s[1..])
  {
    var e := EncodeAttr(s[0]);
    var q := p + |e|;
    assert b[p..q] == b[p..hi][..|e|];
    assert b[q..hi] == b[p..hi][|e|..];
  }

  lemma {:induction false} AttrsReadBack(b: Bytes, p: nat, hi: nat, s: seq<Attr>)
    requires AllLengthsFit(s)
    requires p <= hi <= |b| && b[p..hi] == EncodeAttrs(s)
    ensures ReadAttrs(b, p, hi) == Some(s)
    decreases |s|
  {
    if s != [] {
      FirstAttr(b, p, hi, s);
      var q := p + |EncodeAttr(s[0])|;
      AttrReadsBack(b, p, hi, s[0]);
      AttrsReadBack(b, q, hi, s[1..]);
      assert s == [s[0]] + s[1..];
    }
  }

  lemma SliceOfSlice(b: Bytes, lo: nat, hi: nat, i: nat, j: nat)
    requires lo <= hi <= |b| && i <= j <= hi - lo
    ensures b[lo..hi][i..j] == b[lo + i..lo + j]
  {
    var s, l, r := b[lo..hi], b[lo..hi][i..j], b[lo + i..lo + j];
    forall k | 0 <= k < j - i ensures l[k] == r[k] {
      assert l[k] == s[i + k] == b[lo + i + k] == r[k];
    }
  }

  lemma TwoParts(b: Bytes, lo: nat, hi: nat, x: Bytes, y: Bytes)
    requires lo <= hi <= |b| && b[lo..hi] == x + y
    ensures lo + |x| + |y| == hi && b[lo..lo + |x|] == x && b[lo + |x|..hi] == y
  {
    assert |b[lo..hi]| == |x| + |y|;
    SliceOfSlice(b, lo, hi, 0, |x|);
    SliceOfSlice(b, lo, hi, |x|, |x| + |y|);
    assert (x + y)[0..|x|] == x && (x + y)[|x|..|x| + |y|] == y;
  }

  // ---- The message -------------------------------------------------------

  const BGPBUFSIZ: nat := 4096
  const LENGTH_OFFSET: nat := 16
  const TYPE_OFFSET: nat := 18
  const BASE_PACKET_LENGTH: nat := 19
  const MIN_UPDATE_LENGTH: nat := 23
  const BGP_UPDATE: Byte := 2

  /** The two length-prefixed fields and the NLRI that ends the message. */
  ghost function Image(w: Bytes, a: Bytes, n: Bytes): (s: Bytes)
    requires |w| < 0x1_0000 && |a| < 0x1_0000
    ensures |s| == 4 + |w| + |a| + |n|
  {
    U16(|w|) + w + U16(|a|) + a + n
  }

  /** The three fields lie within the message. */
  predicate Framed(b: Bytes, pktlen: nat) {
    && MIN_UPDATE_LENGTH <= pktlen <= |b|
    && 23 + BE16(b, 19) <= pktlen
    && 23 + BE16(b, 19) + BE16(b, 21 + BE16(b, 19)) <= pktlen
  }

  /** Where the path attributes start and end. */
  function AttrsLo(b: Bytes, pktlen: nat): (p: nat)
    requires Framed(b, pktlen)
    ensures p <= pktlen
  {
    23 + BE16(b, 19)
  }

  function AttrsHi(b: Bytes, pktlen: nat): (p: nat)
    requires Framed(b, pktlen)
    ensures AttrsLo(b, pktlen) <= p <= pktlen
  {
    AttrsLo(b, pktlen) + BE16(b, AttrsLo(b, pktlen) - 2)
  }

  lemma ImageFields(b: Bytes, pktlen: nat, w: Bytes, a: Bytes, n: Bytes)
    requires |w| < 0x1_0000 && |a| < 0x1_0000
    requires 23 + |w| + |a| + |n| == pktlen <= |b|
    requires b[19..pktlen] == Image(w, a, n)
    ensures Framed(b, pktlen)
    ensures AttrsLo(b, pktlen) == 23 + |w| && AttrsHi(b, pktlen) == 23 + |w| + |a|
    ensures b[19..21 + |w|] == U16(|w|) + w && b[21..21 + |w|] == w
    ensures b[21 + |w|..pktlen] == U16(|a|) + a + n
    ensures b[23 + |w|..23 + |w| + |a|] == a
    ensures b[23 + |w| + |a|..pktlen] == n
  {
    var s := b[19..pktlen];
    var t := U16(|w|) + w;
    assert s == t + (U16(|a|) + a + n);
    assert b[19..21] == s[..2] == U16(|w|);
    assert b[19..21 + |w|] == s[..2 + |w|] == t;
    assert b[21..21 + |w|] == t[2..] == w;
    assert b[21 + |w|..pktlen] == s[2 + |w|..] == U16(|a|) + a + n;
    assert b[21 + |w|..23 + |w|] == s[2 + |w|..][..2] == U16(|a|);
    var tail := b[21 + |w|..pktlen];
    assert tail == U16(|a|) + a + n;
    assert tail[2..2 + |a|] == a && tail[2 + |a|..] == n;
    SliceOfSlice(b, 21 + |w|, pktlen, 2, 2 + |a|);
    SliceOfSlice(b, 21 + |w|, pktlen, 2 + |a|, |tail|);
    BE16Reads(b, 19, |w|);
    BE16Reads(b, 21 + |w|, |a|);
  }
}
