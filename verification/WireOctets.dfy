/** UPDATE messages octet by octet, in the numbers of section 4.3 of RFC 4271 and
    section 3 of RFC 7911: what the encodings and the cursor of src/bgp.c come to
    when every offset, code and bit is written out. */
module WireOctets {
  import opened BgpWire
  import opened BgpWriter
  import opened BgpAttribs
  import opened BgpMsg
  import opened AsPath
  import opened Wrappers

  // ---- Path attributes ---------------------------------------------------

  /** ATTR_EXTENDED_LENGTH is the bit 0x10, whatever the other seven are. */
  lemma ExtendedIsBit(flags: Byte)
    ensures Extended(flags) <==> flags as bv8 & 0x10 != 0
  {
  }

  function Octet(b: Bytes, i: nat): int {
    if i < |b| then b[i] else 0
  }

  predicate LongLength(b: Bytes, p: nat) {
    p < |b| && b[p] as bv8 & 0x10 != 0
  }

  /** Where an attribute at p ends, by its octets. */
  function EndInOctets(b: Bytes, p: nat): int {
    if LongLength(b, p) then p + 4 + 256 * Octet(b, p + 2) + Octet(b, p + 3) else p + 3 + Octet(b, p + 2)
  }

  lemma AttrInOctets(b: Bytes, p: nat, hi: nat)
    requires p <= hi <= |b|
    ensures AttrFits(b, p, hi) <==>
            p + 3 <= hi && (LongLength(b, p) ==> p + 4 <= hi) && EndInOctets(b, p) <= hi
    ensures AttrFits(b, p, hi) ==>
              && AttrEnd(b, p) == EndInOctets(b, p)
              && AttrAt(b, p) == Attr(b[p], b[p + 1], b[p + (if LongLength(b, p) then 4 else 3)..AttrEnd(b, p)])
  {
    if p < |b| {
      ExtendedIsBit(b[p]);
    }
  }

  /** nextbgpattrib_r on a message being read: the next attribute ends where its
      own octets say, or it is cut short. */
  method NextInOctets(m: BgpMsg) returns (r: Option<nat>)
    requires m.Valid() && m.flags.rd && m.flags.pattr && m.err == BGP_ENOERR
    modifies m`uptr, m`offtab, m`err, m`writer
    ensures m.Valid()
    ensures var p, hi, b := old(m.uptr), m.uend, m.buf[..];
            if p == hi then r == None && m.uptr == p && m.err == BGP_ENOERR
            else if p + 3 <= hi && (LongLength(b, p) ==> p + 4 <= hi) && EndInOctets(b, p) <= hi then
              r == Some(p) && m.uptr == EndInOctets(b, p) && m.err == BGP_ENOERR
            else
              r == None && m.err == BGP_EBADATTR
  {
    AttrInOctets(m.buf[..], m.uptr, m.uend);
    r := m.NextAttrib();
  }

  /** The octets of an attribute. */
  function AttrOctetsOf(flags: Byte, code: Byte, data: Bytes): Bytes
    requires |data| < if flags as bv8 & 0x10 != 0 then 0x1_0000 else 256
  {
    (if flags as bv8 & 0x10 != 0 then [flags, code, |data| / 256, |data| % 256] else [flags, code, |data|]) + data
  }

  lemma EncodedInOctets(a: Attr)
    requires LengthFits(a)
    ensures |a.data| < if a.flags as bv8 & 0x10 != 0 then 0x1_0000 else 256
    ensures EncodeAttr(a) == AttrOctetsOf(a.flags, a.code, a.data)
  {
    ExtendedIsBit(a.flags);
    assert [a.flags, a.code] + U16(|a.data|) == [a.flags, a.code, |a.data| / 256, |a.data| % 256];
  }

  lemma LastOfList(b: Bytes, lo: nat, hi: nat, s: seq<Attr>, a: Attr)
    requires AllLengthsFit(s) && LengthFits(a) && lo <= hi <= |b| && b[lo..hi] == EncodeAttrs(s + [a])
    ensures lo + |EncodeAttr(a)| <= hi && b[hi - |EncodeAttr(a)|..hi] == EncodeAttr(a)
  {
    EncodeAttrsSnoc(s, a);
    TwoParts(b, lo, hi, EncodeAttrs(s), EncodeAttr(a));
  }

  /** putbgpattrib_r: these octets are put before the cursor. */
  method PutInOctets(m: BgpMsg, a: Attr)
    requires m.Valid() && m.flags.wr && m.flags.pattr && m.err == BGP_ENOERR && ValidAttr(a)
    requires m.pktlen + |EncodeAttr(a)| <= BGPBUFSIZ
    modifies m`uptr, m`pktlen, m`err, m`writer, m.buf
    ensures m.Valid() && m.err == BGP_ENOERR
    ensures |a.data| < if a.flags as bv8 & 0x10 != 0 then 0x1_0000 else 256
    ensures var e := AttrOctetsOf(a.flags, a.code, a.data);
            |e| <= m.uptr <= m.buf.Length && m.buf[m.uptr - |e|..m.uptr] == e
  {
    ghost var s := m.writer.update.attribs;
    var e := m.PutAttrib(a);
    EncodedInOctets(a);
    assert m.writer.update.attribs == s + [a];
    LastOfList(m.buf[..], m.ustart, m.uptr, s, a);
  }

  /** The codes that attr_code_index has a slot for. */
  lemma NotableCodes(code: Byte)
    ensures Notable(code) <==> code in {1, 2, 3, 6, 7, 8, 14, 15, 16, 17, 18, 32}
  {
  }

  // ---- Prefixes ----------------------------------------------------------

  /** A path identifier most significant octet first, the length in bits, and as
      many octets as these bits take. */
  lemma RouteInOctets(ap: bool, r: NetaddrAp)
    requires ValidRoute(r)
    ensures EncodeRoute(ap, r) ==
            (if ap then
               [r.pathid / 0x100_0000, r.pathid / 0x1_0000 % 256, r.pathid / 256 % 256, r.pathid % 256]
             else [])
            + [r.pfx.bitlen] + r.pfx.bytes[..(r.pfx.bitlen + 7) / 8]
  {
    NumberInOctets(r.pathid);
  }

  /** What is read at p: nothing at the end, and otherwise a prefix whose octets
      all lie before the end, or one that is cut short. */
  ghost predicate ReadInOctets(ap: bool, cur: NetaddrAp, b: Bytes, p: nat, hi: nat, r: Step<NetaddrAp>) {
    var at := p + if ap then 4 else 0;
    if p == hi then r == End
    else if at < hi && at + 1 + (Octet(b, at) + 7) / 8 <= hi then
      var n := (Octet(b, at) + 7) / 8;
      && r.Got? && r.next == at + 1 + n
      && r.value.pfx.bitlen == Octet(b, at) && r.value.pfx.family == cur.pfx.family
      && |r.value.pfx.bytes| == 16
      && (forall i :: 0 <= i < 16 ==> r.value.pfx.bytes[i] == if i < n then Octet(b, at + 1 + i) else 0)
      && r.value.pathid ==
         if ap then 0x100_0000 * Octet(b, p) + 0x1_0000 * Octet(b, p + 1) + 256 * Octet(b, p + 2) + Octet(b, p + 3)
         else cur.pathid
    else r == Bad
  }

  lemma RouteReadInOctets(ap: bool, cur: NetaddrAp, b: Bytes, p: nat, hi: nat)
    requires p <= hi <= |b| && RouteInRange(ap, b, p, hi)
    ensures ReadInOctets(ap, cur, b, p, hi, RouteAt(ap, cur, b, p, hi))
  {
    if ap && p + 4 < hi {
      NumberRead(b, p);
    }
  }

  /** nextwithdrawn_r and nextnlri_r on a message being read. */
  method NextRouteInOctets(m: BgpMsg, withdrawn: bool) returns (r: Option<NetaddrAp>)
    requires m.Valid() && m.flags.rd && (if withdrawn then m.flags.withdrn else m.flags.nlri) && m.err == BGP_ENOERR
    requires RouteInRange(m.flags.addpath, m.buf[..], m.uptr, m.uend)
    modifies m`uptr, m`pfxbuf, m`err, m`writer
    ensures m.Valid()
    ensures var step := if r.Some? then Got(r.value, m.uptr) else if m.err == BGP_ENOERR then End else Bad;
            ReadInOctets(m.flags.addpath, old(m.pfxbuf), m.buf[..], old(m.uptr), m.uend, step)
    ensures m.err in {BGP_ENOERR, if withdrawn then BGP_EBADWDRWN else BGP_EBADNLRI}
    ensures r.Some? ==> m.err == BGP_ENOERR && m.pfxbuf == r.value
    ensures r.None? && m.err == BGP_ENOERR ==> m.uptr == old(m.uptr)
  {
    RouteReadInOctets(m.flags.addpath, m.pfxbuf, m.buf[..], m.uptr, m.uend);
    hide ReadInOctets, RouteAt;
    if withdrawn {
      r := m.NextWithdrawn();
    } else {
      r := m.NextNlri();
    }
  }

  lemma NumberInOctets(n: nat)
    requires n < 0x1_0000_0000
    ensures n < 0x1_0000 ==> U16(n) == [n / 256, n % 256]
    ensures U32(n) == [n / 0x100_0000, n / 0x1_0000 % 256, n / 256 % 256, n % 256]
  {
    HalfInOctets(n / 0x1_0000, n % 0x1_0000);
    assert n == 0x1_0000 * (n / 0x1_0000) + n % 0x1_0000;
  }

  lemma HalfInOctets(h: nat, l: nat)
    requires h < 0x1_0000 && l < 0x1_0000
    ensures var n := 0x1_0000 * h + l;
            && n / 0x100_0000 == h / 256 && n / 0x1_0000 == h && n / 256 == 256 * h + l / 256
            && n / 256 % 256 == l / 256 && n % 256 == l % 256
  {
    var a, b, c, d := h / 256, h % 256, l / 256, l % 256;
    var n := 0x1_0000 * h + l;
    assert h == 256 * a + b && l == 256 * c + d;
    assert n == 0x100_0000 * a + (0x1_0000 * b + 256 * c + d);
    assert n == 256 * (256 * h + c) + d;
  }

  lemma NumberRead(b: Bytes, p: nat)
    requires p + 4 <= |b|
    ensures BE16(b, p) == 256 * (b[p] as int) + b[p + 1]
    ensures BE32(b, p) ==
            0x100_0000 * (b[p] as int) + 0x1_0000 * (b[p + 1] as int) + 256 * (b[p + 2] as int) + b[p + 3]
  {
  }

  // ---- AS paths ----------------------------------------------------------

  /** An AS number in two octets or in four, most significant first. */
  predicate NumberAt(asSize: nat, s: Bytes, p: nat, n: nat) {
    && n < 0x1_0000_0000 && (asSize == 2 ==> n < 0x1_0000)
    && p + asSize <= |s|
    && (asSize == 2 ==> s[p..p + 2] == [n / 256, n % 256])
    && (asSize == 4 ==> s[p..p + 4] == [n / 0x100_0000, n / 0x1_0000 % 256, n / 256 % 256, n % 256])
  }

  /** A segment: its kind, how many numbers, and the numbers. */
  lemma SegmentInOctets(asSize: nat, seg: Seg, rest: seq<Seg>)
    requires ValidSize(asSize) && ValidPath(asSize, [seg] + rest)
    ensures var s := EncodePath(asSize, [seg] + rest);
            && |s| >= 2 && s[0] == seg.kind && s[1] == |seg.ases|
            && forall i :: 0 <= i < |seg.ases| ==>
                 NumberAt(asSize, s, 2 + if asSize == 2 then 2 * i else 4 * i, seg.ases[i])
  {
    var segs := [seg] + rest;
    assert segs[1..] == rest && segs[0] == seg && ValidSeg(asSize, segs[0]);
    var h: Bytes, e, t := [seg.kind, |seg.ases|], EncodeAses(asSize, seg.ases), EncodePath(asSize, rest);
    assert EncodePath(asSize, segs) == h + e + t;
    forall i | 0 <= i < |seg.ases|
      ensures NumberAt(asSize, h + e + t, 2 + if asSize == 2 then 2 * i else 4 * i, seg.ases[i])
    {
      AsInOctets(asSize, seg.ases, i);
      Shifted(asSize, h, e, t, if asSize == 2 then 2 * i else 4 * i, seg.ases[i]);
    }
  }

  lemma Shifted(asSize: nat, x: Bytes, y: Bytes, z: Bytes, p: nat, n: nat)
    requires NumberAt(asSize, y, p, n)
    ensures NumberAt(asSize, x + y + z, |x| + p, n)
  {
    if asSize == 2 {
      Middle(x, y, z, p, p + 2);
    } else if asSize == 4 {
      Middle(x, y, z, p, p + 4);
    }
  }

  lemma Middle(x: Bytes, y: Bytes, z: Bytes, i: nat, j: nat)
    requires i <= j <= |y|
    ensures (x + y + z)[|x| + i..|x| + j] == y[i..j]
  {
    assert (x + y + z)[|x|..|x| + |y|] == y;
    SliceOfSlice(x + y + z, |x|, |x| + |y|, i, j);
  }

  lemma {:induction false} AsInOctets(asSize: nat, ases: seq<nat>, i: nat)
    requires ValidSize(asSize) && ValidSeg(asSize, Seg(0, ases)) && i < |ases|
    ensures NumberAt(asSize, EncodeAses(asSize, ases), if asSize == 2 then 2 * i else 4 * i, ases[i])
    decreases i
  {
    hide NumberAt, U32, U16;
    var x, y := EncodeAs(asSize, ases[0]), EncodeAses(asSize, ases[1..]);
    assert |x| == asSize;
    assert EncodeAses(asSize, ases) == x + y;
    hide EncodeAs, EncodeAses;
    if i == 0 {
      FirstInOctets(asSize, ases[0]);
      Shifted(asSize, [], x, y, 0, ases[0]);
      assert [] + x + y == x + y;
    } else {
      AsInOctets(asSize, ases[1..], i - 1);
      Shifted(asSize, x, y, [], if asSize == 2 then 2 * (i - 1) else 4 * (i - 1), ases[i]);
      assert x + y + [] == x + y;
    }
  }

  lemma FirstInOctets(asSize: nat, n: nat)
    requires ValidSize(asSize) && n < if asSize == 2 then 0x1_0000 else 0x1_0000_0000
    ensures NumberAt(asSize, EncodeAs(asSize, n), 0, n)
  {
    hide U32, U16;
    NumberInOctets(n);
    var e := EncodeAs(asSize, n);
    assert e[0..asSize] == e;
  }

  // ---- Messages ----------------------------------------------------------

  /** A finished UPDATE: sixteen octets of ones, its length, type 2, and the three
      fields, the first two with their lengths before them. */
  lemma MessageInOctets(ap: bool, u: Update, b: Bytes, pktlen: nat)
    requires Carries(ap, u, b, pktlen)
    ensures var w, a, n := EncodeRoutes(ap, u.withdrawn), EncodeAttrs(u.attribs), EncodeRoutes(ap, u.nlri);
            && |b| == 4096 && pktlen == 23 + |w| + |a| + |n| <= 4096
            && (forall i :: 0 <= i < 16 ==> b[i] == 255)
            && 256 * (b[16] as int) + b[17] == pktlen && b[18] == 2
            && 256 * (b[19] as int) + b[20] == |w| && b[21..21 + |w|] == w
            && 256 * (b[21 + |w|] as int) + b[22 + |w|] == |a| && b[23 + |w|..23 + |w| + |a|] == a
            && b[23 + |w| + |a|..pktlen] == n
  {
    var w, a := EncodeRoutes(ap, u.withdrawn), EncodeAttrs(u.attribs);
    assert |b[21..AttrsLo(b, pktlen) - 2]| == |w|;
    assert |b[AttrsLo(b, pktlen)..AttrsHi(b, pktlen)]| == |a|;
    forall i | 0 <= i < 16 ensures b[i] == 255 {
      assert b[i] == b[..16][i] == MARKER[i];
    }
  }
}
