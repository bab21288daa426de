/** What an UPDATE rebuilt from a RIB entry must hold (section 4.3.4 of
    RFC 6396): the attribute list of the entry, with three kinds of attribute
    changed, and the route (src/bgp.c, src/bgpattribs.c). */
module MrtRoute {
  import opened Netaddr
  import opened BgpWire
  import opened BgpAttribs
  import opened AsPath
  import opened Wrappers

  const ATTR_OPTIONAL_FLAGS: Byte := 0x80           // DEFAULT_MP_REACH_NLRI_FLAGS
  const ATTR_OPTIONAL_EXTENDED_FLAGS: Byte := 0x90  // EXTENDED_MP_REACH_NLRI_FLAGS
  const AFI_IPV4: nat := 1
  const AFI_IPV6: nat := 2
  const SAFI_UNICAST: Byte := 1

  datatype MrtFlags = MrtFlags(
    asn32: bool, addpath: bool, std: bool, full: bool, strip: bool, legacy: bool)

  /** BGPF_LEGACYMRT overrides what has no meaning for it. */
  function Normal(f: MrtFlags): MrtFlags {
    if f.legacy then f.(asn32 := false, addpath := false, std := false, full := true) else f
  }

  // ---- AS_PATH: 32-bit numbers narrowed to 16 ----------------------------

  /** The low halves of `count` numbers; None when a high half is not zero. */
  function NarrowAses(b: Bytes, p: nat, count: nat): (r: Option<Bytes>)
    requires p + 4 * count <= |b|
    ensures r.Some? ==> |r.value| == 2 * count
    decreases count
  {
    if count == 0 then Some([])
    else if b[p] != 0 || b[p + 1] != 0 then None
    else
      var rest := NarrowAses(b, p + 4, count - 1);
      if rest.None? then None else Some(b[p + 2..p + 4] + rest.value)
  }

  /** The narrowed path; None for a path cut short, or a number too large. */
  function Narrow(b: Bytes, p: nat, hi: nat): (r: Option<Bytes>)
    requires p <= hi <= |b|
    ensures r.Some? ==> |r.value| <= hi - p
    decreases hi - p
  {
    if p == hi then Some([])
    else if hi - p < 2 then None
    else
      var count: nat := b[p + 1];
      var q := p + 2 + 4 * count;
      if q > hi then None
      else
        var ases, rest := NarrowAses(b, p + 2, count), Narrow(b, q, hi);
        if ases.None? || rest.None? then None else Some(b[p..p + 2] + ases.value + rest.value)
  }

  ghost predicate SmallPath(segs: seq<Seg>) {
    ValidPath(2, segs)
  }

  lemma HighHalf(n: nat)
    requires n < 0x1_0000_0000
    ensures n < 0x1_0000 <==> U32(n)[0] == 0 && U32(n)[1] == 0
    ensures n < 0x1_0000 ==> U32(n)[2..] == U16(n)
  {
  }

  lemma FourOctets(b: Bytes, p: nat, x: Bytes)
    requires |x| == 4 && p + 4 <= |b| && b[p..p + 4] == x
    ensures b[p] == x[0] && b[p + 1] == x[1] && b[p + 2..p + 4] == x[2..]
  {
    assert b[p] == b[p..p + 4][0] && b[p + 1] == b[p..p + 4][1];
    assert b[p + 2..p + 4] == b[p..p + 4][2..];
  }

  lemma FirstEncoded(ases: seq<nat>)
    requires ValidSeg(4, Seg(0, ases)) && ases != []
    ensures ases[0] < 0x1_0000_0000 && ValidSeg(4, Seg(0, ases[1..]))
    ensures EncodeAses(4, ases) == U32(ases[0]) + EncodeAses(4, ases[1..])
  {
  }

  lemma NumberAndRest(b: Bytes, p: nat, hi: nat, x: Bytes, y: Bytes)
    requires |x| == 4 && p <= hi <= |b| && b[p..hi] == x + y
    ensures p + 4 <= hi && b[p..p + 4] == x && b[p + 4..hi] == y
  {
    TwoParts(b, p, hi, x, y);
  }

  /** The octets of the first of some 32-bit numbers, and of those after it. */
  lemma FirstNumber(b: Bytes, p: nat, hi: nat, ases: seq<nat>)
    requires ValidSeg(4, Seg(0, ases)) && ases != []
    requires p <= hi <= |b| && b[p..hi] == EncodeAses(4, ases)
    ensures p + 4 <= hi && ases[0] < 0x1_0000_0000 && b[p..p + 4] == U32(ases[0])
    ensures ValidSeg(4, Seg(0, ases[1..])) && b[p + 4..hi] == EncodeAses(4, ases[1..])
  {
    FirstEncoded(ases);
    hide U32, EncodeAses, ValidSeg;
    NumberAndRest(b, p, hi, U32(ases[0]), EncodeAses(4, ases[1..]));
  }

  lemma OneNumber(b: Bytes, p: nat, n: nat)
    requires n < 0x1_0000_0000 && p + 4 <= |b| && b[p..p + 4] == U32(n)
    ensures n < 0x1_0000 <==> b[p] == 0 && b[p + 1] == 0
    ensures n < 0x1_0000 ==> b[p + 2..p + 4] == U16(n)
  {
    hide U32, U16;
    HighHalf(n);
    FourOctets(b, p, U32(n));
  }

  lemma SmallNumbers(ases: seq<nat>)
    requires ases != []
    ensures ValidSeg(2, Seg(0, ases)) <==>
            |ases| < 256 && ases[0] < 0x1_0000 && ValidSeg(2, Seg(0, ases[1..]))
  {
    if |ases| < 256 && ases[0] < 0x1_0000 && ValidSeg(2, Seg(0, ases[1..])) {
      forall i | 0 <= i < |ases| ensures ases[i] < 0x1_0000 {
        assert i > 0 ==> ases[i] == ases[1..][i - 1];
      }
    }
  }

  lemma {:induction false} NarrowAsesOfWire(b: Bytes, p: nat, ases: seq<nat>)
    requires ValidSeg(4, Seg(0, ases))
    requires p + 4 * |ases| <= |b| && b[p..p + 4 * |ases|] == EncodeAses(4, ases)
    ensures NarrowAses(b, p, |ases|) ==
            if ValidSeg(2, Seg(0, ases)) then Some(EncodeAses(2, ases)) else None
    decreases |ases|
  {
    if ases != [] {
      assert |ases| < 256;
      FirstNumber(b, p, p + 4 * |ases|, ases);
      OneNumber(b, p, ases[0]);
      SmallNumbers(ases);
      NarrowAsesOfWire(b, p + 4, ases[1..]);
    }
  }

  lemma NarrowNothing(b: Bytes, p: nat, hi: nat)
    requires p <= hi <= |b| && b[p..hi] == EncodePath(4, [])
    ensures Narrow(b, p, hi) == Some(EncodePath(2, [])) && SmallPath([])
  {
    assert |b[p..hi]| == 0;
  }

  /** A path of 32-bit numbers narrows exactly when all of them fit 16 bits, and
      then it is the same path, segment by segment and number by number. */
  lemma {:induction false} NarrowKeepsThePath(b: Bytes, p: nat, hi: nat, segs: seq<Seg>)
    requires ValidPath(4, segs) && p <= hi <= |b| && b[p..hi] == EncodePath(4, segs)
    ensures Narrow(b, p, hi) == if SmallPath(segs) then Some(EncodePath(2, segs)) else None
    decreases |segs|
  {
    hide Narrow, NarrowAses, EncodePath, EncodeAses, ValidPath, ValidSeg;
    if segs == [] {
      NarrowNothing(b, p, hi);
    } else {
      FirstSeg(4, b, p, hi, segs);
      PathParts(4, segs);
      NarrowAsesOfWire(b, p + 2, segs[0].ases);
      NarrowKeepsThePath(b, p + 2 + 4 * |segs[0].ases|, hi, segs[1..]);
      NarrowJoins(b, p, hi, segs);
    }
  }

  lemma NarrowJoins(b: Bytes, p: nat, hi: nat, segs: seq<Seg>)
    requires segs != [] && ValidPath(4, segs)
    requires var n := |segs[0].ases|; var q := p + 2 + 4 * n;
             && q <= hi <= |b| && b[p] == segs[0].kind && b[p + 1] == n
             && NarrowAses(b, p + 2, n) ==
                (if ValidSeg(2, Seg(0, segs[0].ases)) then Some(EncodeAses(2, segs[0].ases)) else None)
             && Narrow(b, q, hi) == (if SmallPath(segs[1..]) then Some(EncodePath(2, segs[1..])) else None)
    ensures Narrow(b, p, hi) == if SmallPath(segs) then Some(EncodePath(2, segs)) else None
  {
    NarrowHeader(b, p, hi);
    SmallParts(segs);
  }

  lemma NarrowHeader(b: Bytes, p: nat, hi: nat)
    requires p + 2 <= hi <= |b| && (var count: nat := b[p + 1]; p + 2 + 4 * count <= hi)
    ensures var count: nat := b[p + 1];
            var ases, rest := NarrowAses(b, p + 2, count), Narrow(b, p + 2 + 4 * count, hi);
            Narrow(b, p, hi) ==
            if ases.None? || rest.None? then None else Some([b[p], b[p + 1]] + ases.value + rest.value)
  {
    assert b[p..p + 2] == [b[p], b[p + 1]];
  }

  lemma SmallParts(segs: seq<Seg>)
    requires segs != []
    ensures SmallPath(segs) <==> ValidSeg(2, Seg(0, segs[0].ases)) && SmallPath(segs[1..])
  {
    if ValidSeg(2, Seg(0, segs[0].ases)) && SmallPath(segs[1..]) {
      forall i | 0 <= i < |segs| ensures ValidSeg(2, segs[i]) {
        assert i > 0 ==> segs[i] == segs[1..][i - 1];
      }
    }
  }

  lemma {:induction false} NarrowHasHops(b: Bytes, p: nat, hi: nat)
    requires p <= hi <= |b| && Narrow(b, p, hi).Some?
    ensures HopsFrom(4, b, p, hi).Some?
    decreases hi - p
  {
    if p < hi {
      var count: nat := b[p + 1];
      NarrowHasHops(b, p + 2 + 4 * count, hi);
    }
  }

  /** What narrows is a path: no segment is cut short. */
  lemma NarrowedIsAPath(b: Bytes, p: nat, hi: nat) returns (segs: seq<Seg>)
    requires p <= hi <= |b| && Narrow(b, p, hi).Some?
    ensures ValidPath(4, segs) && b[p..hi] == EncodePath(4, segs)
  {
    NarrowHasHops(b, p, hi);
    segs := PathOfOctets(4, b, p, hi);
  }

  // ---- MP_REACH_NLRI: the route put back ---------------------------------

  /** A RIB entry keeps only the next hop of MP_REACH, or all of it; the flags
      tell, or else a look at the address family does. */
  predicate Truncated(f: MrtFlags, data: Bytes)
    requires f.full || f.std || |data| >= 3
  {
    !f.full && (f.std || data[0] != 0 || data[1] != AFI_IPV6 || data[2] != SAFI_UNICAST)
  }

  /** The next hop is where it is looked for; the source checks no bounds here. */
  ghost predicate MpReachOk(f: MrtFlags, data: Bytes) {
    && (f.full || f.std || |data| >= 3)
    && if Truncated(f, data) then |data| > 0 && |data| - 1 == data[0]
       else |data| >= 4 && 4 + data[3] <= |data|
  }

  /** Next hop length and next hop. */
  function NextHopField(f: MrtFlags, data: Bytes): Bytes
    requires MpReachOk(f, data)
  {
    if Truncated(f, data) then data else data[3..4 + data[3]]
  }

  ghost function MpReachData(f: MrtFlags, route: NetaddrAp, data: Bytes): Bytes
    requires MpReachOk(f, data) && ValidRoute(route)
  {
    U16(if route.pfx.family == AF_INET6 then AFI_IPV6 else AFI_IPV4) + [SAFI_UNICAST]
      + NextHopField(f, data) + [0] + EncodeRoute(f.addpath, route)
  }

  ghost function RebuiltMpReach(f: MrtFlags, route: NetaddrAp, data: Bytes): (a: Attr)
    requires MpReachOk(f, data) && ValidRoute(route)
    ensures |data| < 0x1_0000 ==> ValidAttr(a)
  {
    var d := MpReachData(f, route, data);
    Attr(if |d| > 0xff then ATTR_OPTIONAL_EXTENDED_FLAGS else ATTR_OPTIONAL_FLAGS, MP_REACH_NLRI_CODE, d)
  }

  /** getmpnlri, on the data of an MP_REACH attribute: from past the address
      family, the next hop and a reserved octet. */
  function MpNlri(data: Bytes): Option<Bytes> {
    if |data| >= 4 && 5 + data[3] <= |data| then Some(data[5 + data[3]..]) else None
  }

  lemma MpReachParts(h: Bytes, nh: Bytes, e: Bytes)
    requires |h| == 3
    ensures var d := h + nh + [0] + e;
            && d[0] == h[0] && d[1] == h[1] && d[2] == h[2]
            && d[3..3 + |nh|] == nh && (nh != [] ==> d[3] == nh[0]) && d[4 + |nh|..] == e
  {
    var d := h + nh + [0] + e;
    assert d == h + (nh + ([0] + e));
  }

  /** The rebuilt attribute is well formed: right family, the next hop of the
      entry, and the route as its only prefix. */
  lemma MpReachGivesTheRoute(f: MrtFlags, route: NetaddrAp, data: Bytes)
    requires MpReachOk(f, data) && ValidRoute(route)
    ensures var d, nh := MpReachData(f, route, data), NextHopField(f, data);
            && |nh| > 0 && |nh| - 1 == nh[0] && |d| >= 4 && d[3..3 + |nh|] == nh
            && BE16(d, 0) == (if route.pfx.family == AF_INET6 then AFI_IPV6 else AFI_IPV4) && d[2] == SAFI_UNICAST
            && MpNlri(d) == Some(EncodeRoute(f.addpath, route))
    ensures forall cur :: ReadRoutes(f.addpath, cur, EncodeRoute(f.addpath, route), 0, |EncodeRoute(f.addpath, route)|)
                          == Some([AsRead(f.addpath, cur, route)])
  {
    var d, nh, e := MpReachData(f, route, data), NextHopField(f, data), EncodeRoute(f.addpath, route);
    MpReachParts(U16(if route.pfx.family == AF_INET6 then AFI_IPV6 else AFI_IPV4) + [SAFI_UNICAST], nh, e);
    forall cur ensures ReadRoutes(f.addpath, cur, e, 0, |e|) == Some([AsRead(f.addpath, cur, route)]) {
      assert EncodeRoutes(f.addpath, [route]) == e + EncodeRoutes(f.addpath, []);
      assert e[0..|e|] == e;
      RoutesReadBack(f.addpath, cur, e, 0, |e|, [route]);
      assert AllAsRead(f.addpath, cur, [route]) == [AsRead(f.addpath, cur, route)];
    }
  }

  // ---- The attribute list ------------------------------------------------

  datatype Fate = Keep(attr: Attr) | Strip | Refuse

  /** What becomes of one attribute. */
  ghost function FateOf(f: MrtFlags, route: NetaddrAp, a: Attr): (r: Fate)
    requires ValidRoute(route) && (a.code == MP_REACH_NLRI_CODE ==> MpReachOk(f, a.data))
    ensures r.Keep? ==> r.attr.code == a.code
  {
    if a.code == MP_REACH_NLRI_CODE then Keep(RebuiltMpReach(f, route, a.data))
    else if a.code == MP_UNREACH_NLRI_CODE && f.strip then Strip
    else if a.code == AS_PATH_CODE && !f.asn32 && !f.legacy then
      var n := Narrow(a.data, 0, |a.data|);
      if n.None? then Refuse else Keep(a.(data := n.value))
    else Keep(a)
  }

  ghost predicate Usable(f: MrtFlags, s: seq<Attr>) {
    forall i :: 0 <= i < |s| ==> s[i].code == MP_REACH_NLRI_CODE ==> MpReachOk(f, s[i].data)
  }

  /** The attributes of the UPDATE, in the order of the entry; None when one of
      them is refused. */
  ghost function Rebuilt(f: MrtFlags, route: NetaddrAp, s: seq<Attr>): Option<seq<Attr>>
    requires ValidRoute(route) && Usable(f, s)
  {
    if s == [] then Some([])
    else
      var init, fate := Rebuilt(f, route, s[..|s| - 1]), FateOf(f, route, s[|s| - 1]);
      if init.None? || fate.Refuse? then None
      else if fate.Strip? then init
      else Some(init.value + [fate.attr])
  }

  /** Neither changed nor dropped. */
  predicate Untouched(a: Attr) {
    a.code !in {AS_PATH_CODE, MP_REACH_NLRI_CODE, MP_UNREACH_NLRI_CODE}
  }

  function OnlyUntouched(s: seq<Attr>): seq<Attr> {
    if s == [] then []
    else OnlyUntouched(s[..|s| - 1]) + if Untouched(s[|s| - 1]) then [s[|s| - 1]] else []
  }

  function CountCode(s: seq<Attr>, code: Byte): nat {
    if s == [] then 0 else CountCode(s[..|s| - 1], code) + if s[|s| - 1].code == code then 1 else 0
  }

  /** All other attributes stay, in order; no code becomes more frequent, and
      only MP_UNREACH, when it is to be stripped, goes away. */
  lemma {:induction false} OthersStayInOrder(f: MrtFlags, route: NetaddrAp, s: seq<Attr>)
    requires ValidRoute(route) && Usable(f, s) && Rebuilt(f, route, s).Some?
    ensures var r := Rebuilt(f, route, s).value;
            && OnlyUntouched(r) == OnlyUntouched(s)
            && forall code: Byte :: CountCode(r, code) ==
                 if f.strip && code == MP_UNREACH_NLRI_CODE then 0 else CountCode(s, code)
    decreases |s|
  {
    if s != [] {
      var init, last := s[..|s| - 1], s[|s| - 1];
      OthersStayInOrder(f, route, init);
      var r0 := Rebuilt(f, route, init).value;
      var fate := FateOf(f, route, last);
      if fate.Keep? {
        assert (r0 + [fate.attr])[..|r0|] == r0;
      }
    }
  }
}
