/** Rebuilding an UPDATE from an MRT RIB entry, in place (src/bgp.c). */
module MrtRebuild {
  import opened Netaddr
  import opened BgpWire
  import opened BgpWriter
  import opened BgpAttribs
  import opened MrtRoute
  import opened Wrappers

  // ---- A table that grows with the list ----------------------------------

  /** The table knows everything about the list: what a scan would find. */
  ghost predicate Complete(b: Bytes, lo: nat, hi: nat, tab: seq<nat>)
    requires lo <= hi <= |b|
  {
    && |tab| == OFFTAB_SIZE
    && forall code: Byte :: Notable(code) ==> Answers(b, lo, hi, code, tab[AttrIndex(code)])
  }

  ghost predicate Answers(b: Bytes, lo: nat, hi: nat, code: Byte, off: nat)
    requires lo <= hi <= |b|
  {
    if off == OFFSET_NOT_FOUND then Absent(b, lo, hi, code) else Occurs(b, lo, hi, code, off)
  }

  lemma CompleteIsTableOk(b: Bytes, lo: nat, hi: nat, tab: seq<nat>)
    requires lo <= hi <= |b| && Complete(b, lo, hi, tab)
    ensures TableOk(b, lo, hi, tab)
  {
    forall code: Byte | Notable(code) ensures EntryOk(b, lo, hi, code, tab[AttrIndex(code)]) {
      assert Answers(b, lo, hi, code, tab[AttrIndex(code)]);
    }
  }

  /** The entry of a code that is not repeated is what a scan finds. */
  lemma CompleteAgreesWithScan(b: Bytes, lo: nat, hi: nat, tab: seq<nat>, code: Byte)
    requires lo <= hi <= |b| && hi <= OFFSET_NOT_FOUND && Complete(b, lo, hi, tab) && Notable(code)
    requires AtMostOnce(b, lo, hi, code)
    ensures var off := tab[AttrIndex(code)];
            Scan(b, lo, hi, code) == if off == OFFSET_NOT_FOUND then None else Some(off)
  {
    var off := tab[AttrIndex(code)];
    assert Answers(b, lo, hi, code, off);
    FoundAgreesWithScan(b, lo, hi, code);
    assert Found(b, lo, hi, code, if off == OFFSET_NOT_FOUND then None else Some(off));
  }

  /** The attributes start here when nothing is withdrawn. */
  const ATTRS: nat := 23

  ghost predicate SameUpTo(b: Bytes, c: Bytes, n: nat) {
    n <= |b| == |c| && forall i :: ATTRS <= i < n ==> b[i] == c[i]
  }

  lemma SameAttr(b: Bytes, c: Bytes, p: nat, hi: nat, hi': nat)
    requires SameUpTo(b, c, hi) && ATTRS <= p <= hi <= hi' <= |b| && AttrFits(b, p, hi)
    ensures AttrFits(c, p, hi') && AttrEnd(c, p) == AttrEnd(b, p) && c[p + 1] == b[p + 1]
  {
  }

  lemma {:induction false} StartsGrow(b: Bytes, c: Bytes, lo: nat, hi: nat, hi': nat, p: nat)
    requires SameUpTo(b, c, hi) && ATTRS <= lo <= hi <= hi' <= |b| && Starts(b, lo, hi, p)
    ensures Starts(c, lo, hi', p)
    decreases hi - lo
  {
    if p != lo {
      SameAttr(b, c, lo, hi, hi');
      StartsGrow(b, c, AttrEnd(b, lo), hi, hi', p);
    }
  }

  lemma {:induction false} StartsShrink(b: Bytes, c: Bytes, lo: nat, hi: nat, hi': nat, p: nat)
    requires SameUpTo(b, c, hi) && ATTRS <= lo <= hi <= hi' <= |b| && Starts(c, lo, hi', p) && p <= hi
    requires WholeFrom(b, lo, hi)
    ensures Starts(b, lo, hi, p)
    decreases hi - lo
  {
    StartsBound(c, lo, hi', p);
    if p != lo {
      SameAttr(b, c, lo, hi, hi');
      StartsBound(c, AttrEnd(c, lo), hi', p);
      StartsShrink(b, c, AttrEnd(b, lo), hi, hi', p);
    }
  }

  /** One more attribute behind a whole list. */
  ghost predicate Grown(b: Bytes, c: Bytes, lo: nat, hi: nat, a: Attr) {
    && ValidAttr(a) && ATTRS <= lo <= hi && hi + |EncodeAttr(a)| <= |b| == |c|
    && SameUpTo(b, c, hi) && c[hi..hi + |EncodeAttr(a)|] == EncodeAttr(a)
    && WholeFrom(b, lo, hi)
  }

  lemma GrownIsWhole(b: Bytes, c: Bytes, lo: nat, hi: nat, a: Attr)
    requires Grown(b, c, lo, hi, a)
    ensures var hi' := hi + |EncodeAttr(a)|;
            WholeFrom(c, lo, hi') && Occurs(c, lo, hi', a.code, hi)
  {
    var hi' := hi + |EncodeAttr(a)|;
    AttrReadsBack(c, hi, hi', a);
    StartsGrow(b, c, lo, hi, hi', hi);
    StartsNext(c, lo, hi', hi);
  }

  /** What occurs in the longer list is the new attribute or occurred before. */
  lemma GrownOccurs(b: Bytes, c: Bytes, lo: nat, hi: nat, a: Attr, code: Byte, p: nat)
    requires Grown(b, c, lo, hi, a)
    ensures var hi' := hi + |EncodeAttr(a)|;
            Occurs(c, lo, hi', code, p) <==> Occurs(b, lo, hi, code, p) || (p == hi && code == a.code)
  {
    var hi' := hi + |EncodeAttr(a)|;
    GrownIsWhole(b, c, lo, hi, a);
    AttrReadsBack(c, hi, hi', a);
    if Occurs(b, lo, hi, code, p) {
      StartsGrow(b, c, lo, hi, hi', p);
      SameAttr(b, c, p, hi, hi');
    }
    if Occurs(c, lo, hi', code, p) && p != hi {
      if p > hi {
        StartsApart(c, lo, hi', hi, p);
        assert false;
      } else {
        StartsApart(c, lo, hi', p, hi);
        StartsShrink(b, c, lo, hi, hi', p);
        FitsBefore(b, c, p, hi, hi');
      }
    }
  }

  lemma FitsBefore(b: Bytes, c: Bytes, p: nat, hi: nat, hi': nat)
    requires SameUpTo(b, c, hi) && ATTRS <= p < hi <= hi' <= |b| && AttrFits(c, p, hi') && AttrEnd(c, p) <= hi
    ensures AttrFits(b, p, hi) && b[p + 1] == c[p + 1]
  {
  }

  /** Lines 425-427: the attribute about to be written at dst. */
  function Marked(tab: seq<nat>, code: Byte, dst: nat): (t: seq<nat>)
    requires |tab| == OFFTAB_SIZE
    ensures |t| == OFFTAB_SIZE
  {
    var idx := AttrIndex(code);
    if idx >= 0 then tab[idx := dst] else tab
  }

  lemma GrownTable(b: Bytes, c: Bytes, lo: nat, hi: nat, a: Attr, tab: seq<nat>)
    requires Grown(b, c, lo, hi, a) && Complete(b, lo, hi, tab) && |b| <= OFFSET_NOT_FOUND
    ensures Complete(c, lo, hi + |EncodeAttr(a)|, Marked(tab, a.code, hi))
  {
    var i, hi' := AttrIndex(a.code), hi + |EncodeAttr(a)|;
    var t := Marked(tab, a.code, hi);
    forall code: Byte | Notable(code) ensures Answers(c, lo, hi', code, t[AttrIndex(code)]) {
      assert Answers(b, lo, hi, code, tab[AttrIndex(code)]);
      assert AttrIndex(code) == i ==> code == a.code;
      forall p: nat ensures Occurs(c, lo, hi', code, p) <==> Occurs(b, lo, hi, code, p) || (p == hi && code == a.code) {
        GrownOccurs(b, c, lo, hi, a, code, p);
      }
    }
  }

  lemma GrownAbsent(b: Bytes, c: Bytes, lo: nat, hi: nat, a: Attr, code: Byte)
    requires Grown(b, c, lo, hi, a) && Absent(b, lo, hi, code) && code != a.code
    ensures Absent(c, lo, hi + |EncodeAttr(a)|, code)
  {
    var hi' := hi + |EncodeAttr(a)|;
    forall p: nat ensures !Occurs(c, lo, hi', code, p) {
      GrownOccurs(b, c, lo, hi, a, code, p);
    }
  }

  // ---- The list being read -----------------------------------------------

  /** The attributes from p on, up to the first that is cut short. */
  ghost function AttrsFrom(b: Bytes, p: nat, hi: nat): (s: seq<Attr>)
    requires p <= hi <= |b|
    decreases hi - p
  {
    if p == hi || !AttrFits(b, p, hi) then [] else [AttrAt(b, p)] + AttrsFrom(b, AttrEnd(b, p), hi)
  }

  /** The octets of an attribute are its encoding. */
  lemma AttrIsItsOctets(b: Bytes, p: nat, hi: nat)
    requires p <= hi <= |b| && AttrFits(b, p, hi) && b[p + 1] < 255
    ensures ValidAttr(AttrAt(b, p)) && b[p..AttrEnd(b, p)] == EncodeAttr(AttrAt(b, p))
  {
    var a, h := AttrAt(b, p), HdrSize(b[p]);
    var s, e := b[p..AttrEnd(b, p)], EncodeAttr(a);
    AttrOctets(a);
    hide EncodeAttr;
    if Extended(b[p]) {
      assert e[2] == e[2..4][0] == b[p + 2] && e[3] == e[2..4][1] == b[p + 3];
    }
    SliceOfSlice(b, p, AttrEnd(b, p), h, AttrEnd(b, p) - p);
    assert s[h..|s|] == a.data == e[h..|e|];
    forall i | 0 <= i < |s| ensures s[i] == e[i] {
      if i >= h {
        assert s[i] == s[h..|s|][i - h] && e[i] == e[h..|e|][i - h];
      }
    }
  }

  // ---- One attribute -----------------------------------------------------

  /** The octets that narrowing writes for the segments between p and hi, up to
      the one it refuses, all of whose numbers are counted. */
  function NarrowRoom(b: Bytes, p: nat, hi: nat): nat
    requires p <= hi <= |b|
    decreases hi - p
  {
    if hi - p < 2 then 0
    else
      var count: nat := b[p + 1];
      var q := p + 2 + 4 * count;
      if q > hi then 2
      else 2 + 2 * count + if NarrowAses(b, p + 2, count).None? then 0 else NarrowRoom(b, q, hi)
  }

  lemma {:induction false} NarrowedFillsRoom(b: Bytes, p: nat, hi: nat)
    requires p <= hi <= |b| && Narrow(b, p, hi).Some?
    ensures |Narrow(b, p, hi).value| == NarrowRoom(b, p, hi)
    decreases hi - p
  {
    if p < hi {
      var count: nat := b[p + 1];
      NarrowedFillsRoom(b, p + 2 + 4 * count, hi);
    }
  }

  /** The octets the attribute makes the source write. */
  ghost function Room(f: MrtFlags, route: NetaddrAp, a: Attr): nat
    requires ValidRoute(route) && ValidAttr(a) && (a.code == MP_REACH_NLRI_CODE ==> MpReachOk(f, a.data))
  {
    match FateOf(f, route, a)
    case Keep(x) => |EncodeAttr(x)|
    case Strip => 0
    case Refuse => HdrSize(a.flags) + NarrowRoom(a.data, 0, |a.data|)
  }

  method Emit(buf: array<Byte>, dst: nat, src: Bytes) returns (next: nat)
    requires dst + |src| <= buf.Length
    modifies buf
    ensures buf[..] == Written(old(buf[..]), dst, src) && next == dst + |src|
  {
    Memcpy(buf, dst, src);
    next := dst + |src|;
  }

  lemma MpReachOctets(f: MrtFlags, route: NetaddrAp, data: Bytes)
    requires ValidRoute(route) && MpReachOk(f, data) && |data| < 0x1_0000
    ensures var d, e := MpReachData(f, route, data), EncodeAttr(RebuiltMpReach(f, route, data));
            && |d| == 5 + NaddrSize(route.pfx.bitlen) + (if f.addpath then 4 else 0) + |NextHopField(f, data)|
            && e == [if |d| > 0xff then ATTR_OPTIONAL_EXTENDED_FLAGS else ATTR_OPTIONAL_FLAGS, MP_REACH_NLRI_CODE]
                    + (if |d| > 0xff then [|d| / 256, |d| % 256] else [|d| % 256]) + d
  {
  }

  /** Lines 446-490: MP_REACH with the route put back. */
  method EmitMpReach(f: MrtFlags, route: NetaddrAp, src: Bytes, buf: array<Byte>, at: nat) returns (dst: nat)
    requires ValidRoute(route) && MpReachOk(f, src) && |src| < 0x1_0000
    requires at + |EncodeAttr(RebuiltMpReach(f, route, src))| <= buf.Length
    modifies buf
    ensures var e := EncodeAttr(RebuiltMpReach(f, route, src));
            buf[..] == Written(old(buf[..]), at, e) && dst == at + |e|
  {
    var truncated := true;
    if !f.full && !f.std && !(src[0] != 0 || src[1] != AFI_IPV6 || src[2] != SAFI_UNICAST) {
      truncated := false;
    }
    if f.full {
      truncated := false;
    }
    var addrlen := NaddrSize(route.pfx.bitlen);
    var expanded := 5 + addrlen + if f.addpath then 4 else 0;
    var nh := src;
    if !truncated {
      nh := src[3..4 + src[3]];
    }
    expanded := expanded + |nh|;
    MpReachOctets(f, route, src);
    var afi := if route.pfx.family == AF_INET6 then AFI_IPV6 else AFI_IPV4;
    var flags := if expanded > 0xff then ATTR_OPTIONAL_EXTENDED_FLAGS else ATTR_OPTIONAL_FLAGS;
    var head: Bytes := [flags, MP_REACH_NLRI_CODE];
    var len: Bytes := if expanded > 0xff then [expanded / 256, expanded % 256] else [expanded % 256];
    var id := if f.addpath then U32(route.pathid) else [];
    var rest: Bytes := U16(afi) + [SAFI_UNICAST] + nh + [0] + (id + [route.pfx.bitlen] + route.pfx.bytes[..addrlen]);
    dst := Emit(buf, at, head + len + rest);
  }

  lemma NarrowEnd(b: Bytes, hi: nat)
    requires hi <= |b|
    ensures Narrow(b, hi, hi) == Some([])
  {
  }

  lemma WrittenNothing(b: Bytes, at: nat)
    requires at <= |b|
    ensures Written(b, at, []) == b
  {
  }

  lemma WrittenSnoc(b: Bytes, at: nat, x: Bytes, y: Bytes)
    requires at + |x| + |y| <= |b|
    ensures Written(Written(b, at, x), at + |x|, y) == Written(b, at, x + y)
  {
    WrittenTwice(b, at, x, y);
  }

  /** The inner loop at lines 538-545: the numbers of one segment. */
  method EmitNumbers(b: Bytes, p: nat, count: nat, buf: array<Byte>, at: nat) returns (ok: bool)
    requires p + 4 * count <= |b| && at + 2 * count <= buf.Length
    modifies buf
    ensures ok == NarrowAses(b, p, count).Some?
    ensures ok ==> buf[..] == Written(old(buf[..]), at, NarrowAses(b, p, count).value)
  {
    ghost var b0, acc: Bytes := buf[..], [];
    var ptr, dst, i := p, at, 0;
    assert buf[..] == Written(b0, at, acc);
    BehindNothing(NarrowAses(b, p, count));
    while i < count
      invariant i <= count && ptr == p + 4 * i && dst == at + 2 * i && |acc| == 2 * i
      invariant buf[..] == Written(b0, at, acc)
      invariant NarrowAses(b, p, count) == Behind(acc, NarrowAses(b, ptr, count - i))
    {
      if b[ptr] != 0 || b[ptr + 1] != 0 {
        return false;
      }
      ghost var rest := NarrowAses(b, ptr + 4, count - i - 1);
      BehindBoth(acc, b[ptr + 2..ptr + 4], rest);
      Memcpy(buf, dst, b[ptr + 2..ptr + 4]);
      WrittenSnoc(b0, at, acc, b[ptr + 2..ptr + 4]);
      acc := acc + b[ptr + 2..ptr + 4];
      ptr, dst, i := ptr + 4, dst + 2, i + 1;
    }
    assert acc + [] == acc;
    ok := true;
  }

  ghost function Behind(acc: Bytes, rest: Option<Bytes>): Option<Bytes> {
    if rest.None? then None else Some(acc + rest.value)
  }

  lemma BehindNothing(rest: Option<Bytes>)
    ensures Behind([], rest) == rest
  {
    if rest.Some? {
      assert [] + rest.value == rest.value;
    }
  }

  lemma BehindBoth(acc: Bytes, x: Bytes, rest: Option<Bytes>)
    ensures Behind(acc, Behind(x, rest)) == Behind(acc + x, rest)
  {
    if rest.Some? {
      assert acc + (x + rest.value) == (acc + x) + rest.value;
    }
  }

  lemma NarrowStep(b: Bytes, p: nat, hi: nat)
    requires p < hi <= |b|
    ensures hi - p < 2 ==> Narrow(b, p, hi) == None
    ensures hi - p >= 2 ==>
              var count: nat := b[p + 1]; var q := p + 2 + 4 * count;
              if q > hi then Narrow(b, p, hi) == None
              else Narrow(b, p, hi) == if NarrowAses(b, p + 2, count).None? then None
                                       else Behind(b[p..p + 2] + NarrowAses(b, p + 2, count).value, Narrow(b, q, hi))
  {
  }

  /** One segment: its header, then its numbers. */
  method EmitSegment(b: Bytes, p: nat, hi: nat, buf: array<Byte>, at: nat)
    returns (ok: bool, ptr: nat, dst: nat, ghost piece: Bytes)
    requires p < hi <= |b| && at + NarrowRoom(b, p, hi) <= buf.Length
    modifies buf
    ensures !ok ==> Narrow(b, p, hi) == None
    ensures ok ==> p < ptr <= hi && dst == at + |piece| && NarrowRoom(b, p, hi) == |piece| + NarrowRoom(b, ptr, hi)
    ensures ok ==> buf[..] == Written(old(buf[..]), at, piece) && Narrow(b, p, hi) == Behind(piece, Narrow(b, ptr, hi))
  {
    NarrowStep(b, p, hi);
    ok, ptr, dst, piece := false, p, at, [];
    if hi - ptr < 2 {
      return;
    }
    ghost var b0 := buf[..];
    var head, count: nat := b[ptr..ptr + 2], b[ptr + 1];
    Memcpy(buf, dst, head);
    ptr, dst := ptr + 2, dst + 2;
    if hi - ptr < 4 * count {
      return;
    }
    ok := EmitNumbers(b, ptr, count, buf, dst);
    if ok {
      piece := head + NarrowAses(b, ptr, count).value;
      WrittenSnoc(b0, at, head, NarrowAses(b, ptr, count).value);
      ptr, dst := ptr + 4 * count, dst + 2 * count;
    }
  }

  /** The loop at lines 525-546: segment by segment. */
  method EmitNarrowed(b: Bytes, lo: nat, hi: nat, buf: array<Byte>, at: nat) returns (ok: bool, dst: nat)
    requires lo <= hi <= |b| && at + NarrowRoom(b, lo, hi) <= buf.Length
    modifies buf
    ensures ok == Narrow(b, lo, hi).Some?
    ensures ok ==> |Narrow(b, lo, hi).value| == NarrowRoom(b, lo, hi)
    ensures ok ==> dst == at + |Narrow(b, lo, hi).value|
    ensures ok ==> buf[..] == Written(old(buf[..]), at, Narrow(b, lo, hi).value)
  {
    hide Narrow, NarrowRoom, Written;
    ghost var b0, acc: Bytes := buf[..], [];
    var ptr := lo;
    dst := at;
    WrittenNothing(b0, at);
    BehindNothing(Narrow(b, lo, hi));
    while ptr < hi
      invariant lo <= ptr <= hi && dst == at + |acc| && NarrowRoom(b, lo, hi) == |acc| + NarrowRoom(b, ptr, hi)
      invariant buf[..] == Written(b0, at, acc)
      invariant Narrow(b, lo, hi) == Behind(acc, Narrow(b, ptr, hi))
    {
      ghost var piece;
      ok, ptr, dst, piece := EmitSegment(b, ptr, hi, buf, dst);
      if !ok {
        return;
      }
      WrittenSnoc(b0, at, acc, piece);
      BehindBoth(acc, piece, Narrow(b, ptr, hi));
      acc := acc + piece;
    }
    assert acc + [] == acc;
    NarrowEnd(b, hi);
    NarrowedFillsRoom(b, lo, hi);
    ok := true;
  }

  lemma LengthRewritten(b: Bytes, at: nat, head: Bytes, oldLen: Bytes, newLen: Bytes, d: Bytes)
    requires |oldLen| == |newLen| && at + |head| + |newLen| + |d| <= |b|
    ensures Written(Written(b, at, head + oldLen + d), at + |head|, newLen) == Written(b, at, head + newLen + d)
  {
  }

  /** Lines 516-559: AS_PATH with its numbers narrowed and its length rewritten. */
  method EmitAsPath(a: Attr, buf: array<Byte>, at: nat) returns (ok: bool, dst: nat)
    requires ValidAttr(a) && at + HdrSize(a.flags) + NarrowRoom(a.data, 0, |a.data|) <= buf.Length
    modifies buf
    ensures ok == Narrow(a.data, 0, |a.data|).Some?
    ensures ok ==> |Narrow(a.data, 0, |a.data|).value| == NarrowRoom(a.data, 0, |a.data|)
    ensures ok ==>
              var e := EncodeAttr(a.(data := Narrow(a.data, 0, |a.data|).value));
              buf[..] == Written(old(buf[..]), at, e) && dst == at + |e|
  {
    hide Narrow, NarrowRoom, Written, EncodeAttr;
    ghost var b0 := buf[..];
    var hdr := EncodeAttr(a)[..HdrSize(a.flags)];
    var start := Emit(buf, at, hdr);
    ok, dst := EmitNarrowed(a.data, 0, |a.data|, buf, start);
    if !ok {
      return;
    }
    ghost var n := Narrow(a.data, 0, |a.data|).value;
    WrittenSnoc(b0, at, hdr, n);
    var total := dst - start;
    var len: Bytes := if Extended(a.flags) then [total / 256, total % 256] else [total % 256];
    ShorterAttr(b0, at, a, hdr, len, n);
    Memcpy(buf, at + 2, len);
  }

  /** An attribute with shorter data and its length put right. */
  lemma ShorterAttr(b: Bytes, at: nat, a: Attr, hdr: Bytes, len: Bytes, n: Bytes)
    requires ValidAttr(a) && |n| <= |a.data| && at + HdrSize(a.flags) + |n| <= |b|
    requires hdr == EncodeAttr(a)[..HdrSize(a.flags)]
    requires len == if Extended(a.flags) then [|n| / 256, |n| % 256] else [|n| % 256]
    ensures at + |hdr| + |n| <= |b| && at + 2 + |len| <= |b|
    ensures Written(Written(b, at, hdr + n), at + 2, len) == Written(b, at, EncodeAttr(a.(data := n)))
  {
    var head := [a.flags, a.code];
    assert hdr == head + hdr[2..];
    LengthRewritten(b, at, head, hdr[2..], len, n);
    assert EncodeAttr(a.(data := n)) == head + len + n;
  }

  lemma AsPathRoom(f: MrtFlags, route: NetaddrAp, a: Attr)
    requires ValidRoute(route) && ValidAttr(a) && a.code == AS_PATH_CODE && !f.asn32 && !f.legacy
    ensures Room(f, route, a) == HdrSize(a.flags) + NarrowRoom(a.data, 0, |a.data|)
  {
    if Narrow(a.data, 0, |a.data|).Some? {
      NarrowedFillsRoom(a.data, 0, |a.data|);
    }
  }

  /** The switch at lines 430-566; the octets of the attribute are `octets`. */
  method EmitAttr(f: MrtFlags, route: NetaddrAp, a: Attr, octets: Bytes, buf: array<Byte>, at: nat)
    returns (ok: bool, dst: nat)
    requires ValidRoute(route) && ValidAttr(a) && octets == EncodeAttr(a)
    requires a.code == MP_REACH_NLRI_CODE ==> MpReachOk(f, a.data)
    requires at + Room(f, route, a) <= buf.Length
    modifies buf
    ensures ok == !FateOf(f, route, a).Refuse?
    ensures match FateOf(f, route, a)
            case Keep(x) => buf[..] == Written(old(buf[..]), at, EncodeAttr(x)) && dst == at + |EncodeAttr(x)|
            case Strip => buf[..] == old(buf[..]) && dst == at
            case Refuse => true
  {
    ok, dst := true, at;
    if a.code == MP_REACH_NLRI_CODE {
      dst := EmitMpReach(f, route, a.data, buf, at);
    } else if a.code == MP_UNREACH_NLRI_CODE {
      if !f.strip {
        dst := Emit(buf, at, octets);
      }
    } else if a.code == AS_PATH_CODE && !f.asn32 && !f.legacy {
      AsPathRoom(f, route, a);
      ok, dst := EmitAsPath(a, buf, at);
    } else {
      dst := Emit(buf, at, octets);
    }
  }

  // ---- The whole list ----------------------------------------------------

  /** What follows the attributes: the route, if it is not in MP_REACH alone. */
  ghost function NlriOf(f: MrtFlags, route: NetaddrAp): Bytes
    requires ValidRoute(route)
  {
    if route.pfx.family == AF_INET then EncodeRoute(f.addpath, route) else []
  }

  /** All that is written, up to the end or to the attribute that is refused. */
  ghost function TotalRoom(f: MrtFlags, route: NetaddrAp, s: seq<Attr>): nat
    requires ValidRoute(route) && ValidAttrs(s) && Usable(f, s)
    decreases |s|, 0
  {
    if s == [] then |NlriOf(f, route)|
    else Room(f, route, s[0]) + RoomAfter(f, route, s[0], s[1..])
  }

  ghost function RoomAfter(f: MrtFlags, route: NetaddrAp, a: Attr, rest: seq<Attr>): nat
    requires ValidRoute(route) && ValidAttrs(rest) && Usable(f, rest)
    requires a.code == MP_REACH_NLRI_CODE ==> MpReachOk(f, a.data)
    decreases |rest|, 1
  {
    if FateOf(f, route, a).Refuse? then 0 else TotalRoom(f, route, rest)
  }

  /** Where the rebuilding is, `done` being the attributes it has read. */
  ghost predicate Progress(f: MrtFlags, route: NetaddrAp, done: seq<Attr>, b: Bytes, dst: nat, tab: seq<nat>,
                           seen: bool)
  {
    && ValidRoute(route) && Usable(f, done) && Rebuilt(f, route, done).Some?
    && var outs := Rebuilt(f, route, done).value;
       && ValidAttrs(outs)
       && |b| == BGPBUFSIZ && ATTRS <= dst <= |b|
       && HeaderOk(b) && b[BASE_PACKET_LENGTH] == b[BASE_PACKET_LENGTH + 1] == 0
       && b[ATTRS..dst] == EncodeAttrs(outs)
       && WholeFrom(b, ATTRS, dst) && Complete(b, ATTRS, dst, tab)
       && (f.strip ==> Absent(b, ATTRS, dst, MP_UNREACH_NLRI_CODE))
       && seen == (CountCode(done, MP_REACH_NLRI_CODE) > 0)
  }

  lemma ProgressIsPlaced(f: MrtFlags, route: NetaddrAp, s: seq<Attr>, b: Bytes, dst: nat, tab: seq<nat>, seen: bool)
    requires Progress(f, route, s, b, dst, tab, seen)
    ensures ValidRoute(route) && Usable(f, s) && Rebuilt(f, route, s).Some? && ATTRS <= dst <= |b| == BGPBUFSIZ
    ensures |tab| == OFFTAB_SIZE
    ensures ValidAttrs(Rebuilt(f, route, s).value) && dst == ATTRS + |EncodeAttrs(Rebuilt(f, route, s).value)|
  {
  }

  /** The code of an attribute survives, and a kept one is valid. */
  lemma KeptIsValid(f: MrtFlags, route: NetaddrAp, a: Attr)
    requires ValidRoute(route) && ValidAttr(a) && (a.code == MP_REACH_NLRI_CODE ==> MpReachOk(f, a.data))
    ensures FateOf(f, route, a).Keep? ==>
              && ValidAttr(FateOf(f, route, a).attr) && FateOf(f, route, a).attr.code == a.code
              && |EncodeAttr(FateOf(f, route, a).attr)| == Room(f, route, a)
              && (f.strip ==> a.code != MP_UNREACH_NLRI_CODE)
  {
  }

  lemma WrittenGrows(b: Bytes, lo: nat, dst: nat, outs: seq<Attr>, x: Attr)
    requires ValidAttrs(outs) && ValidAttr(x) && ATTRS <= lo <= dst && dst + |EncodeAttr(x)| <= |b|
    requires b[lo..dst] == EncodeAttrs(outs) && WholeFrom(b, lo, dst)
    ensures var c := Written(b, dst, EncodeAttr(x));
            && Grown(b, c, lo, dst, x) && ValidAttrs(outs + [x])
            && c[lo..dst + |EncodeAttr(x)|] == EncodeAttrs(outs + [x])
  {
    var e := EncodeAttr(x);
    WrittenAt(b, dst, e);
    Extends(b, lo, dst, EncodeAttrs(outs), e);
    EncodeAttrsSnoc(outs, x);
  }

  lemma CountSnoc(s: seq<Attr>, a: Attr, code: Byte)
    ensures CountCode(s + [a], code) == CountCode(s, code) + if a.code == code then 1 else 0
  {
    assert (s + [a])[..|s|] == s;
  }

  lemma RebuiltSnoc(f: MrtFlags, route: NetaddrAp, done: seq<Attr>, a: Attr)
    requires ValidRoute(route) && Usable(f, done) && (a.code == MP_REACH_NLRI_CODE ==> MpReachOk(f, a.data))
    ensures Usable(f, done + [a])
    ensures var r, fate := Rebuilt(f, route, done), FateOf(f, route, a);
            Rebuilt(f, route, done + [a]) ==
            if r.None? || fate.Refuse? then None else if fate.Strip? then r else Some(r.value + [fate.attr])
  {
    assert (done + [a])[..|done|] == done;
  }

  lemma KeepProgresses(f: MrtFlags, route: NetaddrAp, done: seq<Attr>, a: Attr, b: Bytes, dst: nat, tab: seq<nat>,
                     seen: bool)
    requires Progress(f, route, done, b, dst, tab, seen)
    requires ValidAttr(a) && (a.code == MP_REACH_NLRI_CODE ==> MpReachOk(f, a.data)) && FateOf(f, route, a).Keep?
    requires dst + Room(f, route, a) <= |b|
    ensures var x := FateOf(f, route, a).attr;
            && ValidAttr(x) && dst + |EncodeAttr(x)| <= |b|
            && Progress(f, route, done + [a], Written(b, dst, EncodeAttr(x)), dst + |EncodeAttr(x)|,
                        Marked(tab, a.code, dst), seen || a.code == MP_REACH_NLRI_CODE)
  {
    var x, outs := FateOf(f, route, a).attr, Rebuilt(f, route, done).value;
    KeptIsValid(f, route, a);
    hide FateOf, Rebuilt, Room, Complete, WholeFrom, Absent, CountCode, EncodeAttrs, EncodeAttr, Occurs;
    RebuiltSnoc(f, route, done, a);
    WrittenGrows(b, ATTRS, dst, outs, x);
    var c := Written(b, dst, EncodeAttr(x));
    HeaderKept(b, dst, EncodeAttr(x));
    GrownIsWhole(b, c, ATTRS, dst, x);
    GrownTable(b, c, ATTRS, dst, x, tab);
    if f.strip {
      GrownAbsent(b, c, ATTRS, dst, x, MP_UNREACH_NLRI_CODE);
    }
    CountSnoc(done, a, MP_REACH_NLRI_CODE);
  }

  lemma StripProgresses(f: MrtFlags, route: NetaddrAp, done: seq<Attr>, a: Attr, b: Bytes, dst: nat, tab: seq<nat>,
                     seen: bool)
    requires Progress(f, route, done, b, dst, tab, seen)
    requires a.code == MP_UNREACH_NLRI_CODE && f.strip
    ensures Progress(f, route, done + [a], b, dst, tab[AttrIndex(a.code) := OFFSET_NOT_FOUND], seen)
  {
    RebuiltSnoc(f, route, done, a);
    CountSnoc(done, a, MP_REACH_NLRI_CODE);
    assert Answers(b, ATTRS, dst, a.code, tab[AttrIndex(a.code)]);
    var t := tab[AttrIndex(a.code) := OFFSET_NOT_FOUND];
    forall code: Byte | Notable(code) ensures Answers(b, ATTRS, dst, code, t[AttrIndex(code)]) {
      assert Answers(b, ATTRS, dst, code, tab[AttrIndex(code)]);
      assert AttrIndex(code) == AttrIndex(a.code) ==> code == a.code;
    }
  }

  lemma {:induction false} RefusedStays(f: MrtFlags, route: NetaddrAp, s: seq<Attr>, rest: seq<Attr>)
    requires ValidRoute(route) && Usable(f, s + rest) && Usable(f, s) && Rebuilt(f, route, s).None?
    ensures Rebuilt(f, route, s + rest).None?
    decreases |rest|
  {
    if rest == [] {
      assert s + rest == s;
    } else {
      var n := |rest| - 1;
      assert (s + rest)[..|s| + n] == s + rest[..n];
      RefusedStays(f, route, s, rest[..n]);
    }
  }

  // ---- The message -------------------------------------------------------

  /** The entry is one the source can rebuild without leaving its buffers. */
  ghost predicate RebuildableEntry(f: MrtFlags, route: NetaddrAp, data: Bytes) {
    var s := AttrsFrom(data, 0, |data|);
    && ValidRoute(route) && route.pfx.family in {AF_INET, AF_INET6}
    && ValidAttrs(s) && Usable(f, s)
    && ATTRS + TotalRoom(f, route, s) <= BGPBUFSIZ
  }

  /** What the UPDATE must carry. */
  ghost function Message(f: MrtFlags, route: NetaddrAp, outs: seq<Attr>): Update {
    Update([], outs, if route.pfx.family == AF_INET then [route] else [])
  }

  /** One turn of the loop at lines 397-572, the attribute being whole. */
  method Turn(f: MrtFlags, route: NetaddrAp, a: Attr, octets: Bytes, buf: array<Byte>, at: nat, tab0: seq<nat>,
              seen0: bool, ghost done: seq<Attr>)
    returns (ok: bool, dst: nat, tab: seq<nat>, seen: bool)
    requires Progress(f, route, done, buf[..], at, tab0, seen0)
    requires ValidAttr(a) && octets == EncodeAttr(a) && (a.code == MP_REACH_NLRI_CODE ==> MpReachOk(f, a.data))
    requires at + Room(f, route, a) <= buf.Length
    modifies buf
    ensures Usable(f, done + [a]) && ok == Rebuilt(f, route, done + [a]).Some? == !FateOf(f, route, a).Refuse?
    ensures ok ==> Progress(f, route, done + [a], buf[..], dst, tab, seen) && dst <= at + Room(f, route, a)
  {
    ProgressIsPlaced(f, route, done, buf[..], at, tab0, seen0);
    hide Progress, Rebuilt, Room, FateOf, Usable, EncodeAttr, Written, Marked, AttrIndex;
    TurnProgresses(f, route, done, a, buf[..], at, tab0, seen0);
    tab, seen := Marked(tab0, a.code, at), seen0 || a.code == MP_REACH_NLRI_CODE;
    ok, dst := EmitAttr(f, route, a, octets, buf, at);
    if a.code == MP_UNREACH_NLRI_CODE && f.strip {
      tab := Marked(tab, a.code, OFFSET_NOT_FOUND);
    }
  }

  lemma TurnProgresses(f: MrtFlags, route: NetaddrAp, done: seq<Attr>, a: Attr, b: Bytes, at: nat, tab: seq<nat>,
                       seen: bool)
    requires Progress(f, route, done, b, at, tab, seen)
    requires ValidAttr(a) && (a.code == MP_REACH_NLRI_CODE ==> MpReachOk(f, a.data))
    requires at + Room(f, route, a) <= |b|
    ensures Usable(f, done + [a]) && Rebuilt(f, route, done + [a]).Some? == !FateOf(f, route, a).Refuse?
    ensures match FateOf(f, route, a)
            case Keep(x) =>
              && ValidAttr(x) && |EncodeAttr(x)| <= Room(f, route, a) && !(a.code == MP_UNREACH_NLRI_CODE && f.strip)
              && Progress(f, route, done + [a], Written(b, at, EncodeAttr(x)), at + |EncodeAttr(x)|,
                          Marked(tab, a.code, at), seen || a.code == MP_REACH_NLRI_CODE)
            case Strip =>
              && a.code == MP_UNREACH_NLRI_CODE && f.strip
              && Progress(f, route, done + [a], b, at, Marked(Marked(tab, a.code, at), a.code, OFFSET_NOT_FOUND), seen)
            case Refuse => true
  {
    RebuiltSnoc(f, route, done, a);
    KeptIsValid(f, route, a);
    var fate := FateOf(f, route, a);
    if fate.Keep? {
      KeepProgresses(f, route, done, a, b, at, tab, seen);
    } else if fate.Strip? {
      StripProgresses(f, route, done, a, b, at, tab, seen);
      var i := AttrIndex(a.code);
      assert tab[i := at][i := OFFSET_NOT_FOUND] == tab[i := OFFSET_NOT_FOUND];
    }
  }

  /** Reading on: the attribute at p is next, and what follows it is the rest. */
  ghost predicate Ahead(f: MrtFlags, route: NetaddrAp, data: Bytes, done: seq<Attr>, p: nat, room: nat)
    requires ValidRoute(route)
  {
    && p <= |data| && Starts(data, 0, |data|, p)
    && var s, rest := AttrsFrom(data, 0, |data|), AttrsFrom(data, p, |data|);
       && ValidAttrs(s) && Usable(f, s) && s == done + rest
       && ValidAttrs(rest) && Usable(f, rest) && TotalRoom(f, route, rest) == room
  }

  lemma AheadStart(f: MrtFlags, route: NetaddrAp, data: Bytes)
    requires RebuildableEntry(f, route, data)
    ensures Ahead(f, route, data, [], 0, TotalRoom(f, route, AttrsFrom(data, 0, |data|)))
  {
    assert [] + AttrsFrom(data, 0, |data|) == AttrsFrom(data, 0, |data|);
  }

  lemma AheadNext(f: MrtFlags, route: NetaddrAp, data: Bytes, done: seq<Attr>, p: nat, room: nat)
    requires ValidRoute(route) && Ahead(f, route, data, done, p, room)
    requires p < |data| && AttrFits(data, p, |data|)
    ensures var a := AttrAt(data, p);
            && ValidAttr(a) && data[p..AttrEnd(data, p)] == EncodeAttr(a)
            && (a.code == MP_REACH_NLRI_CODE ==> MpReachOk(f, a.data))
            && var tail := AttrsFrom(data, AttrEnd(data, p), |data|);
               && ValidAttrs(tail) && Usable(f, tail)
               && room == Room(f, route, a) + RoomAfter(f, route, a, tail)
               && Ahead(f, route, data, done + [a], AttrEnd(data, p), TotalRoom(f, route, tail))
  {
    var a, n := AttrAt(data, p), |data|;
    var rest := AttrsFrom(data, p, n);
    var tail := AttrsFrom(data, AttrEnd(data, p), n);
    assert rest == [a] + tail && rest[0] == a && rest[1..] == tail;
    assert ValidAttr(rest[0]);
    AttrIsItsOctets(data, p, n);
    StartsNext(data, 0, n, p);
    assert done + rest == (done + [a]) + tail;
  }

  lemma NotWhole(data: Bytes, p: nat)
    requires p < |data| && Starts(data, 0, |data|, p) && !AttrFits(data, p, |data|)
    ensures !WholeFrom(data, 0, |data|)
  {
    if WholeFrom(data, 0, |data|) {
      StartsApart(data, 0, |data|, p, |data|);
    }
  }

  lemma RefusedForGood(f: MrtFlags, route: NetaddrAp, data: Bytes, done: seq<Attr>, p: nat, room: nat)
    requires ValidRoute(route) && Ahead(f, route, data, done, p, room)
    requires Usable(f, done) && Rebuilt(f, route, done).None?
    ensures Rebuilt(f, route, AttrsFrom(data, 0, |data|)).None?
  {
    RefusedStays(f, route, done, AttrsFrom(data, p, |data|));
  }

  lemma AheadEnd(f: MrtFlags, route: NetaddrAp, data: Bytes, done: seq<Attr>, room: nat)
    requires ValidRoute(route) && Ahead(f, route, data, done, |data|, room)
    ensures WholeFrom(data, 0, |data|) && done == AttrsFrom(data, 0, |data|)
  {
    assert done + [] == done;
  }

  /** The invariant of the loop. */
  ghost predicate Copying(f: MrtFlags, route: NetaddrAp, data: Bytes, done: seq<Attr>, p: nat, b: Bytes, dst: nat,
                          tab: seq<nat>, seen: bool, room: nat)
  {
    && ValidRoute(route) && Ahead(f, route, data, done, p, room)
    && Progress(f, route, done, b, dst, tab, seen)
    && dst + room <= |b|
  }

  lemma CopyingStarts(f: MrtFlags, route: NetaddrAp, data: Bytes, b: Bytes, tab: seq<nat>)
    requires RebuildableEntry(f, route, data) && Progress(f, route, [], b, ATTRS, tab, false)
    ensures Copying(f, route, data, [], 0, b, ATTRS, tab, false, TotalRoom(f, route, AttrsFrom(data, 0, |data|)))
  {
    AheadStart(f, route, data);
  }

  /** One turn, the attribute at p being whole; when it is refused the entry is. */
  method CopyOne(f: MrtFlags, route: NetaddrAp, data: Bytes, p: nat, size: nat, buf: array<Byte>, at: nat,
                 tab0: seq<nat>, seen0: bool, ghost done: seq<Attr>, ghost room: nat)
    returns (ok: bool, dst: nat, tab: seq<nat>, seen: bool, ghost left: nat)
    requires Copying(f, route, data, done, p, buf[..], at, tab0, seen0, room)
    requires p < |data| && AttrFits(data, p, |data|) && p + size == AttrEnd(data, p)
    modifies buf
    ensures ok ==> Copying(f, route, data, done + [AttrAt(data, p)], p + size, buf[..], dst, tab, seen, left)
    ensures !ok ==> ValidAttrs(AttrsFrom(data, 0, |data|)) && Usable(f, AttrsFrom(data, 0, |data|))
                    && Rebuilt(f, route, AttrsFrom(data, 0, |data|)).None?
  {
    hide Progress, Rebuilt, Room, FateOf, AttrsFrom, TotalRoom, EncodeAttr, Starts, AttrAt;
    AheadNext(f, route, data, done, p, room);
    left := TotalRoom(f, route, AttrsFrom(data, AttrEnd(data, p), |data|));
    ok, dst, tab, seen := Turn(f, route, AttrAt(data, p), data[p..p + size], buf, at, tab0, seen0, done);
    if !ok {
      RefusedForGood(f, route, data, done + [AttrAt(data, p)], p + size, left);
    }
  }

  lemma CutShort(f: MrtFlags, route: NetaddrAp, data: Bytes, done: seq<Attr>, p: nat, b: Bytes, dst: nat,
                 tab: seq<nat>, seen: bool, room: nat)
    requires Copying(f, route, data, done, p, b, dst, tab, seen, room) && p < |data| && !AttrFits(data, p, |data|)
    ensures !WholeFrom(data, 0, |data|)
  {
    NotWhole(data, p);
  }

  lemma CopyingEnds(f: MrtFlags, route: NetaddrAp, data: Bytes, done: seq<Attr>, b: Bytes, dst: nat,
                    tab: seq<nat>, seen: bool, room: nat)
    requires Copying(f, route, data, done, |data|, b, dst, tab, seen, room)
    ensures var s := AttrsFrom(data, 0, |data|);
            && WholeFrom(data, 0, |data|) && Usable(f, s) && Rebuilt(f, route, s).Some?
            && Progress(f, route, s, b, dst, tab, seen)
            && dst + |NlriOf(f, route)| <= |b|
  {
    AheadEnd(f, route, data, done, room);
  }

  /** The loop at lines 397-572. */
  method CopyAttributes(f: MrtFlags, route: NetaddrAp, data: Bytes, buf: array<Byte>, tab0: seq<nat>)
    returns (ok: bool, dst: nat, tab: seq<nat>, seen: bool)
    requires RebuildableEntry(f, route, data) && Progress(f, route, [], buf[..], ATTRS, tab0, false)
    modifies buf
    ensures ok == (WholeFrom(data, 0, |data|) && Rebuilt(f, route, AttrsFrom(data, 0, |data|)).Some?)
    ensures ok ==> Progress(f, route, AttrsFrom(data, 0, |data|), buf[..], dst, tab, seen)
    ensures ok ==> dst + |NlriOf(f, route)| <= buf.Length
  {
    hide Progress, Rebuilt, AttrsFrom, TotalRoom, Room, Starts, AttrAt, EncodeRoute, ValidAttrs, Usable;
    ghost var done: seq<Attr>, room: nat := [], TotalRoom(f, route, AttrsFrom(data, 0, |data|));
    CopyingStarts(f, route, data, buf[..], tab0);
    var p, n := 0, |data|;
    ok, dst, tab, seen := true, ATTRS, tab0, false;
    while n > 0
      invariant p + n == |data| && ok && Copying(f, route, data, done, p, buf[..], dst, tab, seen, room)
    {
      var whole, size := SizeAt(data, p);
      if !whole {
        CutShort(f, route, data, done, p, buf[..], dst, tab, seen, room);
        return false, dst, tab, seen;
      }
      ok, dst, tab, seen, room := CopyOne(f, route, data, p, size, buf, dst, tab, seen, done, room);
      if !ok {
        return;
      }
      done, p, n := done + [AttrAt(data, p)], p + size, n - size;
    }
    CopyingEnds(f, route, data, done, buf[..], dst, tab, seen, room);
  }

  /** The bound checks at lines 400-418. */
  method SizeAt(data: Bytes, p: nat) returns (whole: bool, size: nat)
    requires p < |data|
    ensures whole == AttrFits(data, p, |data|)
    ensures whole ==> p + size == AttrEnd(data, p)
  {
    var n := |data| - p;
    if n < 3 {
      return false, 0;
    }
    var len: nat, hdrsize: nat := data[p + 2], 3;
    if Extended(data[p]) {
      if n < 4 {
        return false, 0;
      }
      len := 256 * len + data[p + 3];
      hdrsize := hdrsize + 1;
    }
    size := hdrsize + len;
    whole := n >= size;
  }

  // ---- The finished UPDATE -----------------------------------------------

  lemma SameOccurs(b: Bytes, c: Bytes, lo: nat, hi: nat, code: Byte, p: nat)
    requires SameUpTo(b, c, hi) && ATTRS <= lo <= hi <= |b| && Occurs(b, lo, hi, code, p)
    ensures Occurs(c, lo, hi, code, p)
  {
    StartsGrow(b, c, lo, hi, hi, p);
    SameAttr(b, c, p, hi, hi);
  }

  lemma SameTable(b: Bytes, c: Bytes, lo: nat, hi: nat, tab: seq<nat>)
    requires SameUpTo(b, c, hi) && ATTRS <= lo <= hi <= |b| && Complete(b, lo, hi, tab)
    ensures Complete(c, lo, hi, tab)
  {
    forall code: Byte | Notable(code) ensures Answers(c, lo, hi, code, tab[AttrIndex(code)]) {
      assert Answers(b, lo, hi, code, tab[AttrIndex(code)]);
      forall p: nat ensures Occurs(b, lo, hi, code, p) <==> Occurs(c, lo, hi, code, p) {
        if Occurs(b, lo, hi, code, p) {
          SameOccurs(b, c, lo, hi, code, p);
        }
        if Occurs(c, lo, hi, code, p) {
          SameOccurs(c, b, lo, hi, code, p);
        }
      }
    }
  }

  /** Lines 574-597, as far as the octets go: the length of the attributes, and
      the NLRI behind them. */
  ghost function Assembled(b: Bytes, dst: nat, nlri: Bytes): (c: Bytes)
    requires ATTRS <= dst && dst + |nlri| <= |b| && dst < 0x1_0000
  {
    Written(Written(b, ATTRS - 2, U16(dst - ATTRS)), dst, nlri)
  }

  lemma AssembledImage(b: Bytes, dst: nat, attrs: Bytes, nlri: Bytes)
    requires ATTRS <= dst && dst + |nlri| <= |b| && dst < 0x1_0000
    requires b[ATTRS..dst] == attrs && b[BASE_PACKET_LENGTH] == b[BASE_PACKET_LENGTH + 1] == 0
    ensures var c := Assembled(b, dst, nlri);
            c[19..dst + |nlri|] == Image([], attrs, nlri) && SameUpTo(b, c, dst)
    ensures HeaderOk(b) ==> HeaderOk(Assembled(b, dst, nlri))
  {
    var l := U16(dst - ATTRS);
    var b1 := Written(b, ATTRS - 2, l);
    var c, end := Assembled(b, dst, nlri), dst + |nlri|;
    WrittenAt(b, ATTRS - 2, l);
    WrittenElsewhere(b, ATTRS - 2, l, 19, 21);
    WrittenElsewhere(b, ATTRS - 2, l, ATTRS, dst);
    WrittenAt(b1, dst, nlri);
    WrittenElsewhere(b1, dst, nlri, 19, 21);
    WrittenElsewhere(b1, dst, nlri, 21, ATTRS);
    WrittenElsewhere(b1, dst, nlri, ATTRS, dst);
    SameSlice(b, c, dst);
    assert b[19..21] == [b[19], b[20]] == U16(0) + [];
    FieldsJoin(c, dst, end, l, attrs, nlri);
    ImageFromParts(c, 21, end, [], attrs, nlri);
    if HeaderOk(b) {
      HeaderKept(b, ATTRS - 2, l);
      HeaderKept(b1, dst, nlri);
    }
  }

  lemma FieldsJoin(c: Bytes, dst: nat, end: nat, l: Bytes, attrs: Bytes, nlri: Bytes)
    requires ATTRS <= dst <= end <= |c|
    requires c[21..ATTRS] == l && c[ATTRS..dst] == attrs && c[dst..end] == nlri
    ensures c[21..end] == l + attrs + nlri
  {
    assert c[21..end] == c[21..dst] + c[dst..end];
    assert c[21..dst] == c[21..ATTRS] + c[ATTRS..dst];
  }

  lemma SameSlice(b: Bytes, c: Bytes, n: nat)
    requires ATTRS <= n <= |b| == |c| && b[ATTRS..n] == c[ATTRS..n]
    ensures SameUpTo(b, c, n)
  {
    forall i | ATTRS <= i < n ensures b[i] == c[i] {
      assert b[i] == b[ATTRS..n][i - ATTRS] && c[i] == c[ATTRS..n][i - ATTRS];
    }
  }

  lemma AssembledHolds(f: MrtFlags, route: NetaddrAp, s: seq<Attr>, b: Bytes, dst: nat, tab: seq<nat>, seen: bool)
    requires Progress(f, route, s, b, dst, tab, seen)
    requires dst + |NlriOf(f, route)| <= |b|
    ensures var nlri := NlriOf(f, route);
            var u, c := Message(f, route, Rebuilt(f, route, s).value), Assembled(b, dst, nlri);
            Holds(f.addpath, Idle, u, Mem(c, dst + |nlri|, 0, 0, [])) && Complete(c, ATTRS, dst, tab)
  {
    var nlri, outs := NlriOf(f, route), Rebuilt(f, route, s).value;
    AssembledImage(b, dst, EncodeAttrs(outs), nlri);
    SameTable(b, Assembled(b, dst, nlri), ATTRS, dst, tab);
    NlriField(f, route);
  }

  lemma NlriField(f: MrtFlags, route: NetaddrAp)
    requires ValidRoute(route)
    ensures EncodeRoutes(f.addpath, [route]) == EncodeRoute(f.addpath, route)
  {
    assert EncodeRoutes(f.addpath, [route]) == EncodeRoute(f.addpath, route) + EncodeRoutes(f.addpath, []);
  }

  /** The whole of bgpfinish_r on a message that keeps its offset table. */
  lemma FinishedKeepsTable(f: MrtFlags, u: Update, m: Mem, dst: nat, tab: seq<nat>)
    requires Holds(f.addpath, Idle, u, m) && ATTRS <= dst <= |m.b| && Complete(m.b, ATTRS, dst, tab)
    ensures var c := Written(m.b, LENGTH_OFFSET, U16(m.pktlen));
            Carries(f.addpath, u, c, m.pktlen) && Complete(c, ATTRS, dst, tab)
  {
    var c := Written(m.b, LENGTH_OFFSET, U16(m.pktlen));
    Finished(f.addpath, u, m);
    assert SameUpTo(m.b, c, dst);
    SameTable(m.b, c, ATTRS, dst, tab);
  }

  lemma AttrsFill(ap: bool, u: Update, b: Bytes, pktlen: nat)
    requires Carries(ap, u, b, pktlen) && u.withdrawn == []
    ensures AttrsLo(b, pktlen) == ATTRS && AttrsHi(b, pktlen) == ATTRS + |EncodeAttrs(u.attribs)|
  {
    assert |b[21..AttrsLo(b, pktlen) - 2]| == 0;
    assert |b[AttrsLo(b, pktlen)..AttrsHi(b, pktlen)]| == |EncodeAttrs(u.attribs)|;
  }

  lemma FreshProgress(f: MrtFlags, route: NetaddrAp, b: Bytes, tab: seq<nat>)
    requires ValidRoute(route) && |b| == BGPBUFSIZ && HeaderOk(b)
    requires b[BASE_PACKET_LENGTH] == b[BASE_PACKET_LENGTH + 1] == 0
    requires |tab| == OFFTAB_SIZE && forall i :: 0 <= i < OFFTAB_SIZE ==> tab[i] == OFFSET_NOT_FOUND
    ensures Progress(f, route, [], b, ATTRS, tab, false)
  {
    assert b[ATTRS..ATTRS] == [];
  }

  lemma SeenMeans(f: MrtFlags, route: NetaddrAp, s: seq<Attr>, b: Bytes, dst: nat, tab: seq<nat>, seen: bool)
    requires Progress(f, route, s, b, dst, tab, seen)
    ensures seen == (CountCode(s, MP_REACH_NLRI_CODE) > 0)
  {
  }

  lemma SealedIs(f: MrtFlags, route: NetaddrAp, s: seq<Attr>, b: Bytes, dst: nat, tab: seq<nat>, seen: bool)
    requires Progress(f, route, s, b, dst, tab, seen) && dst + |NlriOf(f, route)| <= |b|
    ensures var pktlen := dst + |NlriOf(f, route)|;
            var c := Written(Assembled(b, dst, NlriOf(f, route)), LENGTH_OFFSET, U16(pktlen));
            && Carries(f.addpath, Message(f, route, Rebuilt(f, route, s).value), c, pktlen)
            && Complete(c, AttrsLo(c, pktlen), AttrsHi(c, pktlen), tab)
  {
    ProgressIsPlaced(f, route, s, b, dst, tab, seen);
    hide Progress, Complete, Holds, Carries, Assembled, EncodeRoute, EncodeAttrs, Written, Rebuilt;
    var pktlen := dst + |NlriOf(f, route)|;
    var u, a := Message(f, route, Rebuilt(f, route, s).value), Assembled(b, dst, NlriOf(f, route));
    AssembledHolds(f, route, s, b, dst, tab, seen);
    FinishedKeepsTable(f, u, Mem(a, pktlen, 0, 0, []), dst, tab);
    AttrsFill(f.addpath, u, Written(a, LENGTH_OFFSET, U16(pktlen)), pktlen);
  }

  /** The rest of the message and its length. */
  method SealRebuilt(f: MrtFlags, route: NetaddrAp, ghost s: seq<Attr>, buf: array<Byte>, dst: nat, offtab: seq<nat>,
                     ghost seen: bool) returns (pktlen: nat)
    requires Progress(f, route, s, buf[..], dst, offtab, seen)
    requires dst + |NlriOf(f, route)| <= buf.Length
    modifies buf
    ensures Carries(f.addpath, Message(f, route, Rebuilt(f, route, s).value), buf[..], pktlen)
    ensures Complete(buf[..], AttrsLo(buf[..], pktlen), AttrsHi(buf[..], pktlen), offtab)
  {
    ProgressIsPlaced(f, route, s, buf[..], dst, offtab, seen);
    SealedIs(f, route, s, buf[..], dst, offtab, seen);
    hide Progress, Complete, Carries, Assembled, EncodeRoute, EncodeAttrs, Written, Rebuilt, Usable, ValidAttrs;
    pktlen := Assemble(f.addpath, route, buf, dst);
    Memcpy(buf, LENGTH_OFFSET, U16(pktlen));
  }

  /** rebuildbgpfrommrt_r. */
  method Rebuild(flags: MrtFlags, route: NetaddrAp, data: Bytes)
    returns (ok: bool, buf: array<Byte>, pktlen: nat, offtab: seq<nat>)
    requires RebuildableEntry(Normal(flags), route, data)
    ensures fresh(buf) && buf.Length == BGPBUFSIZ
    ensures var f, s := Normal(flags), AttrsFrom(data, 0, |data|);
            && ok == (WholeFrom(data, 0, |data|) && Rebuilt(f, route, s).Some?
                      && (route.pfx.family == AF_INET6 ==> CountCode(s, MP_REACH_NLRI_CODE) > 0))
            && (ok ==>
                  && Carries(f.addpath, Message(f, route, Rebuilt(f, route, s).value), buf[..], pktlen)
                  && Complete(buf[..], AttrsLo(buf[..], pktlen), AttrsHi(buf[..], pktlen), offtab))
  {
    hide Progress, Rebuilt, Complete, AttrsFrom, WholeFrom, Carries, CountCode, EncodeRoute;
    var f := Normal(flags);
    buf := StartUpdate();
    pktlen := MIN_UPDATE_LENGTH;
    offtab := AllNotFound(OFFTAB_SIZE);
    FreshProgress(f, route, buf[..], offtab);
    var dst, seen;
    ok, dst, offtab, seen := CopyAttributes(f, route, data, buf, offtab);
    if !ok {
      return;
    }
    ghost var s := AttrsFrom(data, 0, |data|);
    SeenMeans(f, route, s, buf[..], dst, offtab, seen);
    if route.pfx.family == AF_INET6 && !seen {
      return false, buf, pktlen, offtab;
    }
    pktlen := SealRebuilt(f, route, s, buf, dst, offtab, seen);
  }

  function AllNotFound(n: nat): (t: seq<nat>)
    ensures |t| == n && forall i :: 0 <= i < n ==> t[i] == OFFSET_NOT_FOUND
  {
    if n == 0 then [] else [OFFSET_NOT_FOUND] + AllNotFound(n - 1)
  }

  /** setbgpwrite_r */
  method StartUpdate() returns (buf: array<Byte>)
    ensures fresh(buf) && buf.Length == BGPBUFSIZ && HeaderOk(buf[..])
    ensures buf[BASE_PACKET_LENGTH] == buf[BASE_PACKET_LENGTH + 1] == 0
  {
    buf := new Byte[BGPBUFSIZ](i => 0);
    Memcpy(buf, 0, MARKER);
    Memcpy(buf, 16, Zeros(7));
    ghost var b := buf[..];
    assert b[16..23] == Zeros(7);
    assert b[19] == b[16..23][3] && b[20] == b[16..23][4];
    Memcpy(buf, TYPE_OFFSET, [BGP_UPDATE]);
    assert buf[..][19..21] == b[19..21];
    assert buf[..][19] == buf[..][19..21][0] && buf[..][20] == buf[..][19..21][1];
  }

  /** Lines 574-599. */
  method Assemble(addpath: bool, route: NetaddrAp, buf: array<Byte>, dst: nat) returns (pktlen: nat)
    requires ValidRoute(route) && ATTRS <= dst <= buf.Length && dst < 0x1_0000
    requires route.pfx.family == AF_INET ==> dst + |EncodeRoute(addpath, route)| <= buf.Length
    modifies buf
    ensures var nlri := if route.pfx.family == AF_INET then EncodeRoute(addpath, route) else [];
            buf[..] == Assembled(old(buf[..]), dst, nlri) && pktlen == dst + |nlri|
  {
    Memcpy(buf, ATTRS - 2, U16(dst - ATTRS));
    pktlen := dst;
    if route.pfx.family == AF_INET {
      var id := if addpath then U32(route.pathid) else [];
      var n := NaddrSize(route.pfx.bitlen);
      assert EncodeRoute(addpath, route) == id + [route.pfx.bitlen] + route.pfx.bytes[..n];
      pktlen := Emit(buf, dst, id + [route.pfx.bitlen] + route.pfx.bytes[..n]);
    }
  }

  /** Attributes that are there once in the list are there once in its octets. */
  lemma {:induction false} OccurrencesCounted(b: Bytes, lo: nat, hi: nat, s: seq<Attr>, code: Byte)
    requires ValidAttrs(s) && ATTRS <= lo <= hi <= |b| && b[lo..hi] == EncodeAttrs(s)
    ensures WholeFrom(b, lo, hi)
    ensures CountCode(s, code) == 0 ==> Absent(b, lo, hi, code)
    ensures CountCode(s, code) <= 1 ==> AtMostOnce(b, lo, hi, code)
    decreases |s|
  {
    if s == [] {
      assert lo == hi;
    } else {
      var init, a := s[..|s| - 1], s[|s| - 1];
      assert s == init + [a];
      EncodeAttrsSnoc(init, a);
      var mid := lo + |EncodeAttrs(init)|;
      TwoParts(b, lo, hi, EncodeAttrs(init), EncodeAttr(a));
      OccurrencesCounted(b, lo, mid, init, code);
      OneMoreOccurrence(b, lo, mid, hi, a, code);
    }
  }

  lemma OneMoreOccurrence(b: Bytes, lo: nat, mid: nat, hi: nat, a: Attr, code: Byte)
    requires ValidAttr(a) && ATTRS <= lo <= mid && hi == mid + |EncodeAttr(a)| <= |b|
    requires b[mid..hi] == EncodeAttr(a) && WholeFrom(b, lo, mid)
    ensures WholeFrom(b, lo, hi)
    ensures code != a.code && Absent(b, lo, mid, code) ==> Absent(b, lo, hi, code)
    ensures code != a.code && AtMostOnce(b, lo, mid, code) ==> AtMostOnce(b, lo, hi, code)
    ensures code == a.code && Absent(b, lo, mid, code) ==> AtMostOnce(b, lo, hi, code)
  {
    assert Grown(b, b, lo, mid, a);
    GrownIsWhole(b, b, lo, mid, a);
    forall p: nat ensures Occurs(b, lo, hi, code, p) <==> Occurs(b, lo, mid, code, p) || (p == mid && code == a.code) {
      GrownOccurs(b, b, lo, mid, a, code, p);
    }
  }

  /** From an entry that does not repeat the code, the offset table that was
      filled while writing has what a scan of the UPDATE finds. */
  lemma PrefilledTableIsAScan(flags: MrtFlags, route: NetaddrAp, s: seq<Attr>, b: Bytes, pktlen: nat, tab: seq<nat>,
                              code: Byte)
    requires var f := Normal(flags);
             && ValidRoute(route) && Usable(f, s) && Rebuilt(f, route, s).Some?
             && Carries(f.addpath, Message(f, route, Rebuilt(f, route, s).value), b, pktlen)
    requires Complete(b, AttrsLo(b, pktlen), AttrsHi(b, pktlen), tab)
    requires CountCode(s, code) <= 1 && Notable(code)
    ensures var off := tab[AttrIndex(code)];
            Scan(b, AttrsLo(b, pktlen), AttrsHi(b, pktlen), code) == if off == OFFSET_NOT_FOUND then None else Some(off)
  {
    var f := Normal(flags);
    var outs, lo, hi := Rebuilt(f, route, s).value, AttrsLo(b, pktlen), AttrsHi(b, pktlen);
    AttrsFill(f.addpath, Message(f, route, outs), b, pktlen);
    OthersStayInOrder(f, route, s);
    OccurrencesCounted(b, lo, hi, outs, code);
    CompleteAgreesWithScan(b, lo, hi, tab, code);
  }
}
