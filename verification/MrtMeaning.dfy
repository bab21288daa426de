/** What a reader finds in an UPDATE that was rebuilt from a RIB entry (section
    4.3.4 of RFC 6396; rebuildbgpfrommrt_r in src/bgp.c). */
module MrtMeaning {
  import opened Netaddr
  import opened BgpWire
  import opened BgpWriter
  import opened BgpAttribs
  import opened BgpMsg
  import opened AsPath
  import opened MrtRoute
  import opened MrtRebuild
  import opened Wrappers

  // ---- Listed attributes are found ---------------------------------------

  /** Every attribute of a list that fills a field is somewhere in the field. */
  lemma {:induction false} ListedOccurs(b: Bytes, lo: nat, hi: nat, s: seq<Attr>, j: nat) returns (p: nat)
    requires ValidAttrs(s) && lo <= hi <= |b| && b[lo..hi] == EncodeAttrs(s) && j < |s|
    ensures Occurs(b, lo, hi, s[j].code, p) && AttrAt(b, p) == s[j]
    decreases j
  {
    FirstAttr(b, lo, hi, s);
    var q := lo + |EncodeAttr(s[0])|;
    AttrReadsBack(b, lo, hi, s[0]);
    if j == 0 {
      p := lo;
    } else {
      p := ListedOccurs(b, q, hi, s[1..], j - 1);
      OccursBefore(b, lo, q, hi, s[j].code, p);
    }
  }

  lemma OccursBefore(b: Bytes, lo: nat, q: nat, hi: nat, code: Byte, p: nat)
    requires lo <= q <= hi <= |b| && AttrFits(b, lo, hi) && AttrEnd(b, lo) == q && Occurs(b, q, hi, code, p)
    ensures Occurs(b, lo, hi, code, p)
  {
  }

  lemma {:induction false} CodeCounts(s: seq<Attr>, i: nat)
    requires i < |s|
    ensures CountCode(s, s[i].code) > 0
    decreases |s|
  {
    if i < |s| - 1 {
      CodeCounts(s[..|s| - 1], i);
    }
  }

  /** An attribute that is kept is in the rebuilt list, as it was kept. */
  lemma {:induction false} KeptIsListed(f: MrtFlags, route: NetaddrAp, s: seq<Attr>, i: nat) returns (j: nat)
    requires ValidRoute(route) && Usable(f, s) && Rebuilt(f, route, s).Some?
    requires i < |s| && FateOf(f, route, s[i]).Keep?
    ensures j < |Rebuilt(f, route, s).value| && Rebuilt(f, route, s).value[j] == FateOf(f, route, s[i]).attr
    decreases |s|
  {
    hide FateOf;
    var init := s[..|s| - 1];
    if i == |s| - 1 {
      j := |Rebuilt(f, route, init).value|;
    } else {
      j := KeptIsListed(f, route, init, i);
    }
  }

  /** A scan of the message finds exactly this attribute. */
  ghost predicate FoundIs(b: Bytes, pktlen: nat, a: Attr) {
    && Framed(b, pktlen)
    && var r := Scan(b, AttrsLo(b, pktlen), AttrsHi(b, pktlen), a.code);
       r.Some? && r.value <= |b| && AttrFits(b, r.value, |b|) && AttrAt(b, r.value) == a
  }

  /** What Rebuild promises of an entry with these attributes. */
  ghost predicate RebuiltFrom(f: MrtFlags, route: NetaddrAp, s: seq<Attr>, b: Bytes, pktlen: nat) {
    && ValidRoute(route) && Usable(f, s) && Rebuilt(f, route, s).Some?
    && Carries(f.addpath, Message(f, route, Rebuilt(f, route, s).value), b, pktlen)
  }

  lemma RebuiltFields(f: MrtFlags, route: NetaddrAp, s: seq<Attr>, b: Bytes, pktlen: nat)
    requires RebuiltFrom(f, route, s, b, pktlen)
    ensures Framed(b, pktlen) && AttrsLo(b, pktlen) == ATTRS && ValidAttrs(Rebuilt(f, route, s).value)
    ensures b[ATTRS..AttrsHi(b, pktlen)] == EncodeAttrs(Rebuilt(f, route, s).value)
  {
    hide Rebuilt, EncodeAttrs;
    AttrsFill(f.addpath, Message(f, route, Rebuilt(f, route, s).value), b, pktlen);
  }

  /** In a field that such a list fills, a scan finds what is there once. */
  lemma OnlyOneIsFound(b: Bytes, lo: nat, hi: nat, s: seq<Attr>, j: nat)
    requires ValidAttrs(s) && ATTRS <= lo <= hi <= |b| && b[lo..hi] == EncodeAttrs(s)
    requires j < |s| && CountCode(s, s[j].code) <= 1
    ensures var r := Scan(b, lo, hi, s[j].code);
            r.Some? && r.value <= |b| && AttrFits(b, r.value, |b|) && AttrAt(b, r.value) == s[j]
  {
    hide EncodeAttrs, CountCode, Scan;
    var p := ListedOccurs(b, lo, hi, s, j);
    OccurrencesCounted(b, lo, hi, s, s[j].code);
    FoundAgreesWithScan(b, lo, hi, s[j].code);
    assert Found(b, lo, hi, s[j].code, Some(p));
  }

  /** What is kept of an attribute that is not repeated is what a scan finds. */
  lemma KeptIsFound(f: MrtFlags, route: NetaddrAp, s: seq<Attr>, b: Bytes, pktlen: nat, i: nat)
    requires RebuiltFrom(f, route, s, b, pktlen)
    requires i < |s| && FateOf(f, route, s[i]).Keep? && CountCode(s, s[i].code) <= 1
    ensures FoundIs(b, pktlen, FateOf(f, route, s[i]).attr)
  {
    hide Carries, FateOf, Rebuilt, Scan, EncodeAttrs, AttrAt, CountCode, AttrFits;
    var j := KeptIsListed(f, route, s, i);
    RebuiltFields(f, route, s, b, pktlen);
    OthersStayInOrder(f, route, s);
    OnlyOneIsFound(b, ATTRS, AttrsHi(b, pktlen), Rebuilt(f, route, s).value, j);
  }

  // ---- The meaning of the entry ------------------------------------------

  /** The entry is taken to hold a full MP_REACH: a flag says so, or no flag says
      otherwise and its first octets are the address family IPv6, unicast. */
  predicate TakenAsFull(f: MrtFlags, data: Bytes) {
    f.full || (!f.std && |data| >= 3 && data[0] == 0 && data[1] == 2 && data[2] == 1)
  }

  /** The next hop of the entry: behind the family and its own length, or behind
      its length alone. */
  ghost predicate NextHopIs(f: MrtFlags, data: Bytes, nh: Bytes) {
    && |nh| < 256
    && if TakenAsFull(f, data) then |data| >= 4 + |nh| && data[3] == |nh| && data[4..4 + |nh|] == nh
       else data == [|nh|] + nh
  }

  lemma NextHopThere(f: MrtFlags, data: Bytes)
    requires MpReachOk(f, data)
    ensures var nh := NextHopField(f, data)[1..];
            NextHopIs(f, data, nh) && NextHopField(f, data) == [|nh|] + nh
  {
    assert TakenAsFull(f, data) == !Truncated(f, data);
    var n := NextHopField(f, data);
    assert n == [n[0]] + n[1..];
  }

  /** An entry with a full MP_REACH, and one with the next hop alone. */
  lemma NextHopOfEntry(f: MrtFlags, nh: Bytes, afi: Byte, safi: Byte, rest: Bytes)
    requires |nh| < 256
    ensures var full := [0, afi, safi, |nh|] + nh + rest;
            f.full || (!f.std && afi == 2 && safi == 1) ==>
              MpReachOk(f, full) && NextHopField(f, full) == [|nh|] + nh
    ensures var short := [|nh|] + nh;
            !f.full && (f.std || |nh| >= 2) ==>
              MpReachOk(f, short) && NextHopField(f, short) == short
  {
    var full := [0, afi, safi, |nh|] + nh + rest;
    assert full[3..4 + |nh|] == [|nh|] + nh;
  }

  /** MP_REACH as written: the family of the route, unicast, the next hop with
      its length, a reserved octet, and the route as the only prefix. */
  ghost function Announcement(f: MrtFlags, route: NetaddrAp, nh: Bytes): Bytes
    requires ValidRoute(route) && |nh| < 256
  {
    [0, if route.pfx.family == AF_INET6 then 2 else 1, 1, |nh|] + nh + [0] + EncodeRoute(f.addpath, route)
  }

  /** ... with the next hop of the entry, and a length in two octets if it needs
      them; getmpnlri finds the route. */
  ghost predicate Announces(f: MrtFlags, route: NetaddrAp, entry: Attr, a: Attr)
    requires ValidRoute(route)
  {
    exists nh :: NextHopIs(f, entry.data, nh)
      && a == Attr(if |Announcement(f, route, nh)| > 255 then 0x90 else 0x80, 14, Announcement(f, route, nh))
      && MpNlri(a.data) == Some(EncodeRoute(f.addpath, route))
  }

  /** Where the data of the attribute at p lies. */
  function DataAt(b: Bytes, p: nat): Span
    requires p <= |b| && AttrFits(b, p, |b|)
  {
    Span(p + HdrSize(b[p]), AttrEnd(b, p))
  }

  lemma NarrowedIsFound(f: MrtFlags, route: NetaddrAp, s: seq<Attr>, b: Bytes, pktlen: nat, i: nat, segs: seq<Seg>)
    requires ValidRoute(route) && Usable(f, s) && Rebuilt(f, route, s).Some?
    requires RebuiltFrom(f, route, s, b, pktlen) && !f.asn32 && !f.legacy
    requires i < |s| && s[i].code == AS_PATH_CODE && CountCode(s, s[i].code) <= 1
    requires ValidPath(4, segs) && s[i].data == EncodePath(4, segs)
    ensures SmallPath(segs) && FoundIs(b, pktlen, s[i].(data := EncodePath(2, segs)))
  {
    hide FoundIs, RebuiltFrom, Narrow, EncodePath, ValidPath;
    var d := s[i].data;
    assert d[0..|d|] == d;
    NarrowKeepsThePath(d, 0, |d|, segs);
    NotRefused(f, route, s, i);
    KeptIsFound(f, route, s, b, pktlen, i);
  }

  /** When the entry is rebuilt none of its attributes was refused. */
  lemma {:induction false} NotRefused(f: MrtFlags, route: NetaddrAp, s: seq<Attr>, i: nat)
    requires ValidRoute(route) && Usable(f, s) && Rebuilt(f, route, s).Some? && i < |s|
    ensures !FateOf(f, route, s[i]).Refuse?
    decreases |s|
  {
    hide FateOf;
    if i < |s| - 1 {
      NotRefused(f, route, s[..|s| - 1], i);
    }
  }

  /** What a scan for the code of an attribute of the entry finds in the UPDATE:
      for MP_REACH, the next hop of the entry and the route; for an AS_PATH of
      32-bit numbers that is narrowed, the same path, where an iteration over
      paths can read it; for any other attribute, the attribute itself, or nothing
      for an MP_UNREACH that is stripped. */
  ghost predicate Means(f: MrtFlags, route: NetaddrAp, entry: Attr, b: Bytes, r: Option<nat>)
    requires ValidRoute(route) && (entry.code == MP_REACH_NLRI_CODE ==> MpReachOk(f, entry.data))
  {
    var code := entry.code;
    if code == 15 && f.strip then r == None
    else
      && r.Some? && r.value <= |b| && AttrFits(b, r.value, |b|)
      && var a := AttrAt(b, r.value);
         if code == 14 then Announces(f, route, entry, a)
         else if code == 2 && !f.asn32 && !f.legacy then
           && (exists segs :: ValidPath(4, segs) && entry.data == EncodePath(4, segs))
           && (forall segs :: ValidPath(4, segs) && entry.data == EncodePath(4, segs) ==>
                 SamePath(b, r.value, entry, segs))
         else a == entry
  }

  ghost predicate SamePath(b: Bytes, p: nat, entry: Attr, segs: seq<Seg>)
    requires p <= |b| && AttrFits(b, p, |b|)
  {
    && SmallPath(segs) && AttrAt(b, p) == entry.(data := EncodePath(2, segs))
    && PathAt(b, DataAt(b, p), 2, segs)
  }

  /** A rebuilt UPDATE means what the entry means, attribute by attribute that
      the entry does not repeat. The NLRI field is the route if that is an IPv4
      one, and empty if it is an IPv6 one. */
  lemma RebuiltMeansTheEntry(f: MrtFlags, route: NetaddrAp, s: seq<Attr>, b: Bytes, pktlen: nat)
    requires RebuiltFrom(f, route, s, b, pktlen)
    ensures Framed(b, pktlen)
    ensures b[AttrsHi(b, pktlen)..pktlen] == if route.pfx.family == AF_INET then EncodeRoute(f.addpath, route) else []
    ensures forall i :: 0 <= i < |s| && CountCode(s, s[i].code) <= 1 ==>
              Means(f, route, s[i], b, Scan(b, AttrsLo(b, pktlen), AttrsHi(b, pktlen), s[i].code))
  {
    NlriField(f, route);
    forall i | 0 <= i < |s| && CountCode(s, s[i].code) <= 1
      ensures Means(f, route, s[i], b, Scan(b, AttrsLo(b, pktlen), AttrsHi(b, pktlen), s[i].code))
    {
      OneMeans(f, route, s, b, pktlen, i);
    }
  }

  lemma OneMeans(f: MrtFlags, route: NetaddrAp, s: seq<Attr>, b: Bytes, pktlen: nat, i: nat)
    requires RebuiltFrom(f, route, s, b, pktlen)
    requires i < |s| && CountCode(s, s[i].code) <= 1
    ensures Framed(b, pktlen)
    ensures Means(f, route, s[i], b, Scan(b, AttrsLo(b, pktlen), AttrsHi(b, pktlen), s[i].code))
  {
    hide Rebuilt, Scan, AttrAt, Announces, Narrow, SamePath, Carries, CountCode, AttrFits;
    RebuiltFields(f, route, s, b, pktlen);
    NotRefused(f, route, s, i);
    var code, r := s[i].code, Scan(b, AttrsLo(b, pktlen), AttrsHi(b, pktlen), s[i].code);
    if code == MP_UNREACH_NLRI_CODE && f.strip {
      StrippedIsAbsent(f, route, s, b, pktlen);
    } else {
      KeptIsFound(f, route, s, b, pktlen, i);
      if code == MP_REACH_NLRI_CODE {
        RebuiltAnnounces(f, route, s[i]);
      } else if code == AS_PATH_CODE && !f.asn32 && !f.legacy {
        NotNarrowedInVain(f, route, s[i]);
        forall segs | ValidPath(4, segs) && s[i].data == EncodePath(4, segs)
          ensures SamePath(b, r.value, s[i], segs)
        {
          NarrowedIsFound(f, route, s, b, pktlen, i, segs);
          PathIsThere(b, r.value, s[i], segs);
        }
      }
    }
  }

  /** An AS_PATH that is narrowed is a path. */
  lemma NotNarrowedInVain(f: MrtFlags, route: NetaddrAp, entry: Attr)
    requires ValidRoute(route) && entry.code == AS_PATH_CODE && !f.asn32 && !f.legacy
    requires !FateOf(f, route, entry).Refuse?
    ensures exists segs :: ValidPath(4, segs) && entry.data == EncodePath(4, segs)
  {
    var d := entry.data;
    var segs := NarrowedIsAPath(d, 0, |d|);
    assert d[0..|d|] == d;
  }

  lemma RebuiltAnnounces(f: MrtFlags, route: NetaddrAp, entry: Attr)
    requires ValidRoute(route) && MpReachOk(f, entry.data)
    ensures Announces(f, route, entry, RebuiltMpReach(f, route, entry.data))
  {
    NextHopThere(f, entry.data);
    MpReachGivesTheRoute(f, route, entry.data);
    var nh := NextHopField(f, entry.data)[1..];
    assert MpReachData(f, route, entry.data) == Announcement(f, route, nh);
    assert NextHopIs(f, entry.data, nh);
  }

  lemma PathIsThere(b: Bytes, p: nat, entry: Attr, segs: seq<Seg>)
    requires p <= |b| && AttrFits(b, p, |b|) && SmallPath(segs)
    requires AttrAt(b, p) == entry.(data := EncodePath(2, segs))
    ensures SamePath(b, p, entry, segs)
  {
  }

  lemma StrippedIsAbsent(f: MrtFlags, route: NetaddrAp, s: seq<Attr>, b: Bytes, pktlen: nat)
    requires RebuiltFrom(f, route, s, b, pktlen) && f.strip
    ensures Framed(b, pktlen)
    ensures Scan(b, AttrsLo(b, pktlen), AttrsHi(b, pktlen), MP_UNREACH_NLRI_CODE) == None
  {
    RebuiltFields(f, route, s, b, pktlen);
    var outs, lo, hi := Rebuilt(f, route, s).value, AttrsLo(b, pktlen), AttrsHi(b, pktlen);
    OthersStayInOrder(f, route, s);
    OccurrencesCounted(b, lo, hi, outs, MP_UNREACH_NLRI_CODE);
    ScanFindsTheFirst(b, lo, hi, MP_UNREACH_NLRI_CODE);
  }

  /** A legacy table dump overrides the other flags: 16-bit numbers, no path
      identifiers, and a full MP_REACH. */
  lemma LegacyOverrides(f: MrtFlags)
    ensures var n := Normal(f);
            && n.asn32 == (f.asn32 && !f.legacy) && n.addpath == (f.addpath && !f.legacy)
            && n.std == (f.std && !f.legacy) && n.full == (f.full || f.legacy)
            && n.strip == f.strip && n.legacy == f.legacy
  {
  }

  // ---- The message, open for reading -------------------------------------

  /** Rebuilds an UPDATE and opens it: the message comes with its table filled,
      and a seek in it finds what a scan finds. */
  method RebuildAndSeek(flags: MrtFlags, route: NetaddrAp, data: Bytes, code: Byte)
    returns (ok: bool, m: BgpMsg, r: Option<nat>)
    requires RebuildableEntry(Normal(flags), route, data) && Notable(code)
    ensures fresh(m) && m.Valid()
    ensures var f, s := Normal(flags), AttrsFrom(data, 0, |data|);
            && ok == (WholeFrom(data, 0, |data|) && Rebuilt(f, route, s).Some?
                      && (route.pfx.family == AF_INET6 ==> CountCode(s, MP_REACH_NLRI_CODE) > 0))
            && (ok ==>
                  && m.flags.rd && m.err == BGP_ENOERR && RebuiltFrom(f, route, s, m.buf[..], m.pktlen)
                  && (CountCode(s, code) <= 1 ==>
                        r == Scan(m.buf[..], AttrsLo(m.buf[..], m.pktlen), AttrsHi(m.buf[..], m.pktlen), code)))
  {
    var buf, pktlen, offtab;
    ok, buf, pktlen, offtab := Rebuild(flags, route, data);
    if !ok {
      m := new BgpMsg(false);
      return false, m, None;
    }
    ghost var f, s, b := Normal(flags), AttrsFrom(data, 0, |data|), buf[..];
    ghost var u := Message(f, route, Rebuilt(f, route, s).value);
    FinishedIsReadable(f.addpath, u, b, pktlen);
    CompleteIsTableOk(b, AttrsLo(b, pktlen), AttrsHi(b, pktlen), offtab);
    m := new BgpMsg.Opened(buf, pktlen, Normal(flags).addpath, offtab);
    r := m.Seek(code);
    if CountCode(s, code) <= 1 {
      SeekIsScan(f, route, s, b, pktlen, code, r);
    }
  }

  lemma SeekIsScan(f: MrtFlags, route: NetaddrAp, s: seq<Attr>, b: Bytes, pktlen: nat, code: Byte, r: Option<nat>)
    requires RebuiltFrom(f, route, s, b, pktlen) && CountCode(s, code) <= 1
    requires Framed(b, pktlen) && Found(b, AttrsLo(b, pktlen), AttrsHi(b, pktlen), code, r)
    ensures r == Scan(b, AttrsLo(b, pktlen), AttrsHi(b, pktlen), code)
  {
    RebuiltFields(f, route, s, b, pktlen);
    var outs, lo, hi := Rebuilt(f, route, s).value, AttrsLo(b, pktlen), AttrsHi(b, pktlen);
    OthersStayInOrder(f, route, s);
    OccurrencesCounted(b, lo, hi, outs, code);
    FoundAgreesWithScan(b, lo, hi, code);
  }
}
