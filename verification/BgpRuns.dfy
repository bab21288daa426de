/** Whole runs of the UPDATE writer, and what reading the result gives back. */
module BgpRuns {
  import opened Netaddr
  import opened BgpWire
  import opened BgpWriter
  import opened BgpAttribs
  import opened BgpMsg
  import opened Wrappers

  /** A route as read stands for a route as written: same length and octets,
      zero past them, and the same path identifier when there is one. */
  ghost predicate SameRoute(ap: bool, read: NetaddrAp, written: NetaddrAp)
    requires ValidRoute(written)
  {
    var n := NaddrSize(written.pfx.bitlen);
    && read.pfx == Netaddr(AF_INET, written.pfx.bitlen, written.pfx.bytes[..n] + Zeros(16 - n))
    && (ap ==> read.pathid == written.pathid)
  }

  ghost predicate SameRoutes(ap: bool, read: seq<NetaddrAp>, written: seq<NetaddrAp>)
    requires ValidRoutes(written)
  {
    |read| == |written| && forall i :: 0 <= i < |written| ==> SameRoute(ap, read[i], written[i])
  }

  /** Every state of the run fits the buffer it starts in. */
  ghost predicate RunFits(ap: bool, wr: Writer, ops: seq<Op>)
    decreases |ops|
  {
    && Fits(ap, wr.update)
    && (ops != [] ==> ValidOp(ops[0]) && RunFits(ap, Apply(wr, ops[0]), ops[1..]))
  }

  lemma RoomForPut(ap: bool, wr: Writer, op: Op, m: Mem)
    requires Holds(ap, wr.session, wr.update, m) && ValidOp(op) && Fits(ap, Apply(wr, op).update) && !wr.failed
    ensures op.PutWithdrawn? && wr.session == InWithdrawn ==>
              m.pktlen + |EncodeRoute(ap, op.route)| <= BGPBUFSIZ
    ensures op.PutNlri? && wr.session == InNlri ==>
              m.pktlen + |EncodeRoute(ap, op.route)| <= BGPBUFSIZ
    ensures op.PutAttrib? && wr.session == InAttribs ==>
              m.pktlen + |EncodeAttr(op.attr)| <= BGPBUFSIZ
  {
    match op
    case PutWithdrawn(r) => EncodeRoutesSnoc(ap, wr.update.withdrawn, r);
    case PutNlri(r) => EncodeRoutesSnoc(ap, wr.update.nlri, r);
    case PutAttrib(a) => EncodeAttrsSnoc(wr.update.attribs, a);
    case _ =>
  }

  method Perform(m: BgpMsg, op: Op)
    requires m.Valid() && m.flags.wr && ValidOp(op)
    requires Fits(m.flags.addpath, Apply(m.writer, op).update)
    modifies m, m.buf
    ensures m.Valid() && m.flags.wr && m.flags.addpath == old(m.flags.addpath)
    ensures m.writer == Apply(old(m.writer), op)
    ensures m.err == if old(m.err) != BGP_ENOERR then old(m.err) else if m.writer.failed then BGP_EINVOP else BGP_ENOERR
  {
    if m.err == BGP_ENOERR {
      RoomForPut(m.flags.addpath, m.writer, op, m.Memory());
    }
    var e;
    match op
    case StartWithdrawn => e := m.StartWithdrawn();
    case PutWithdrawn(r) => e := m.PutWithdrawn(r);
    case EndWithdrawn => e := m.EndWithdrawn();
    case StartAttribs => e := m.StartAttribs();
    case PutAttrib(a) => e := m.PutAttrib(a);
    case EndAttribs => e := m.EndAttribs();
    case StartNlri => e := m.StartNlri();
    case PutNlri(r) => e := m.PutNlri(r);
    case EndNlri => e := m.EndNlri();
  }

  method Replay(addpath: bool, ops: seq<Op>) returns (m: BgpMsg)
    requires RunFits(addpath, EMPTY, ops)
    ensures fresh(m) && fresh(m.buf) && m.Valid() && m.flags.wr && m.flags.addpath == addpath
    ensures m.writer == ApplyAll(EMPTY, ops)
  {
    m := new BgpMsg(addpath);
    var i := 0;
    while i < |ops|
      invariant i <= |ops| && fresh(m) && fresh(m.buf)
      invariant m.Valid() && m.flags.wr && m.flags.addpath == addpath
      invariant RunFits(addpath, m.writer, ops[i..])
      invariant ApplyAll(m.writer, ops[i..]) == ApplyAll(EMPTY, ops)
    {
      assert ops[i..][0] == ops[i] && ops[i..][1..] == ops[i + 1..];
      Perform(m, ops[i]);
      i := i + 1;
    }
  }

  /** Reading goes on, in the same message. */
  ghost predicate StillOpen(m: BgpMsg, addpath: bool, b: Bytes, pktlen: nat)
    reads m, m.buf
  {
    && m.Valid() && m.flags.rd && m.flags.addpath == addpath
    && m.err == BGP_ENOERR && m.buf[..] == b && m.pktlen == pktlen
  }

  ghost predicate RoutesLeft(m: BgpMsg, b: Bytes, left: seq<NetaddrAp>)
    reads m
  {
    m.uptr <= m.uend <= |b| && ReadRoutes(m.flags.addpath, m.pfxbuf, b, m.uptr, m.uend) == Some(left)
  }

  method TakeWithdrawn(m: BgpMsg, ghost b: Bytes, ghost left: seq<NetaddrAp>) returns (r: Option<NetaddrAp>)
    requires StillOpen(m, m.flags.addpath, b, m.pktlen) && m.flags.withdrn
    requires RoutesLeft(m, b, left)
    modifies m`uptr, m`pfxbuf, m`err, m`writer
    ensures StillOpen(m, m.flags.addpath, b, m.pktlen)
    ensures r.None? ==> left == []
    ensures r.Some? ==> left != [] && r.value == left[0] && m.uptr > old(m.uptr) && RoutesLeft(m, b, left[1..])
  {
    r := m.NextWithdrawn();
  }

  method OpenWithdrawn(m: BgpMsg, ghost u: Update) returns (ghost left: seq<NetaddrAp>)
    requires StillOpen(m, m.flags.addpath, m.buf[..], m.pktlen)
    requires Carries(m.flags.addpath, u, m.buf[..], m.pktlen)
    modifies m, m.buf
    ensures StillOpen(m, old(m.flags.addpath), old(m.buf[..]), old(m.pktlen)) && m.flags.withdrn
    ensures RoutesLeft(m, old(m.buf[..]), left) && SameRoutes(m.flags.addpath, left, u.withdrawn)
  {
    var e := m.StartWithdrawn();
    left := AllAsRead(m.flags.addpath, m.pfxbuf, u.withdrawn);
    RoutesReadBack(m.flags.addpath, m.pfxbuf, m.buf[..], m.uptr, m.uend, u.withdrawn);
  }

  method DrainWithdrawn(m: BgpMsg, ghost b: Bytes, ghost left: seq<NetaddrAp>) returns (rs: seq<NetaddrAp>)
    requires StillOpen(m, m.flags.addpath, b, m.pktlen) && m.flags.withdrn
    requires RoutesLeft(m, b, left)
    modifies m`uptr, m`pfxbuf, m`err, m`writer
    ensures StillOpen(m, m.flags.addpath, b, m.pktlen) && rs == left
    decreases |left|
  {
    var r := TakeWithdrawn(m, b, left);
    if r.None? {
      return [];
    }
    rs := DrainWithdrawn(m, b, left[1..]);
    rs := [r.value] + rs;
  }

  method ReadWithdrawn(m: BgpMsg, ghost u: Update) returns (rs: seq<NetaddrAp>)
    requires StillOpen(m, m.flags.addpath, m.buf[..], m.pktlen)
    requires Carries(m.flags.addpath, u, m.buf[..], m.pktlen)
    modifies m, m.buf
    ensures StillOpen(m, old(m.flags.addpath), old(m.buf[..]), old(m.pktlen))
    ensures SameRoutes(m.flags.addpath, rs, u.withdrawn)
  {
    ghost var all := OpenWithdrawn(m, u);
    rs := DrainWithdrawn(m, old(m.buf[..]), all);
    var e := m.EndWithdrawn();
  }

  method TakeNlri(m: BgpMsg, ghost b: Bytes, ghost left: seq<NetaddrAp>) returns (r: Option<NetaddrAp>)
    requires StillOpen(m, m.flags.addpath, b, m.pktlen) && m.flags.nlri
    requires RoutesLeft(m, b, left)
    modifies m`uptr, m`pfxbuf, m`err, m`writer
    ensures StillOpen(m, m.flags.addpath, b, m.pktlen)
    ensures r.None? ==> left == []
    ensures r.Some? ==> left != [] && r.value == left[0] && m.uptr > old(m.uptr) && RoutesLeft(m, b, left[1..])
  {
    r := m.NextNlri();
  }

  method OpenNlri(m: BgpMsg, ghost u: Update) returns (ghost left: seq<NetaddrAp>)
    requires StillOpen(m, m.flags.addpath, m.buf[..], m.pktlen)
    requires Carries(m.flags.addpath, u, m.buf[..], m.pktlen)
    modifies m, m.buf
    ensures StillOpen(m, old(m.flags.addpath), old(m.buf[..]), old(m.pktlen)) && m.flags.nlri
    ensures RoutesLeft(m, old(m.buf[..]), left) && SameRoutes(m.flags.addpath, left, u.nlri)
  {
    var e := m.StartNlri();
    left := AllAsRead(m.flags.addpath, m.pfxbuf, u.nlri);
    RoutesReadBack(m.flags.addpath, m.pfxbuf, m.buf[..], m.uptr, m.uend, u.nlri);
  }

  method DrainNlri(m: BgpMsg, ghost b: Bytes, ghost left: seq<NetaddrAp>) returns (rs: seq<NetaddrAp>)
    requires StillOpen(m, m.flags.addpath, b, m.pktlen) && m.flags.nlri
    requires RoutesLeft(m, b, left)
    modifies m`uptr, m`pfxbuf, m`err, m`writer
    ensures StillOpen(m, m.flags.addpath, b, m.pktlen) && rs == left
    decreases |left|
  {
    var r := TakeNlri(m, b, left);
    if r.None? {
      return [];
    }
    rs := DrainNlri(m, b, left[1..]);
    rs := [r.value] + rs;
  }

  method ReadNlri(m: BgpMsg, ghost u: Update) returns (rs: seq<NetaddrAp>)
    requires StillOpen(m, m.flags.addpath, m.buf[..], m.pktlen)
    requires Carries(m.flags.addpath, u, m.buf[..], m.pktlen)
    modifies m, m.buf
    ensures StillOpen(m, old(m.flags.addpath), old(m.buf[..]), old(m.pktlen))
    ensures SameRoutes(m.flags.addpath, rs, u.nlri)
  {
    ghost var all := OpenNlri(m, u);
    rs := DrainNlri(m, old(m.buf[..]), all);
    var e := m.EndNlri();
  }

  method TakeAttrib(m: BgpMsg, ghost b: Bytes, ghost left: seq<Attr>) returns (r: Option<Attr>)
    requires StillOpen(m, m.flags.addpath, b, m.pktlen) && m.flags.pattr
    requires AttrsLeft(m, b, left)
    modifies m`uptr, m`offtab, m`err, m`writer
    ensures StillOpen(m, m.flags.addpath, b, m.pktlen)
    ensures r.None? ==> left == []
    ensures r.Some? ==> left != [] && r.value == left[0] && AttrsLeft(m, b, left[1..])
  {
    var p := m.NextAttrib();
    return if p.Some? then Some(AttrAt(m.buf[..], p.value)) else None;
  }

  ghost predicate AttrsLeft(m: BgpMsg, b: Bytes, left: seq<Attr>)
    reads m
  {
    m.uptr <= m.uend <= |b| && BgpWire.ReadAttrs(b, m.uptr, m.uend) == Some(left)
  }

  method DrainAttribs(m: BgpMsg, ghost b: Bytes, ghost left: seq<Attr>) returns (s: seq<Attr>)
    requires StillOpen(m, m.flags.addpath, b, m.pktlen) && m.flags.pattr
    requires AttrsLeft(m, b, left)
    modifies m`uptr, m`offtab, m`err, m`writer
    ensures StillOpen(m, m.flags.addpath, b, m.pktlen) && s == left
    decreases |left|
  {
    var r := TakeAttrib(m, b, left);
    if r.None? {
      return [];
    }
    s := DrainAttribs(m, b, left[1..]);
    s := [r.value] + s;
  }

  method ReadAttribs(m: BgpMsg, ghost u: Update) returns (s: seq<Attr>)
    requires StillOpen(m, m.flags.addpath, m.buf[..], m.pktlen)
    requires Carries(m.flags.addpath, u, m.buf[..], m.pktlen)
    modifies m, m.buf
    ensures StillOpen(m, old(m.flags.addpath), old(m.buf[..]), old(m.pktlen))
    ensures s == u.attribs
  {
    var e := m.StartAttribs();
    AttrsReadBack(m.buf[..], m.uptr, m.uend, u.attribs);
    s := DrainAttribs(m, m.buf[..], u.attribs);
    e := m.EndAttribs();
  }

  /** Any run of sessions, in any order and with repeats, then bgpfinish_r, then
      three reads: each field gives back the list the run left in it. */
  method WriteThenRead(addpath: bool, ops: seq<Op>)
    returns (ok: bool, withdrawn: seq<NetaddrAp>, attribs: seq<Attr>, nlri: seq<NetaddrAp>)
    requires RunFits(addpath, EMPTY, ops)
    ensures ok == !ApplyAll(EMPTY, ops).failed
    ensures ok ==>
              var u := ApplyAll(EMPTY, ops).update;
              && ValidUpdate(u)
              && SameRoutes(addpath, withdrawn, u.withdrawn)
              && attribs == u.attribs
              && SameRoutes(addpath, nlri, u.nlri)
  {
    withdrawn, attribs, nlri := [], [], [];
    var m := Replay(addpath, ops);
    ghost var u := m.writer.update;
    var n := m.Finish();
    if n.None? {
      return false, withdrawn, attribs, nlri;
    }
    ok := true;
    nlri := ReadNlri(m, u);
    attribs := ReadAttribs(m, u);
    withdrawn := ReadWithdrawn(m, u);
  }
}
