/** Writing an UPDATE as an abstract machine, and what the packet buffer holds
    in each of its states (src/bgp.c). */
module BgpWriter {
  import opened Netaddr
  import opened BgpWire

  datatype Update = Update(withdrawn: seq<NetaddrAp>, attribs: seq<Attr>, nlri: seq<NetaddrAp>)

  datatype Session = Idle | InWithdrawn | InAttribs | InNlri

  datatype Writer = Writer(session: Session, update: Update, failed: bool)

  const EMPTY := Writer(Idle, Update([], [], []), false)

  datatype Op =
    | StartWithdrawn | PutWithdrawn(route: NetaddrAp) | EndWithdrawn
    | StartAttribs | PutAttrib(attr: Attr) | EndAttribs
    | StartNlri | PutNlri(route: NetaddrAp) | EndNlri

  ghost predicate ValidOp(op: Op) {
    match op
    case PutWithdrawn(r) => ValidRoute(r)
    case PutNlri(r) => ValidRoute(r)
    case PutAttrib(a) => ValidAttr(a)
    case _ => true
  }

  /** Starting a field ends the pending one and forgets what the field held. */
  function Started(wr: Writer, session: Session): Writer
    requires session != Idle
  {
    var u := wr.update;
    if wr.failed then wr
    else match session
      case InWithdrawn => Writer(session, u.(withdrawn := []), false)
      case InAttribs => Writer(session, u.(attribs := []), false)
      case _ => Writer(session, u.(nlri := []), false)
  }

  /** A put or an end is an error outside of its own session, and errors stay. */
  function Apply(wr: Writer, op: Op): Writer {
    var u := wr.update;
    match op
    case StartWithdrawn => Started(wr, InWithdrawn)
    case StartAttribs => Started(wr, InAttribs)
    case StartNlri => Started(wr, InNlri)
    case PutWithdrawn(r) =>
      if wr.failed || wr.session != InWithdrawn then wr.(failed := true)
      else wr.(update := u.(withdrawn := u.withdrawn + [r]))
    case PutAttrib(a) =>
      if wr.failed || wr.session != InAttribs then wr.(failed := true)
      else wr.(update := u.(attribs := u.attribs + [a]))
    case PutNlri(r) =>
      if wr.failed || wr.session != InNlri then wr.(failed := true)
      else wr.(update := u.(nlri := u.nlri + [r]))
    case EndWithdrawn => Ended(wr, InWithdrawn)
    case EndAttribs => Ended(wr, InAttribs)
    case EndNlri => Ended(wr, InNlri)
  }

  function Ended(wr: Writer, session: Session): Writer {
    if wr.failed || wr.session != session then wr.(failed := true) else wr.(session := Idle)
  }

  function ApplyAll(wr: Writer, ops: seq<Op>): Writer
    decreases |ops|
  {
    if ops == [] then wr else ApplyAll(Apply(wr, ops[0]), ops[1..])
  }

  // ---- The last list written to a field ----------------------------------

  /** The operations that write a list of withdrawn routes. */
  function WithdrawnSession(rs: seq<NetaddrAp>): seq<Op> {
    if rs == [] then [StartWithdrawn]
    else WithdrawnSession(rs[..|rs| - 1]) + [PutWithdrawn(rs[|rs| - 1])]
  }

  function AttribsSession(s: seq<Attr>): seq<Op> {
    if s == [] then [StartAttribs] else AttribsSession(s[..|s| - 1]) + [PutAttrib(s[|s| - 1])]
  }

  function NlriSession(rs: seq<NetaddrAp>): seq<Op> {
    if rs == [] then [StartNlri] else NlriSession(rs[..|rs| - 1]) + [PutNlri(rs[|rs| - 1])]
  }

  lemma {:induction false} ApplyAllConcat(wr: Writer, s: seq<Op>, t: seq<Op>)
    ensures ApplyAll(wr, s + t) == ApplyAll(ApplyAll(wr, s), t)
    decreases |s|
  {
    if s == [] {
      assert s + t == t;
    } else {
      assert (s + t)[1..] == s[1..] + t;
      ApplyAllConcat(Apply(wr, s[0]), s[1..], t);
    }
  }

  lemma {:induction false} FailureStays(wr: Writer, ops: seq<Op>)
    requires wr.failed
    ensures ApplyAll(wr, ops) == wr
  {
    if ops != [] {
      FailureStays(Apply(wr, ops[0]), ops[1..]);
    }
  }

  lemma {:induction false} WithdrawnSessionWrites(wr: Writer, rs: seq<NetaddrAp>)
    requires !wr.failed
    ensures ApplyAll(wr, WithdrawnSession(rs)) ==
            Writer(InWithdrawn, wr.update.(withdrawn := rs), false)
  {
    if rs == [] {
      assert ApplyAll(wr, [StartWithdrawn]) == ApplyAll(Apply(wr, StartWithdrawn), []);
    } else {
      var r := rs[|rs| - 1];
      WithdrawnSessionWrites(wr, rs[..|rs| - 1]);
      ApplyAllConcat(wr, WithdrawnSession(rs[..|rs| - 1]), [PutWithdrawn(r)]);
      var mid := ApplyAll(wr, WithdrawnSession(rs[..|rs| - 1]));
      assert ApplyAll(mid, [PutWithdrawn(r)]) == ApplyAll(Apply(mid, PutWithdrawn(r)), []);
      assert rs == rs[..|rs| - 1] + [r];
    }
  }

  lemma {:induction false} AttribsSessionWrites(wr: Writer, s: seq<Attr>)
    requires !wr.failed
    ensures ApplyAll(wr, AttribsSession(s)) == Writer(InAttribs, wr.update.(attribs := s), false)
  {
    if s == [] {
      assert ApplyAll(wr, [StartAttribs]) == ApplyAll(Apply(wr, StartAttribs), []);
    } else {
      var a := s[|s| - 1];
      AttribsSessionWrites(wr, s[..|s| - 1]);
      ApplyAllConcat(wr, AttribsSession(s[..|s| - 1]), [PutAttrib(a)]);
      var mid := ApplyAll(wr, AttribsSession(s[..|s| - 1]));
      assert ApplyAll(mid, [PutAttrib(a)]) == ApplyAll(Apply(mid, PutAttrib(a)), []);
      assert s == s[..|s| - 1] + [a];
    }
  }

  lemma {:induction false} NlriSessionWrites(wr: Writer, rs: seq<NetaddrAp>)
    requires !wr.failed
    ensures ApplyAll(wr, NlriSession(rs)) == Writer(InNlri, wr.update.(nlri := rs), false)
  {
    if rs == [] {
      assert ApplyAll(wr, [StartNlri]) == ApplyAll(Apply(wr, StartNlri), []);
    } else {
      var r := rs[|rs| - 1];
      NlriSessionWrites(wr, rs[..|rs| - 1]);
      ApplyAllConcat(wr, NlriSession(rs[..|rs| - 1]), [PutNlri(r)]);
      var mid := ApplyAll(wr, NlriSession(rs[..|rs| - 1]));
      assert ApplyAll(mid, [PutNlri(r)]) == ApplyAll(Apply(mid, PutNlri(r)), []);
      assert rs == rs[..|rs| - 1] + [r];
    }
  }

  /** A run that never starts a field, and is not in the middle of it, leaves
      the field alone, whatever it does to the other two. */
  lemma {:induction false} OtherSessionsKeepTheField(wr: Writer, ops: seq<Op>)
    ensures wr.session != InWithdrawn && StartWithdrawn !in ops ==>
              ApplyAll(wr, ops).update.withdrawn == wr.update.withdrawn
    ensures wr.session != InAttribs && StartAttribs !in ops ==>
              ApplyAll(wr, ops).update.attribs == wr.update.attribs
    ensures wr.session != InNlri && StartNlri !in ops ==>
              ApplyAll(wr, ops).update.nlri == wr.update.nlri
    decreases |ops|
  {
    if ops != [] {
      assert ops[0] in ops && forall op :: op in ops[1..] ==> op in ops;
      OtherSessionsKeepTheField(Apply(wr, ops[0]), ops[1..]);
    }
  }

  /** What a field holds after any run is the last list written to it: the run
      up to that session, and every session on the other fields before or after
      it, make no difference. */
  lemma LastListWritten(before: seq<Op>, rs: seq<NetaddrAp>, s: seq<Attr>, after: seq<Op>)
    requires !ApplyAll(EMPTY, before).failed
    ensures after != [] && after[0] in {EndWithdrawn, StartAttribs, StartNlri} && StartWithdrawn !in after ==>
              ApplyAll(EMPTY, before + WithdrawnSession(rs) + after).update.withdrawn == rs
    ensures after != [] && after[0] in {EndAttribs, StartWithdrawn, StartNlri} && StartAttribs !in after ==>
              ApplyAll(EMPTY, before + AttribsSession(s) + after).update.attribs == s
    ensures after != [] && after[0] in {EndNlri, StartWithdrawn, StartAttribs} && StartNlri !in after ==>
              ApplyAll(EMPTY, before + NlriSession(rs) + after).update.nlri == rs
  {
    var was := ApplyAll(EMPTY, before);
    if after != [] {
      forall session | session in [WithdrawnSession(rs), AttribsSession(s), NlriSession(rs)]
        ensures ApplyAll(EMPTY, before + session + after) ==
                ApplyAll(Apply(ApplyAll(was, session), after[0]), after[1..])
      {
        ApplyAllConcat(EMPTY, before + session, after);
        ApplyAllConcat(EMPTY, before, session);
      }
      WithdrawnSessionWrites(was, rs);
      AttribsSessionWrites(was, s);
      NlriSessionWrites(was, rs);
      assert forall op :: op in after[1..] ==> op in after;
      OtherSessionsKeepTheField(Apply(ApplyAll(was, WithdrawnSession(rs)), after[0]), after[1..]);
      OtherSessionsKeepTheField(Apply(ApplyAll(was, AttribsSession(s)), after[0]), after[1..]);
      OtherSessionsKeepTheField(Apply(ApplyAll(was, NlriSession(rs)), after[0]), after[1..]);
    }
  }

  // ---- The buffer --------------------------------------------------------

  ghost predicate ValidUpdate(u: Update) {
    ValidRoutes(u.withdrawn) && ValidAttrs(u.attribs) && ValidRoutes(u.nlri)
  }

  /** The octets of the whole message. */
  ghost function Size(ap: bool, u: Update): nat
    requires ValidUpdate(u)
  {
    MIN_UPDATE_LENGTH + |EncodeRoutes(ap, u.withdrawn)| + |EncodeAttrs(u.attribs)|
      + |EncodeRoutes(ap, u.nlri)|
  }

  /** The domain: the message fits the buffer it starts in. */
  ghost predicate Fits(ap: bool, u: Update) {
    ValidUpdate(u) && Size(ap, u) <= BGPBUFSIZ
  }

  ghost function Body(ap: bool, u: Update): Bytes
    requires Fits(ap, u)
  {
    Image(EncodeRoutes(ap, u.withdrawn), EncodeAttrs(u.attribs), EncodeRoutes(ap, u.nlri))
  }

  datatype Mem = Mem(b: Bytes, pktlen: nat, ustart: nat, uptr: nat, pres: Bytes)

  const MARKER: Bytes := [255, 255, 255, 255, 255, 255, 255, 255, 255, 255, 255, 255, 255, 255, 255, 255]

  /** The marker and the message type. */
  ghost predicate HeaderOk(b: Bytes)
    requires |b| >= BASE_PACKET_LENGTH
  {
    b[..16] == MARKER && b[TYPE_OFFSET] == BGP_UPDATE
  }

  ghost predicate Sized(ap: bool, u: Update, m: Mem) {
    && Fits(ap, u)
    && |m.b| == BGPBUFSIZ
    && HeaderOk(m.b)
    && m.pktlen == Size(ap, u)
  }

  /** What the buffer holds around and inside the open field. */
  ghost predicate Holds(ap: bool, session: Session, u: Update, m: Mem) {
    match session
    case Idle =>
      && Sized(ap, u, m)
      && m.b[19..m.pktlen] == Body(ap, u)
    case InWithdrawn =>
      && Sized(ap, u, m)
      && var w, a, n := EncodeRoutes(ap, u.withdrawn), EncodeAttrs(u.attribs), EncodeRoutes(ap, u.nlri);
      && m.ustart == 21 && m.uptr == 21 + |w|
      && m.b[21..m.uptr] == w
      && m.pres == U16(|a|) + a + n
    case InAttribs =>
      && Sized(ap, u, m)
      && var w, a, n := EncodeRoutes(ap, u.withdrawn), EncodeAttrs(u.attribs), EncodeRoutes(ap, u.nlri);
      && m.ustart == 23 + |w| && m.uptr == m.ustart + |a|
      && m.b[19..m.ustart - 2] == U16(|w|) + w
      && m.b[m.ustart..m.uptr] == a
      && m.pres == n
    case InNlri =>
      && Sized(ap, u, m)
      && var w, a := EncodeRoutes(ap, u.withdrawn), EncodeAttrs(u.attribs);
      && m.ustart == 23 + |w| + |a| && m.uptr == m.pktlen
      && m.b[19..m.pktlen] == Body(ap, u)
  }

  lemma EmptyHolds(ap: bool, b: Bytes)
    requires |b| == BGPBUFSIZ && HeaderOk(b)
    requires forall i :: 19 <= i < 23 ==> b[i] == 0
    ensures Holds(ap, Idle, EMPTY.update, Mem(b, MIN_UPDATE_LENGTH, 0, 0, []))
  {
    assert b[19..23] == Image([], [], []);
  }

  lemma HeaderKept(b: Bytes, at: nat, src: Bytes)
    requires |b| >= 19 && HeaderOk(b)
    requires 19 <= at && at + |src| <= |b|
    ensures HeaderOk(Written(b, at, src))
  {
  }

  /** While idle the field lengths are where the get functions look for them. */
  lemma IdleFields(ap: bool, u: Update, m: Mem)
    requires Holds(ap, Idle, u, m)
    ensures Framed(m.b, m.pktlen)
    ensures var w, a, n := EncodeRoutes(ap, u.withdrawn), EncodeAttrs(u.attribs), EncodeRoutes(ap, u.nlri);
            && BE16(m.b, 19) == |w| && BE16(m.b, 21 + |w|) == |a|
            && AttrsLo(m.b, m.pktlen) == 23 + |w| && AttrsHi(m.b, m.pktlen) == 23 + |w| + |a|
            && m.b[19..21 + |w|] == U16(|w|) + w && m.b[21..21 + |w|] == w
            && m.b[21 + |w|..m.pktlen] == U16(|a|) + a + n
            && m.b[23 + |w|..23 + |w| + |a|] == a
            && m.b[23 + |w| + |a|..m.pktlen] == n
  {
    var w, a, n := EncodeRoutes(ap, u.withdrawn), EncodeAttrs(u.attribs), EncodeRoutes(ap, u.nlri);
    ImageFields(m.b, m.pktlen, w, a, n);
  }

  lemma IdleIsFramed(ap: bool, u: Update, m: Mem)
    requires Holds(ap, Idle, u, m)
    ensures Framed(m.b, m.pktlen)
  {
    IdleFields(ap, u, m);
  }

  lemma StartedWithdrawn(ap: bool, u: Update, m: Mem, n: nat)
    requires Holds(ap, Idle, u, m) && n == BE16(m.b, 19)
    ensures 21 + n <= m.pktlen <= |m.b|
    ensures Holds(ap, InWithdrawn, u.(withdrawn := []),
                  Mem(m.b, m.pktlen - n, 21, 21, m.b[21 + n..m.pktlen]))
  {
    IdleFields(ap, u, m);
  }

  lemma StartedAttribs(ap: bool, u: Update, m: Mem, lo: nat, n: nat)
    requires Holds(ap, Idle, u, m) && Framed(m.b, m.pktlen)
    requires lo == AttrsLo(m.b, m.pktlen) && lo + n == AttrsHi(m.b, m.pktlen)
    ensures Holds(ap, InAttribs, u.(attribs := []),
                  Mem(m.b, m.pktlen - n, lo, lo, m.b[lo + n..m.pktlen]))
  {
    IdleFields(ap, u, m);
  }

  lemma ImageWithoutNlri(b: Bytes, pktlen: nat, w: Bytes, a: Bytes, n: Bytes)
    requires |w| < 0x1_0000 && |a| < 0x1_0000
    requires 23 + |w| + |a| + |n| == pktlen <= |b|
    requires b[19..pktlen] == Image(w, a, n)
    ensures b[19..pktlen - |n|] == Image(w, a, [])
  {
    var head := U16(|w|) + w + U16(|a|) + a;
    assert Image(w, a, n) == head + n;
    assert Image(w, a, []) == head;
    assert b[19..pktlen - |n|] == b[19..pktlen][..|head|];
  }

  lemma StartedNlri(ap: bool, u: Update, m: Mem, lo: nat)
    requires Holds(ap, Idle, u, m) && Framed(m.b, m.pktlen) && lo == AttrsHi(m.b, m.pktlen)
    ensures Holds(ap, InNlri, u.(nlri := []), Mem(m.b, lo, lo, lo, m.pres))
  {
    IdleFields(ap, u, m);
    var w, a, n := EncodeRoutes(ap, u.withdrawn), EncodeAttrs(u.attribs), EncodeRoutes(ap, u.nlri);
    ImageWithoutNlri(m.b, m.pktlen, w, a, n);
  }

  lemma Extends(b: Bytes, lo: nat, hi: nat, x: Bytes, y: Bytes)
    requires lo <= hi && hi + |y| <= |b| && b[lo..hi] == x
    ensures Written(b, hi, y)[lo..hi + |y|] == x + y
  {
    var r := Written(b, hi, y);
    WrittenAt(b, hi, y);
    assert r[lo..hi] == b[lo..hi];
    assert r[lo..hi + |y|] == r[lo..hi] + r[hi..hi + |y|];
  }

  /** Appending e at the cursor. */
  function Put(m: Mem, e: Bytes): Mem
    requires m.uptr + |e| <= |m.b|
  {
    Mem(m.b[..m.uptr] + e + m.b[m.uptr + |e|..], m.pktlen + |e|, m.ustart, m.uptr + |e|, m.pres)
  }

  lemma PutTwice(m: Mem, x: Bytes, y: Bytes)
    requires m.uptr + |x| + |y| <= |m.b|
    ensures Put(Put(m, x), y) == Put(m, x + y)
  {
    WrittenTwice(m.b, m.uptr, x, y);
  }

  lemma PutOneWithdrawn(ap: bool, u: Update, m: Mem, r: NetaddrAp)
    requires Holds(ap, InWithdrawn, u, m) && ValidRoute(r)
    requires m.pktlen + |EncodeRoute(ap, r)| <= BGPBUFSIZ
    ensures m.uptr + |EncodeRoute(ap, r)| <= BGPBUFSIZ
    ensures Holds(ap, InWithdrawn, u.(withdrawn := u.withdrawn + [r]), Put(m, EncodeRoute(ap, r)))
  {
    var e := EncodeRoute(ap, r);
    EncodeRoutesSnoc(ap, u.withdrawn, r);
    Extends(m.b, 21, m.uptr, EncodeRoutes(ap, u.withdrawn), e);
    HeaderKept(m.b, m.uptr, e);
  }

  lemma PutOneAttrib(ap: bool, u: Update, m: Mem, a: Attr)
    requires Holds(ap, InAttribs, u, m) && ValidAttr(a)
    requires m.pktlen + |EncodeAttr(a)| <= BGPBUFSIZ
    ensures m.uptr + |EncodeAttr(a)| <= BGPBUFSIZ
    ensures Holds(ap, InAttribs, u.(attribs := u.attribs + [a]), Put(m, EncodeAttr(a)))
  {
    var e := EncodeAttr(a);
    EncodeAttrsSnoc(u.attribs, a);
    Extends(m.b, m.ustart, m.uptr, EncodeAttrs(u.attribs), e);
    HeaderKept(m.b, m.uptr, e);
    WrittenElsewhere(m.b, m.uptr, e, 19, m.ustart - 2);
  }

  lemma ImageSnoc(w: Bytes, a: Bytes, n: Bytes, e: Bytes)
    requires |w| < 0x1_0000 && |a| < 0x1_0000
    ensures Image(w, a, n) + e == Image(w, a, n + e)
  {
    var head := U16(|w|) + w + U16(|a|) + a;
    assert (head + n) + e == head + (n + e);
  }

  lemma PutOneNlri(ap: bool, u: Update, m: Mem, r: NetaddrAp)
    requires Holds(ap, InNlri, u, m) && ValidRoute(r)
    requires m.pktlen + |EncodeRoute(ap, r)| <= BGPBUFSIZ
    ensures m.uptr + |EncodeRoute(ap, r)| <= BGPBUFSIZ
    ensures Holds(ap, InNlri, u.(nlri := u.nlri + [r]), Put(m, EncodeRoute(ap, r)))
  {
    var e := EncodeRoute(ap, r);
    EncodeRoutesSnoc(ap, u.nlri, r);
    Extends(m.b, 19, m.uptr, Body(ap, u), e);
    HeaderKept(m.b, m.uptr, e);
    ImageSnoc(EncodeRoutes(ap, u.withdrawn), EncodeAttrs(u.attribs), EncodeRoutes(ap, u.nlri), e);
  }

  /** The preserved tail goes behind the cursor, then the length goes before
      the field. */
  ghost function Closed(m: Mem): (b: Bytes)
    requires 2 <= m.ustart <= m.uptr && m.uptr + |m.pres| <= |m.b| && m.uptr - m.ustart < 0x1_0000
  {
    Written(Written(m.b, m.uptr, m.pres), m.ustart - 2, U16(m.uptr - m.ustart))
  }

  /** The octets from the length of the closed field to the end. */
  lemma ClosedField(m: Mem, x: Bytes)
    requires 2 <= m.ustart <= m.uptr && m.uptr + |m.pres| <= |m.b| && m.uptr - m.ustart < 0x1_0000
    requires m.b[m.ustart..m.uptr] == x
    ensures Closed(m)[m.ustart - 2..m.uptr + |m.pres|] == U16(|x|) + x + m.pres
    ensures Closed(m)[..m.ustart - 2] == m.b[..m.ustart - 2]
  {
    var b1 := Written(m.b, m.uptr, m.pres);
    Extends(m.b, m.ustart, m.uptr, x, m.pres);
    var b2 := Closed(m);
    WrittenAt(b1, m.ustart - 2, U16(|x|));
    WrittenElsewhere(b1, m.ustart - 2, U16(|x|), m.ustart, m.uptr + |m.pres|);
    var hi := m.uptr + |m.pres|;
    assert b2[m.ustart - 2..hi] == b2[m.ustart - 2..m.ustart] + b2[m.ustart..hi];
    assert b1[..m.ustart - 2] == m.b[..m.ustart - 2];
  }

  lemma ClosedWithdrawn(ap: bool, u: Update, m: Mem)
    requires Holds(ap, InWithdrawn, u, m)
    ensures 2 <= m.ustart <= m.uptr && m.uptr - m.ustart < 0x1_0000
    ensures m.uptr + |m.pres| == m.pktlen <= BGPBUFSIZ
    ensures Holds(ap, Idle, u, m.(b := Closed(m)))
  {
    var w, a, n := EncodeRoutes(ap, u.withdrawn), EncodeAttrs(u.attribs), EncodeRoutes(ap, u.nlri);
    ClosedField(m, w);
    assert U16(|w|) + w + m.pres == Image(w, a, n);
    HeaderKept(m.b, m.uptr, m.pres);
    HeaderKept(Written(m.b, m.uptr, m.pres), 19, U16(|w|));
  }

  /** Nothing follows the last field, so ending it writes nothing. */
  lemma ClosedNlri(ap: bool, u: Update, m: Mem)
    requires Holds(ap, InNlri, u, m)
    ensures Holds(ap, Idle, u, m)
  {
  }

  lemma ImageFromParts(b: Bytes, at: nat, end: nat, w: Bytes, a: Bytes, n: Bytes)
    requires |w| < 0x1_0000 && |a| < 0x1_0000 && 19 <= at <= end <= |b|
    requires b[19..at] == U16(|w|) + w && b[at..end] == U16(|a|) + a + n
    ensures b[19..end] == Image(w, a, n)
  {
    assert b[19..end] == b[19..at] + b[at..end];
    assert (U16(|w|) + w) + (U16(|a|) + a + n) == Image(w, a, n);
  }

  lemma ClosedAttribs(ap: bool, u: Update, m: Mem)
    requires Holds(ap, InAttribs, u, m)
    ensures 2 <= m.ustart <= m.uptr && m.uptr - m.ustart < 0x1_0000
    ensures m.uptr + |m.pres| == m.pktlen <= BGPBUFSIZ
    ensures Holds(ap, Idle, u, m.(b := Closed(m)))
  {
    var w, a, n := EncodeRoutes(ap, u.withdrawn), EncodeAttrs(u.attribs), EncodeRoutes(ap, u.nlri);
    ClosedField(m, a);
    var b := Closed(m);
    var at := m.ustart - 2;
    assert b[19..at] == b[..at][19..] == m.b[..at][19..] == m.b[19..at];
    ImageFromParts(b, at, m.pktlen, w, a, n);
    HeaderKept(m.b, m.uptr, m.pres);
    HeaderKept(Written(m.b, m.uptr, m.pres), at, U16(|a|));
  }

  // ---- The finished message ----------------------------------------------

  /** A finished message: marker, own length, type, and the three lists. */
  ghost predicate Carries(ap: bool, u: Update, b: Bytes, pktlen: nat) {
    && Fits(ap, u)
    && |b| == BGPBUFSIZ
    && HeaderOk(b)
    && BE16(b, LENGTH_OFFSET) == pktlen == Size(ap, u)
    && Framed(b, pktlen)
    && b[21..AttrsLo(b, pktlen) - 2] == EncodeRoutes(ap, u.withdrawn)
    && b[AttrsLo(b, pktlen)..AttrsHi(b, pktlen)] == EncodeAttrs(u.attribs)
    && b[AttrsHi(b, pktlen)..pktlen] == EncodeRoutes(ap, u.nlri)
  }

  lemma SealedHeader(b: Bytes, pktlen: nat)
    requires |b| == BGPBUFSIZ && HeaderOk(b) && pktlen <= BGPBUFSIZ
    ensures HeaderOk(Written(b, LENGTH_OFFSET, U16(pktlen)))
    ensures BE16(Written(b, LENGTH_OFFSET, U16(pktlen)), LENGTH_OFFSET) == pktlen
    ensures 19 <= pktlen ==> Written(b, LENGTH_OFFSET, U16(pktlen))[19..pktlen] == b[19..pktlen]
  {
    var r := Written(b, LENGTH_OFFSET, U16(pktlen));
    WrittenAt(b, LENGTH_OFFSET, U16(pktlen));
    WrittenElsewhere(b, LENGTH_OFFSET, U16(pktlen), 18, 19);
    assert r[18] == r[18..19][0] == b[18..19][0];
    BE16Reads(r, LENGTH_OFFSET, pktlen);
  }

  lemma IdleCarries(ap: bool, u: Update, m: Mem)
    requires Holds(ap, Idle, u, m) && BE16(m.b, LENGTH_OFFSET) == m.pktlen
    ensures Carries(ap, u, m.b, m.pktlen)
  {
    IdleFields(ap, u, m);
  }

  lemma Finished(ap: bool, u: Update, m: Mem)
    requires Holds(ap, Idle, u, m)
    ensures Carries(ap, u, Written(m.b, LENGTH_OFFSET, U16(m.pktlen)), m.pktlen)
  {
    SealedHeader(m.b, m.pktlen);
    IdleCarries(ap, u, m.(b := Written(m.b, LENGTH_OFFSET, U16(m.pktlen))));
  }
}
