/** Seeks and a read iteration interleaved on one message: when the offset table
    answers what a plain scan would (seekbgpattr and nextbgpattrib_r in
    src/bgp.c). */
module BgpSeeks {
  import opened BgpWire
  import opened BgpWriter
  import opened BgpAttribs
  import opened BgpMsg
  import opened Wrappers

  // ---- Runs --------------------------------------------------------------

  datatype ReadOp = StartRead | NextRead | EndRead | SeekCode(code: Byte)

  /** The offset table, the iteration in progress, and whether an operation was
      out of session. */
  datatype Reader = Reader(tab: seq<nat>, cursor: Option<nat>, failed: bool)

  ghost predicate ValidRead(op: ReadOp) {
    op.SeekCode? ==> Notable(op.code)
  }

  ghost predicate ValidReads(ops: seq<ReadOp>) {
    forall i :: 0 <= i < |ops| ==> ValidRead(ops[i])
  }

  /** What makes sense as a state of a reader of the list from lo to hi. */
  ghost predicate Placed(b: Bytes, lo: nat, hi: nat, rd: Reader) {
    && lo <= hi <= |b| && |rd.tab| == OFFTAB_SIZE
    && (rd.cursor.Some? ==> lo <= rd.cursor.value <= hi)
  }

  /** One operation, on a list that is whole. */
  ghost function Does(b: Bytes, lo: nat, hi: nat, rd: Reader, op: ReadOp): (r: Reader)
    requires Placed(b, lo, hi, rd) && ValidRead(op)
    ensures Placed(b, lo, hi, r)
  {
    if rd.failed then rd
    else match op
      case StartRead => rd.(cursor := Some(lo))
      case NextRead =>
        if rd.cursor.None? then rd.(failed := true)
        else if rd.cursor.value == hi then rd
        else if !AttrFits(b, rd.cursor.value, hi) then rd.(failed := true)
        else Reader(Noted(b, rd.cursor.value, rd.tab), Some(AttrEnd(b, rd.cursor.value)), false)
      case EndRead => if rd.cursor.None? then rd.(failed := true) else rd.(cursor := None)
      case SeekCode(code) => rd.(tab := Sought(b, lo, hi, rd.tab, code))
  }

  ghost function After(b: Bytes, lo: nat, hi: nat, rd: Reader, ops: seq<ReadOp>): (r: Reader)
    requires Placed(b, lo, hi, rd) && ValidReads(ops)
    ensures Placed(b, lo, hi, r)
    decreases |ops|
  {
    if ops == [] then rd else After(b, lo, hi, Does(b, lo, hi, rd, ops[0]), ops[1..])
  }

  /** A message just opened: nothing known, nothing in progress. */
  const FRESH := Reader(Zeros(OFFTAB_SIZE), None, false)

  // ---- Seeks are right ---------------------------------------------------

  lemma {:induction false} WalkedOk(b: Bytes, lo: nat, hi: nat, p: nat, tab: seq<nat>, code: Byte)
    requires 0 < lo <= p <= hi <= |b| && Starts(b, lo, hi, p) && WholeFrom(b, lo, hi)
    requires |tab| == OFFTAB_SIZE && TableOk(b, lo, hi, tab) && SeenBefore(b, lo, hi, p, tab) && Notable(code)
    ensures var t := Walked(b, p, hi, tab, code);
            TableOk(b, lo, hi, t) && (t[AttrIndex(code)] == 0 ==> SeenBefore(b, lo, hi, hi, t))
    decreases hi - p
  {
    hide TableOk, SeenBefore, Starts, Occurs;
    if p < hi {
      ScanStep(b, lo, hi, p, tab);
      NotedOk(b, lo, hi, tab, p);
      StartsNext(b, lo, hi, p);
      if b[p + 1] != code {
        WalkedOk(b, lo, hi, AttrEnd(b, p), Noted(b, p, tab), code);
      }
    }
  }

  /** A seek keeps the table right, and its answer is right. */
  lemma SoughtOk(b: Bytes, lo: nat, hi: nat, tab: seq<nat>, code: Byte)
    requires 0 < lo <= hi <= |b| && hi <= OFFSET_NOT_FOUND && WholeFrom(b, lo, hi)
    requires TableOk(b, lo, hi, tab) && Notable(code)
    ensures TableOk(b, lo, hi, Sought(b, lo, hi, tab, code))
    ensures Found(b, lo, hi, code, Answer(Sought(b, lo, hi, tab, code), code))
  {
    var t := Sought(b, lo, hi, tab, code);
    if tab[AttrIndex(code)] == 0 {
      SeenAtStart(b, lo, hi, tab);
      WalkedOk(b, lo, hi, lo, tab, code);
      if Walked(b, lo, hi, tab, code)[AttrIndex(code)] == 0 {
        RemappedOk(b, lo, hi, Walked(b, lo, hi, tab, code));
      }
    }
    assert EntryOk(b, lo, hi, code, t[AttrIndex(code)]);
  }

  /** What every run keeps. */
  ghost predicate ReaderOk(b: Bytes, lo: nat, hi: nat, rd: Reader) {
    && Placed(b, lo, hi, rd) && TableOk(b, lo, hi, rd.tab)
    && (rd.cursor.Some? ==> Starts(b, lo, hi, rd.cursor.value))
  }

  lemma DoesKeeps(b: Bytes, lo: nat, hi: nat, rd: Reader, op: ReadOp)
    requires 0 < lo <= hi <= |b| && hi <= OFFSET_NOT_FOUND && WholeFrom(b, lo, hi)
    requires ReaderOk(b, lo, hi, rd) && ValidRead(op)
    ensures ReaderOk(b, lo, hi, Does(b, lo, hi, rd, op))
  {
    hide TableOk, Starts, Sought, Noted;
    if op.SeekCode? {
      SoughtOk(b, lo, hi, rd.tab, op.code);
    } else if op.NextRead? && rd.cursor.Some? && rd.cursor.value < hi && AttrFits(b, rd.cursor.value, hi) {
      NotedOk(b, lo, hi, rd.tab, rd.cursor.value);
      StartsNext(b, lo, hi, rd.cursor.value);
    } else if op.StartRead? {
      StartsAtOnce(b, lo, hi);
    }
  }

  lemma StartsAtOnce(b: Bytes, lo: nat, hi: nat)
    requires lo <= hi <= |b|
    ensures Starts(b, lo, hi, lo)
  {
  }

  lemma {:induction false} RunKeeps(b: Bytes, lo: nat, hi: nat, rd: Reader, ops: seq<ReadOp>)
    requires 0 < lo <= hi <= |b| && hi <= OFFSET_NOT_FOUND && WholeFrom(b, lo, hi)
    requires ReaderOk(b, lo, hi, rd) && ValidReads(ops)
    ensures ReaderOk(b, lo, hi, After(b, lo, hi, rd, ops))
    decreases |ops|
  {
    hide TableOk, Starts, Does;
    if ops != [] {
      DoesKeeps(b, lo, hi, rd, ops[0]);
      RunKeeps(b, lo, hi, Does(b, lo, hi, rd, ops[0]), ops[1..]);
    }
  }

  lemma FreshOk(b: Bytes, lo: nat, hi: nat)
    requires lo <= hi <= |b|
    ensures ReaderOk(b, lo, hi, FRESH)
  {
  }

  // ---- A walk to the end -------------------------------------------------

  /** As many reads as it takes to come from p to the end. */
  ghost function Reads(b: Bytes, p: nat, hi: nat): (ops: seq<ReadOp>)
    requires p <= hi <= |b|
    ensures ValidReads(ops)
    decreases hi - p
  {
    if p == hi || !AttrFits(b, p, hi) then [] else [NextRead] + Reads(b, AttrEnd(b, p), hi)
  }

  /** They leave the last occurrence from p on in the table. */
  lemma {:induction false} ReadToEnd(b: Bytes, lo: nat, hi: nat, p: nat, tab: seq<nat>, code: Byte)
    requires lo <= p <= hi <= |b| && |tab| == OFFTAB_SIZE && Notable(code)
    requires Starts(b, lo, hi, p)
    ensures var r := After(b, lo, hi, Reader(tab, Some(p), false), Reads(b, p, hi));
            && !r.failed
            && (r.tab[AttrIndex(code)] == tab[AttrIndex(code)]
                || (r.tab[AttrIndex(code)] >= p && Occurs(b, lo, hi, code, r.tab[AttrIndex(code)])))
            && forall q: nat :: Occurs(b, lo, hi, code, q) && q >= p ==> q <= r.tab[AttrIndex(code)]
    decreases hi - p
  {
    if p == hi || !AttrFits(b, p, hi) {
      forall q: nat | Occurs(b, lo, hi, code, q) && q >= p ensures false {
        if q > p {
          StartsApart(b, lo, hi, p, q);
        }
      }
    } else {
      var next, t := AttrEnd(b, p), Noted(b, p, tab);
      StartsNext(b, lo, hi, p);
      ReadToEnd(b, lo, hi, next, t, code);
      var rest := Reads(b, next, hi);
      assert ([NextRead] + rest)[1..] == rest;
      NotedHere(b, p, tab, code);
      forall q: nat | Occurs(b, lo, hi, code, q) && q > p ensures q >= next {
        StartsApart(b, lo, hi, p, q);
      }
    }
  }

  lemma NotedHere(b: Bytes, p: nat, tab: seq<nat>, code: Byte)
    requires p + 1 < |b| && |tab| == OFFTAB_SIZE && Notable(code)
    ensures Noted(b, p, tab)[AttrIndex(code)] == if b[p + 1] == code then p else tab[AttrIndex(code)]
  {
  }

  /** The answer of a seek at the end of a run. */
  ghost function SeekAfter(b: Bytes, lo: nat, hi: nat, ops: seq<ReadOp>, code: Byte): Option<nat>
    requires lo <= hi <= |b| && ValidReads(ops) && Notable(code)
  {
    Answer(Sought(b, lo, hi, After(b, lo, hi, FRESH, ops).tab, code), code)
  }

  ghost predicate InSessionThroughout(b: Bytes, lo: nat, hi: nat, ops: seq<ReadOp>)
    requires lo <= hi <= |b|
  {
    ValidReads(ops) && !After(b, lo, hi, FRESH, ops).failed
  }

  lemma SeekFindsOne(b: Bytes, lo: nat, hi: nat, ops: seq<ReadOp>, code: Byte)
    requires 0 < lo <= hi <= |b| && hi <= OFFSET_NOT_FOUND && WholeFrom(b, lo, hi)
    requires ValidReads(ops) && Notable(code)
    ensures Found(b, lo, hi, code, SeekAfter(b, lo, hi, ops, code))
  {
    FreshOk(b, lo, hi);
    RunKeeps(b, lo, hi, FRESH, ops);
    SoughtOk(b, lo, hi, After(b, lo, hi, FRESH, ops).tab, code);
  }

  /** The run that shows a repeat: start an iteration, read all, then seek. */
  lemma RepeatShows(b: Bytes, lo: nat, hi: nat, code: Byte, p: nat, q: nat)
    requires 0 < lo <= hi <= |b| && hi <= OFFSET_NOT_FOUND && Notable(code)
    requires Occurs(b, lo, hi, code, p) && Occurs(b, lo, hi, code, q) && p < q
    ensures var ops := [StartRead] + Reads(b, lo, hi);
            && InSessionThroughout(b, lo, hi, ops)
            && SeekAfter(b, lo, hi, ops, code) != Scan(b, lo, hi, code)
  {
    var tail := Reads(b, lo, hi);
    var ops := [StartRead] + tail;
    assert ops[1..] == tail;
    StartsAtOnce(b, lo, hi);
    ReadToEnd(b, lo, hi, lo, Zeros(OFFTAB_SIZE), code);
    ScanFindsTheFirst(b, lo, hi, code);
    var t := After(b, lo, hi, FRESH, ops).tab;
    assert t[AttrIndex(code)] >= q;
    assert Answer(Sought(b, lo, hi, t, code), code) != Some(p) || q <= p;
  }

  /** Over all interleavings of reads and seeks on a message just opened, every
      seek for a code answers what a plain scan finds, if and only if the code is
      there at most once. */
  lemma SeeksAreScans(b: Bytes, lo: nat, hi: nat, code: Byte)
    requires 0 < lo <= hi <= |b| && hi <= OFFSET_NOT_FOUND && WholeFrom(b, lo, hi) && Notable(code)
    ensures (forall ops :: InSessionThroughout(b, lo, hi, ops) ==>
               SeekAfter(b, lo, hi, ops, code) == Scan(b, lo, hi, code))
            <==> AtMostOnce(b, lo, hi, code)
  {
    if AtMostOnce(b, lo, hi, code) {
      forall ops | InSessionThroughout(b, lo, hi, ops)
        ensures SeekAfter(b, lo, hi, ops, code) == Scan(b, lo, hi, code)
      {
        SeekFindsOne(b, lo, hi, ops, code);
        FoundAgreesWithScan(b, lo, hi, code);
      }
    } else {
      var p, q :| Occurs(b, lo, hi, code, p) && Occurs(b, lo, hi, code, q) && p != q;
      if p < q {
        RepeatShows(b, lo, hi, code, p, q);
      } else {
        RepeatShows(b, lo, hi, code, q, p);
      }
    }
  }

  // ---- The message does what the runs say --------------------------------

  ghost function ReaderOf(m: BgpMsg): Reader
    reads m
  {
    Reader(m.offtab, if m.flags.pattr then Some(m.uptr) else None, m.err != BGP_ENOERR)
  }

  /** The message is being read, at most by an iteration over its attributes. */
  ghost predicate BeingRead(m: BgpMsg, b: Bytes, pktlen: nat)
    reads m, m.buf
  {
    && m.Valid() && m.flags.rd && !m.flags.withdrn && !m.flags.nlri
    && m.buf[..] == b && m.pktlen == pktlen
    && m.WholeList()
  }

  method Perform(m: BgpMsg, op: ReadOp, ghost b: Bytes, ghost lo: nat, ghost hi: nat) returns (r: Option<nat>)
    requires BeingRead(m, b, m.pktlen) && m.err == BGP_ENOERR && ValidRead(op)
    requires lo == AttrsLo(b, m.pktlen) && hi == AttrsHi(b, m.pktlen)
    requires Placed(b, lo, hi, ReaderOf(m))
    modifies m, m.buf
    ensures BeingRead(m, b, old(m.pktlen))
    ensures ReaderOf(m).failed == Does(b, lo, hi, old(ReaderOf(m)), op).failed
    ensures !ReaderOf(m).failed ==> ReaderOf(m) == Does(b, lo, hi, old(ReaderOf(m)), op)
    ensures op.SeekCode? ==> r == Answer(m.offtab, op.code)
  {
    r := None;
    if op.StartRead? {
      var e := m.StartAttribs();
    } else if op.NextRead? {
      r := m.NextAttrib();
    } else if op.EndRead? {
      var e := m.EndAttribs();
    } else {
      r := m.Seek(op.code);
    }
  }

  lemma {:induction false} FailureStays(b: Bytes, lo: nat, hi: nat, rd: Reader, ops: seq<ReadOp>)
    requires Placed(b, lo, hi, rd) && ValidReads(ops) && rd.failed
    ensures After(b, lo, hi, rd, ops).failed
    decreases |ops|
  {
    if ops != [] {
      FailureStays(b, lo, hi, Does(b, lo, hi, rd, ops[0]), ops[1..]);
    }
  }

  /** Any run of reads and seeks on a message just opened, then a seek: the answer
      is the one the abstract run gives, so a plain scan's if the code is there
      at most once. */
  method Interleave(m: BgpMsg, ops: seq<ReadOp>, code: Byte) returns (r: Option<nat>)
    requires BeingRead(m, m.buf[..], m.pktlen) && ReaderOf(m) == FRESH && Notable(code)
    requires InSessionThroughout(m.buf[..], AttrsLo(m.buf[..], m.pktlen), AttrsHi(m.buf[..], m.pktlen), ops)
    modifies m, m.buf
    ensures BeingRead(m, old(m.buf[..]), old(m.pktlen)) && m.err == BGP_ENOERR
    ensures var b, lo, hi := m.buf[..], AttrsLo(m.buf[..], m.pktlen), AttrsHi(m.buf[..], m.pktlen);
            && r == SeekAfter(b, lo, hi, ops, code)
            && (AtMostOnce(b, lo, hi, code) ==> r == Scan(b, lo, hi, code))
  {
    ghost var b, pktlen := m.buf[..], m.pktlen;
    ghost var lo, hi := AttrsLo(b, pktlen), AttrsHi(b, pktlen);
    ghost var end := After(b, lo, hi, FRESH, ops);
    for i := 0 to |ops|
      invariant BeingRead(m, b, pktlen) && Placed(b, lo, hi, ReaderOf(m)) && m.err == BGP_ENOERR
      invariant After(b, lo, hi, ReaderOf(m), ops[i..]) == end
    {
      assert ops[i..][0] == ops[i] && ops[i..][1..] == ops[i + 1..];
      var rd := Does(b, lo, hi, ReaderOf(m), ops[i]);
      if rd.failed {
        FailureStays(b, lo, hi, rd, ops[i + 1..]);
      }
      r := Perform(m, ops[i], b, lo, hi);
    }
    SeekFindsOne(b, lo, hi, ops, code);
    FoundAgreesWithScan(b, lo, hi, code);
    r := m.Seek(code);
  }

  // ---- A repeated attribute ----------------------------------------------

  /** ORIGIN, with this value. */
  function Origin(value: Byte): Attr {
    Attr(0x40, 1, [value])
  }

  lemma OriginOctets(s: seq<Attr>, value: Byte)
    requires ValidAttrs(s)
    ensures EncodeAttr(Origin(value)) == [0x40, 1, 1, value]
    ensures |EncodeAttrs(s + [Origin(value)])| == |EncodeAttrs(s)| + 4
  {
    EncodeAttrsSnoc(s, Origin(value));
  }

  method PutOrigin(m: BgpMsg, value: Byte, ghost s: seq<Attr>)
    requires m.Valid() && m.flags.wr && !m.flags.addpath && ValidAttrs(s) && |EncodeAttrs(s)| <= 4
    requires m.writer == Writer(InAttribs, Update([], s, []), false)
    modifies m`uptr, m`pktlen, m`err, m`writer, m.buf
    ensures m.Valid() && m.writer == Writer(InAttribs, Update([], s + [Origin(value)], []), false)
  {
    OriginOctets(s, value);
    var e := m.PutAttrib(Origin(value));
  }

  lemma NothingPut()
    ensures |EncodeAttrs([])| == 0
  {
  }

  method WriteTwoOrigins() returns (m: BgpMsg)
    ensures fresh(m) && fresh(m.buf) && BeingRead(m, m.buf[..], m.pktlen) && ReaderOf(m) == FRESH
    ensures Carries(false, Update([], [Origin(0), Origin(2)], []), m.buf[..], m.pktlen)
  {
    hide Carries, EncodeAttrs, EncodeAttr, Readable;
    m := new BgpMsg(false);
    var e := m.StartAttribs();
    NothingPut();
    PutOrigin(m, 0, []);
    OriginOctets([], 0);
    assert [] + [Origin(0)] == [Origin(0)];
    PutOrigin(m, 2, [Origin(0)]);
    assert [Origin(0)] + [Origin(2)] == [Origin(0), Origin(2)];
    var n := m.Finish();
    FinishedIsReadable(false, Update([], [Origin(0), Origin(2)], []), m.buf[..], m.pktlen);
  }

  /** Where the two lie in the message, and what is found there. */
  lemma TwoOrigins(b: Bytes, pktlen: nat)
    requires Carries(false, Update([], [Origin(0), Origin(2)], []), b, pktlen)
    ensures AttrsLo(b, pktlen) == 23 && AttrsHi(b, pktlen) == 31
    ensures AttrFits(b, 23, 31) && AttrEnd(b, 23) == 27 && b[24] == 1
    ensures AttrFits(b, 27, 31) && AttrEnd(b, 27) == 31 && b[28] == 1
  {
    var s := [Origin(0), Origin(2)];
    var lo, hi := AttrsLo(b, pktlen), AttrsHi(b, pktlen);
    OriginOctets([], 0);
    OriginOctets([], 2);
    FirstAttr(b, lo, hi, s);
    AttrReadsBack(b, lo, hi, s[0]);
    assert s[1..] == [Origin(2)];
    FirstAttr(b, lo + 4, hi, s[1..]);
    AttrReadsBack(b, lo + 4, hi, s[1]);
    assert EncodeAttrs(s[1..][1..]) == [];
  }

  /** A message with two of them, an iteration that has read both, and a seek:
      the later one is found, where a plain scan finds the first. */
  method LaterRepeatWins() returns (m: BgpMsg, r: Option<nat>)
    ensures fresh(m) && m.Valid() && m.flags.rd && m.err == BGP_ENOERR
    ensures r == Some(27) && Scan(m.buf[..], AttrsLo(m.buf[..], m.pktlen), AttrsHi(m.buf[..], m.pktlen), 1) == Some(23)
  {
    m := WriteTwoOrigins();
    ghost var b := m.buf[..];
    TwoOrigins(b, m.pktlen);
    r := Perform(m, StartRead, b, 23, 31);
    r := Perform(m, NextRead, b, 23, 31);
    r := Perform(m, NextRead, b, 23, 31);
    NotedHere(b, 27, Noted(b, 23, Zeros(OFFTAB_SIZE)), 1);
    r := Perform(m, SeekCode(1), b, 23, 31);
  }
}
