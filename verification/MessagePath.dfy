/** The AS path of a message, from its attributes to the answer of a filter test:
    startrealaspath_r in src/bgp.c looks the attributes up, the iteration merges
    them, and the matchers of src/filterintrin.c ask about what it yields. */
module MessagePath {
  import opened BgpWire
  import opened BgpWriter
  import opened BgpAttribs
  import opened BgpMsg
  import opened BgpRuns
  import opened AsPath
  import opened AspMatch
  import opened FilterCode
  import opened FilterVm
  import opened FilterWords
  import opened MrtRoute
  import opened MrtRebuild
  import opened MrtMeaning
  import opened Wrappers

  // ---- Looking attributes up ---------------------------------------------

  /** The first attribute of the list with this code. */
  ghost function Lookup(s: seq<Attr>, code: Byte): Option<Attr> {
    if s == [] then None else if s[0].code == code then Some(s[0]) else Lookup(s[1..], code)
  }

  lemma {:induction false} LookupAt(s: seq<Attr>, code: Byte) returns (j: nat)
    requires Lookup(s, code).Some?
    ensures j < |s| && s[j] == Lookup(s, code).value && s[j].code == code
  {
    if s[0].code == code {
      j := 0;
    } else {
      j := LookupAt(s[1..], code);
      j := j + 1;
    }
  }

  lemma {:induction false} NotListed(s: seq<Attr>, code: Byte, i: nat)
    requires Lookup(s, code).None? && i < |s|
    ensures s[i].code != code
  {
    if i > 0 {
      NotListed(s[1..], code, i - 1);
    }
  }

  lemma {:induction false} NoneCounted(s: seq<Attr>, code: Byte)
    requires forall i :: 0 <= i < |s| ==> s[i].code != code
    ensures CountCode(s, code) == 0
  {
    if s != [] {
      NoneCounted(s[..|s| - 1], code);
    }
  }

  /** A lookup in the message gave what it gives in the list. */
  ghost predicate Gives(b: Bytes, r: Option<nat>, a: Option<Attr>) {
    match a
    case None => r == None
    case Some(x) => r.Some? && r.value <= |b| && AttrFits(b, r.value, |b|) && AttrAt(b, r.value) == x
  }

  /** The attributes of the message are this list. */
  ghost predicate Listed(b: Bytes, pktlen: nat, s: seq<Attr>) {
    && Framed(b, pktlen) && AttrsLo(b, pktlen) >= ATTRS && ValidAttrs(s)
    && b[AttrsLo(b, pktlen)..AttrsHi(b, pktlen)] == EncodeAttrs(s)
  }

  /** Any right answer to a seek is what the list has, if it does not repeat the
      code. */
  lemma FoundGives(b: Bytes, pktlen: nat, s: seq<Attr>, code: Byte, r: Option<nat>)
    requires Listed(b, pktlen, s) && CountCode(s, code) <= 1
    requires Found(b, AttrsLo(b, pktlen), AttrsHi(b, pktlen), code, r)
    ensures Gives(b, r, Lookup(s, code))
  {
    hide EncodeAttrs, CountCode, Starts;
    var lo, hi := AttrsLo(b, pktlen), AttrsHi(b, pktlen);
    if Lookup(s, code).None? {
      forall i | 0 <= i < |s| ensures s[i].code != code {
        NotListed(s, code, i);
      }
      NoneCounted(s, code);
      OccurrencesCounted(b, lo, hi, s, code);
    } else {
      var j := LookupAt(s, code);
      var p := ListedOccurs(b, lo, hi, s, j);
      OccurrencesCounted(b, lo, hi, s, code);
    }
  }

  lemma CarriedIsListed(ap: bool, u: Update, b: Bytes, pktlen: nat)
    requires Carries(ap, u, b, pktlen)
    ensures Listed(b, pktlen, u.attribs)
  {
  }

  // ---- The real path of a list of attributes ------------------------------

  /** getaggregatoras, on the data of the attribute. */
  function AggregatorAs(d: Bytes): nat
    requires |d| >= 2
  {
    if |d| == 8 then BE32(d, 0) else BE16(d, 0)
  }

  function AsSize(asn32: bool): nat {
    if asn32 then 4 else 2
  }

  /** The attributes that matter are there at most once, and hold these paths;
      an aggregator has room for its AS. */
  ghost predicate PathsAre(asn32: bool, s: seq<Attr>, segs: seq<Seg>, segs4: seq<Seg>) {
    && (forall code :: code in {AS_PATH_CODE, AS4_PATH_CODE, AGGREGATOR_CODE, AS4_AGGREGATOR_CODE} ==>
          CountCode(s, code) <= 1)
    && HoldsPath(Lookup(s, AS_PATH_CODE), AsSize(asn32), segs)
    && HoldsPath(Lookup(s, AS4_PATH_CODE), 4, segs4)
    && (Lookup(s, AGGREGATOR_CODE).Some? ==> |Lookup(s, AGGREGATOR_CODE).value.data| >= 2)
  }

  ghost predicate HoldsPath(a: Option<Attr>, asSize: nat, segs: seq<Seg>)
    requires ValidSize(asSize)
  {
    a.Some? ==> ValidPath(asSize, segs) && a.value.data == EncodePath(asSize, segs)
  }

  /** Section 4.2.3 of RFC 6793: whether AS4_PATH is to be used. */
  ghost predicate UsesAs4(asn32: bool, s: seq<Attr>)
    requires Lookup(s, AGGREGATOR_CODE).Some? ==> |Lookup(s, AGGREGATOR_CODE).value.data| >= 2
  {
    var aggr := Lookup(s, AGGREGATOR_CODE);
    Applies(asn32, if aggr.Some? then Some(AggregatorAs(aggr.value.data)) else None,
            Lookup(s, AS4_AGGREGATOR_CODE).Some?, Lookup(s, AS4_PATH_CODE).Some?)
  }

  ghost function PathOf(asn32: bool, s: seq<Attr>, segs: seq<Seg>, segs4: seq<Seg>): seq<Entry>
    requires PathsAre(asn32, s, segs, segs4)
  {
    if Lookup(s, AS_PATH_CODE).None? then [] else RealPath(AsSize(asn32), UsesAs4(asn32, s), segs, segs4)
  }

  // ---- The same from the octets of the attributes ------------------------

  predicate Has(s: seq<Attr>, code: Byte) {
    exists i :: 0 <= i < |s| && s[i].code == code
  }

  /** The AS of an aggregator: four octets of eight, or else two. */
  function FirstNumber(d: Bytes): int
    requires |d| >= 2
  {
    if |d| == 8 then 0x100_0000 * (d[0] as int) + 0x1_0000 * (d[1] as int) + 256 * (d[2] as int) + d[3]
    else 256 * (d[0] as int) + d[1]
  }

  /** There is an AGGREGATOR, and its AS is not 23456. */
  predicate OtherAggregator(s: seq<Attr>) {
    exists i :: 0 <= i < |s| && s[i].code == 7 && |s[i].data| >= 2 && FirstNumber(s[i].data) != 23456
  }

  /** Section 4.2.3 of RFC 6793 as the source has it, by the codes of the
      attributes: AS_PATH 2, AGGREGATOR 7, AS4_PATH 17, AS4_AGGREGATOR 18. */
  ghost predicate RealPathFrom(asn32: bool, s: seq<Attr>, segs: seq<Seg>, segs4: seq<Seg>, es: seq<Entry>) {
    if !Has(s, 2) then es == []
    else if asn32 then es == Entries(4, segs, 0)
    else if !Has(s, 17) || (Has(s, 18) && OtherAggregator(s)) || Hops(segs) < Hops(segs4) then es == Entries(2, segs, 0)
    else
      NoEmptySet(segs) && NoEmptySet(segs4) ==>
        exists k: nat, segno :: ShortestRun(Entries(2, segs, 0), -1, Hops(segs) - Hops(segs4), k)
          && es == Entries(2, segs, 0)[..k] + Entries(4, segs4, segno)
  }

  lemma HasIsLookup(s: seq<Attr>, code: Byte)
    ensures Has(s, code) <==> Lookup(s, code).Some?
  {
    if Lookup(s, code).Some? {
      var j := LookupAt(s, code);
    } else {
      forall i | 0 <= i < |s| ensures s[i].code != code {
        NotListed(s, code, i);
      }
    }
  }

  /** An attribute that is not repeated is the one looked up. */
  lemma OneLookup(s: seq<Attr>, code: Byte, i: nat)
    requires i < |s| && s[i].code == code && CountCode(s, code) <= 1
    ensures Lookup(s, code) == Some(s[i])
  {
    HasIsLookup(s, code);
    var j := LookupAt(s, code);
    CountedTwice(s, code, i, j);
  }

  lemma {:induction false} CountedTwice(s: seq<Attr>, code: Byte, i: nat, j: nat)
    requires i < |s| && j < |s| && s[i].code == s[j].code == code && CountCode(s, code) <= 1
    ensures i == j
    decreases |s|
  {
    var init := s[..|s| - 1];
    if i < |init| && j < |init| {
      CountedTwice(init, code, i, j);
    } else if i < |init| {
      CodeCounts(init, i);
    } else if j < |init| {
      CodeCounts(init, j);
    }
  }

  lemma AggregatorIs(s: seq<Attr>)
    requires CountCode(s, 7) <= 1
    requires Lookup(s, 7).Some? ==> |Lookup(s, 7).value.data| >= 2
    ensures OtherAggregator(s) <==> Lookup(s, 7).Some? && AggregatorAs(Lookup(s, 7).value.data) != 23456
  {
    if OtherAggregator(s) {
      var i :| 0 <= i < |s| && s[i].code == 7 && |s[i].data| >= 2 && FirstNumber(s[i].data) != 23456;
      OneLookup(s, 7, i);
    } else if Lookup(s, 7).Some? {
      var j := LookupAt(s, 7);
    }
  }

  lemma PathOfIsReal(asn32: bool, s: seq<Attr>, segs: seq<Seg>, segs4: seq<Seg>)
    requires PathsAre(asn32, s, segs, segs4)
    ensures RealPathFrom(asn32, s, segs, segs4, PathOf(asn32, s, segs, segs4))
  {
    hide Lookup, Hops, Entries, CountCode, Merged;
    HasIsLookup(s, 2);
    HasIsLookup(s, 17);
    HasIsLookup(s, 18);
    AggregatorIs(s);
    var applies := UsesAs4(asn32, s);
    if NoEmptySet(segs) && NoEmptySet(segs4) {
      RealPathIsMerge(AsSize(asn32), applies, segs, segs4);
    }
  }

  // ---- startrealaspath_r on a message ------------------------------------

  /** The message is open for reading, without an error, and lists these. */
  ghost predicate OpenWith(m: BgpMsg, s: seq<Attr>)
    reads m, m.buf
  {
    && m.Valid() && m.flags.rd && m.err == BGP_ENOERR
    && Listed(m.buf[..], m.pktlen, s) && m.WholeList()
  }

  method Get(m: BgpMsg, code: Byte, ghost s: seq<Attr>) returns (r: Option<nat>)
    requires OpenWith(m, s) && CountCode(s, code) <= 1 && Notable(code)
    modifies m, m.buf
    ensures OpenWith(m, s) && m.buf[..] == old(m.buf[..]) && m.pktlen == old(m.pktlen)
    ensures Gives(m.buf[..], r, Lookup(s, code))
  {
    r := m.Seek(code);
    FoundGives(m.buf[..], m.pktlen, s, code, r);
  }

  /** Where a path lies that a lookup found. */
  function SpanOf(b: Bytes, r: Option<nat>): Option<Span>
    requires r.Some? ==> r.value <= |b| && AttrFits(b, r.value, |b|)
  {
    if r.None? then None else Some(DataAt(b, r.value))
  }

  lemma PathThere(b: Bytes, r: Option<nat>, a: Option<Attr>, asSize: nat, segs: seq<Seg>)
    requires ValidSize(asSize) && Gives(b, r, a) && HoldsPath(a, asSize, segs)
    ensures SpanOf(b, r).Some? == a.Some?
    ensures a.Some? ==> PathAt(b, SpanOf(b, r).value, asSize, segs)
  {
  }

  /** The AS of an aggregator that a lookup found. */
  function AggregatorOf(b: Bytes, r: Option<nat>): Option<nat>
    requires r.Some? ==> r.value <= |b| && AttrFits(b, r.value, |b|) && |AttrAt(b, r.value).data| >= 2
  {
    if r.None? then None else Some(AggregatorAs(AttrAt(b, r.value).data))
  }

  /** What was looked up is what matters for the real path. */
  ghost predicate LookedUp(b: Bytes, asn32: bool, s: seq<Attr>, segs: seq<Seg>, segs4: seq<Seg>,
                           path: Option<Span>, aggregator: Option<nat>, hasAs4Aggregator: bool, path4: Option<Span>)
    requires PathsAre(asn32, s, segs, segs4)
  {
    && path.Some? == Lookup(s, AS_PATH_CODE).Some?
    && (path.Some? ==>
          && PathAt(b, path.value, AsSize(asn32), segs)
          && Applies(asn32, aggregator, hasAs4Aggregator, path4.Some?) == UsesAs4(asn32, s))
    && (path4.Some? ==> PathAt(b, path4.value, 4, segs4))
  }

  /** The lookups of startrealaspath_r: what comes later is looked up only if it
      matters. */
  method LookUp(m: BgpMsg, asn32: bool, ghost s: seq<Attr>, ghost segs: seq<Seg>, ghost segs4: seq<Seg>)
    returns (path: Option<Span>, aggregator: Option<nat>, hasAs4Aggregator: bool, path4: Option<Span>)
    requires OpenWith(m, s) && PathsAre(asn32, s, segs, segs4)
    modifies m, m.buf
    ensures OpenWith(m, s) && m.buf[..] == old(m.buf[..]) && m.pktlen == old(m.pktlen)
    ensures LookedUp(m.buf[..], asn32, s, segs, segs4, path, aggregator, hasAs4Aggregator, path4)
  {
    hide OpenWith, CountCode, Lookup, PathAt, AttrAt, AttrEnd, HoldsPath;
    aggregator, hasAs4Aggregator, path4 := None, false, None;
    var b := m.buf[..];
    var asp := Get(m, AS_PATH_CODE, s);
    PathThere(b, asp, Lookup(s, AS_PATH_CODE), AsSize(asn32), segs);
    path := SpanOf(b, asp);
    if asp.None? || asn32 {
      return;
    }
    var aggr := Get(m, AGGREGATOR_CODE, s);
    var aggr4 := Get(m, AS4_AGGREGATOR_CODE, s);
    aggregator, hasAs4Aggregator := AggregatorOf(b, aggr), aggr4.Some?;
    if aggr.Some? && aggr4.Some? && aggregator.value != AS_TRANS {
      return;
    }
    var as4p := Get(m, AS4_PATH_CODE, s);
    PathThere(b, as4p, Lookup(s, AS4_PATH_CODE), 4, segs4);
    path4 := SpanOf(b, as4p);
  }

  /** startrealaspath_r */
  method StartRealPath(m: BgpMsg, asn32: bool, ghost s: seq<Attr>, ghost segs: seq<Seg>, ghost segs4: seq<Seg>)
    returns (it: AsPathIterator)
    requires OpenWith(m, s) && PathsAre(asn32, s, segs, segs4)
    modifies m, m.buf
    ensures OpenWith(m, s) && m.buf[..] == old(m.buf[..]) && m.pktlen == old(m.pktlen)
    ensures fresh(it) && it.Valid() && it.Upcoming() == PathOf(asn32, s, segs, segs4)
    ensures RealPathFrom(asn32, s, segs, segs4, it.Upcoming())
  {
    hide RealPathFrom, PathsAre, OpenWith, AsPathIterator.Valid, AsPathIterator.Upcoming, Lookup, RealPath, HopsFrom;
    PathOfIsReal(asn32, s, segs, segs4);
    Settle(m, s);
    var path, aggregator, hasAs4Aggregator, path4 := LookUp(m, asn32, s, segs, segs4);
    it := new AsPathIterator(m.buf[..]);
    var ok := it.StartReal(asn32, path, aggregator, hasAs4Aggregator, path4, segs, segs4);
  }

  /** endpending */
  method Settle(m: BgpMsg, ghost s: seq<Attr>)
    requires OpenWith(m, s)
    modifies m, m.buf
    ensures OpenWith(m, s) && m.buf[..] == old(m.buf[..]) && m.pktlen == old(m.pktlen)
  {
    var e := m.EndPending();
  }

  // ---- The four questions ------------------------------------------------

  const LOADK := 4
  const ASPMATCH := 21
  const ASPSTARTS := 22
  const ASPENDS := 23
  const ASPEXACT := 24

  /** FOPC_ACCESS_SETTLE | FOPC_ACCESS_REAL_AS_PATH: a new iteration. */
  const SETTLED_REAL_PATH: nat := 132

  predicate AsksPath(op: nat) {
    op in {ASPMATCH, ASPSTARTS, ASPENDS, ASPEXACT}
  }

  ghost predicate PathHas(op: nat, p: Pattern, path: Path)
    requires AsksPath(op)
  {
    if op == ASPMATCH then SomeWindow(p, path)
    else if op == ASPSTARTS then PrefixMatches(p, path)
    else if op == ASPENDS then SuffixMatches(p, path)
    else Matches(p, path)
  }

  ghost function Truth(op: nat, p: Pattern, path: Path): int
    requires AsksPath(op)
  {
    if PathHas(op, p, path) then 1 else 0
  }

  /** ASPMATCH 21, ASPSTARTS 22, ASPENDS 23, ASPEXACT 24, and 128 + 4 for a new
      iteration over the real path. */
  lemma QuestionWords(p: Pattern, path: Path)
    ensures PathHas(21, p, path) == SomeWindow(p, path)
    ensures PathHas(22, p, path) == PrefixMatches(p, path)
    ensures PathHas(23, p, path) == SuffixMatches(p, path)
    ensures PathHas(24, p, path) == Matches(p, path)
    ensures forall op :: AsksPath(op) <==> 21 <= op <= 24
    ensures MakeOp(21, SETTLED_REAL_PATH) == 256 * (128 + 4) + 21
  {
  }

  /** LOADK 4 pushes the constant its operand says. */
  lemma LoadkWord(constants: seq<int>, path: Path, stack: seq<int>, k: nat)
    requires k < 256 && k < |constants|
    ensures Loads(0, k + 1)[k] == 256 * k + 4
    ensures PathEffect(constants, path, 256 * k + 4, 0, stack) == Effect.Gives(stack + [constants[k]], 0)
  {
    hide GetOpcode, GetArg, MakeOp, Loads;
    LoadsAre(0, k + 1, k);
    WordOctets(4, k);
  }

  /** A question puts 1 or 0 in the place of the whole stack. */
  lemma AskWord(constants: seq<int>, path: Path, stack: seq<int>, op: nat)
    requires 21 <= op <= 24
    ensures PathEffect(constants, path, 256 * (128 + 4) + op, 0, stack) ==
            Effect.Gives([if PathHas(op, stack, path) then 1 else 0], 0)
  {
    hide PathHas;
    WordOctets(op, 132);
  }

  lemma {:induction false} LoadsAre(from: nat, n: nat, i: nat)
    requires from + i < n
    ensures Loads(from, n)[i] == MakeOp(LOADK, from + i)
    decreases i
  {
    if i > 0 {
      LoadsAre(from + 1, n, i - 1);
    }
  }

  /** One of the four instructions, carried out on a message: its attributes are
      looked up, the real path is read, and the stack, which was the pattern,
      becomes the answer. */
  method AskMessage(m: BgpMsg, asn32: bool, op: nat, pattern: Pattern,
                    ghost s: seq<Attr>, ghost segs: seq<Seg>, ghost segs4: seq<Seg>)
    returns (stack: seq<int>)
    requires OpenWith(m, s) && PathsAre(asn32, s, segs, segs4) && AsksPath(op)
    requires op == ASPENDS ==> pattern != [] || PathOf(asn32, s, segs, segs4) == []
    modifies m, m.buf
    ensures OpenWith(m, s) && m.buf[..] == old(m.buf[..]) && m.pktlen == old(m.pktlen)
    ensures stack == [Truth(op, pattern, Numbers(PathOf(asn32, s, segs, segs4)))]
  {
    hide OpenWith, PathsAre, PathOf, Matcher.Valid, SomeWindow, PrefixMatches, SuffixMatches, Matches;
    var it := StartRealPath(m, asn32, s, segs, segs4);
    var matcher := new Matcher(it, pattern);
    if op == ASPMATCH {
      matcher.ExecMatch();
    } else if op == ASPSTARTS {
      matcher.ExecStarts();
    } else if op == ASPENDS {
      matcher.ExecEnds();
    } else {
      matcher.ExecExact();
    }
    stack := matcher.stack;
  }

  /** Any run of writing, bgpfinish_r, and a question: the answer is about the
      attributes of the last session, however they got into the buffer. */
  method WriteThenAsk(addpath: bool, ops: seq<BgpWriter.Op>, asn32: bool, op: nat, pattern: Pattern,
                      ghost segs: seq<Seg>, ghost segs4: seq<Seg>)
    returns (ok: bool, stack: seq<int>)
    requires RunFits(addpath, EMPTY, ops) && AsksPath(op)
    requires var s := ApplyAll(EMPTY, ops).update.attribs;
             && PathsAre(asn32, s, segs, segs4)
             && (op == ASPENDS ==> pattern != [] || PathOf(asn32, s, segs, segs4) == [])
    ensures ok == !ApplyAll(EMPTY, ops).failed
    ensures ok ==>
              var s := ApplyAll(EMPTY, ops).update.attribs;
              stack == [Truth(op, pattern, Numbers(PathOf(asn32, s, segs, segs4)))]
  {
    hide PathsAre, PathOf, Truth, Carries, ApplyAll, RunFits;
    stack := [];
    var m := BgpRuns.Replay(addpath, ops);
    ghost var u := m.writer.update;
    var n := m.Finish();
    if n.None? {
      return false, stack;
    }
    ok := true;
    FinishedIsReadable(m.flags.addpath, u, m.buf[..], m.pktlen);
    CarriedIsListed(m.flags.addpath, u, m.buf[..], m.pktlen);
    stack := AskMessage(m, asn32, op, pattern, u.attribs, segs, segs4);
  }

  // ---- The same in a filter ----------------------------------------------

  /** A packet with this real AS path, for programs that ask about it from a new
      iteration each time, their patterns being constants. */
  ghost function PathPacket(attrs: set<nat>, constants: seq<int>, path: Path): Packet {
    Packet(attrs, (w: Word, exarg: nat, stack: seq<int>) => PathEffect(constants, path, w, exarg, stack))
  }

  ghost function PathEffect(constants: seq<int>, path: Path, w: Word, exarg: nat, stack: seq<int>): Effect {
    var op, k := GetOpcode(w), ExtendArg(GetArg(w), exarg);
    if op == LOADK then
      if k < |constants| then Effect.Gives(stack + [constants[k]], 0) else Stops(LOADK)
    else if AsksPath(op) && GetArg(w) == SETTLED_REAL_PATH then
      Effect.Gives([Truth(op, stack, path)], exarg)
    else Stops(op)
  }

  /** The words that load the constants from `from` on. */
  function Loads(from: nat, n: nat): (ws: seq<Word>)
    requires from <= n
    ensures |ws| == n - from
    decreases n - from
  {
    if from == n then [] else [MakeOp(LOADK, from)] + Loads(from + 1, n)
  }

  /** A test: the pattern is loaded, then the question is asked. */
  function PathTest(op: nat, n: nat): Expr {
    Run(Loads(0, n) + [MakeOp(op, SETTLED_REAL_PATH)])
  }

  lemma {:induction false} StraightBoth(a: seq<Word>, b: seq<Word>, packet: Packet, vm: Vm)
    requires Straight(a, packet, vm).Some?
    ensures Straight(a + b, packet, vm) == Straight(b, packet, Straight(a, packet, vm).value)
    decreases |a|
  {
    if a == [] {
      assert a + b == b;
    } else {
      assert (a + b)[1..] == a[1..] + b;
      StraightBoth(a[1..], b, packet, Act(a[0], packet, vm.(pc := vm.pc + 1)).vm);
    }
  }

  lemma LoadActs(from: nat, packet: Packet, attrs: set<nat>, p: Pattern, path: Path, vm: Vm)
    requires from < |p| <= 256 && packet == PathPacket(attrs, p, path)
    requires vm.stack == p[..from] && vm.exarg == 0
    ensures Act(MakeOp(LOADK, from), packet, vm.(pc := vm.pc + 1)) == Next(vm.(pc := vm.pc + 1, stack := p[..from + 1]))
  {
    MakeOpReadsBack(LOADK, from);
    assert p[..from] + [p[from]] == p[..from + 1];
  }

  lemma {:induction false} LoadsAreFlat(from: nat, n: nat)
    requires from <= n <= 256
    ensures Flat(Loads(from, n))
    decreases n - from
  {
    if from < n {
      MakeOpReadsBack(LOADK, from);
      LoadsAreFlat(from + 1, n);
    }
  }

  lemma {:induction false} LoadsPush(from: nat, packet: Packet, attrs: set<nat>, p: Pattern, path: Path, vm: Vm)
    requires from <= |p| <= 256 && packet == PathPacket(attrs, p, path)
    requires vm.stack == p[..from] && vm.exarg == 0
    ensures |Loads(from, |p|)| == |p| - from
    ensures Straight(Loads(from, |p|), packet, vm) == Some(vm.(pc := vm.pc + |p| - from, stack := p))
    decreases |p| - from
  {
    hide Act, PathPacket, MakeOp;
    if from == |p| {
      assert p[..from] == p;
    } else {
      var rest := Loads(from + 1, |p|);
      LoadActs(from, packet, attrs, p, path, vm);
      LoadsPush(from + 1, packet, attrs, p, path, vm.(pc := vm.pc + 1, stack := p[..from + 1]));
      assert ([MakeOp(LOADK, from)] + rest)[1..] == rest;
    }
  }

  /** A test of the AS path pops the whole stack, and is a test all the same: in a
      decision list it starts on an empty one. It is worth the answer. */
  lemma PathTestIsValid(op: nat, attrs: set<nat>, p: Pattern, path: Path)
    requires AsksPath(op) && |p| <= 256
    ensures ValidExpr(PathTest(op, |p|), PathPacket(attrs, p, path), [])
    ensures Worth(PathTest(op, |p|), PathPacket(attrs, p, path), []) == Truth(op, p, path)
  {
    hide Act, PathPacket, MakeOp, Truth;
    var packet, w, start := PathPacket(attrs, p, path), MakeOp(op, SETTLED_REAL_PATH), Vm(0, 0, [], 0);
    assert p[..0] == [];
    LoadsAreFlat(0, |p|);
    LoadsPush(0, packet, attrs, p, path, start);
    StraightBoth(Loads(0, |p|), [w], packet, start);
    QuestionActs(op, attrs, p, path);
    assert [w][1..] == [];
    assert [] + [Truth(op, p, path)] == [Truth(op, p, path)];
  }

  lemma QuestionActs(op: nat, attrs: set<nat>, p: Pattern, path: Path)
    requires AsksPath(op)
    ensures var w := MakeOp(op, SETTLED_REAL_PATH);
            && !Controls(w)
            && Act(w, PathPacket(attrs, p, path), Vm(|p| + 1, 0, p, 0)) == Next(Vm(|p| + 1, 0, [Truth(op, p, path)], 0))
  {
    MakeOpReadsBack(op, SETTLED_REAL_PATH);
  }

  /** A filter made of one such test, about a message: it passes exactly the
      messages whose real AS path the test holds of. */
  lemma PathFilterDecides(op: nat, attrs: set<nat>, p: Pattern, path: Path)
    requires AsksPath(op) && |p| <= 256
    ensures var c := Last(PathTest(op, |p|));
            Exec(ChainCode(c), PathPacket(attrs, p, path), Vm(0, 0, [], 0)) == Pass(PathHas(op, p, path))
  {
    PathTestIsValid(op, attrs, p, path);
    ProgramMeansDecision(Last(PathTest(op, |p|)), PathPacket(attrs, p, path));
  }
}
