/** Walking a list of path attributes, and the table of attribute offsets that
    walking fills (src/bgp.c). */
module BgpAttribs {
  import opened BgpWire
  import opened Wrappers

  const AS_PATH_CODE: Byte := 2
  const AS4_PATH_CODE: Byte := 17
  const AGGREGATOR_CODE: Byte := 7
  const AS4_AGGREGATOR_CODE: Byte := 18
  const MP_REACH_NLRI_CODE: Byte := 14
  const MP_UNREACH_NLRI_CODE: Byte := 15

  const OFFSET_NOT_FOUND: nat := 0xffff
  const OFFTAB_SIZE: nat := 16

  /** attr_code_index with the bias taken away: -1 when a code is not notable. */
  function AttrIndex(code: Byte): (i: int)
    ensures -1 <= i < 12
  {
    if code == AS_PATH_CODE then 0
    else if code == 1 then 1
    else if code == 6 then 2
    else if code == AGGREGATOR_CODE then 3
    else if code == 3 then 4
    else if code == 8 then 5
    else if code == MP_REACH_NLRI_CODE then 6
    else if code == MP_UNREACH_NLRI_CODE then 7
    else if code == 16 then 8
    else if code == AS4_PATH_CODE then 9
    else if code == AS4_AGGREGATOR_CODE then 10
    else if code == 32 then 11
    else -1
  }

  predicate Notable(code: Byte) {
    AttrIndex(code) >= 0
  }

  // ---- Where attributes start --------------------------------------------

  /** A walk from lo over whole attributes passes p. */
  predicate Starts(b: Bytes, lo: nat, hi: nat, p: nat)
    requires lo <= hi <= |b|
    decreases hi - lo
  {
    p == lo || (AttrFits(b, lo, hi) && Starts(b, AttrEnd(b, lo), hi, p))
  }

  /** An attribute with this code starts at p. */
  predicate Occurs(b: Bytes, lo: nat, hi: nat, code: Byte, p: nat)
    requires lo <= hi <= |b|
  {
    lo <= p < hi && Starts(b, lo, hi, p) && AttrFits(b, p, hi) && b[p + 1] == code
  }

  ghost predicate Absent(b: Bytes, lo: nat, hi: nat, code: Byte)
    requires lo <= hi <= |b|
  {
    forall p :: !Occurs(b, lo, hi, code, p)
  }

  /** The walk from lo comes to its end without an error. */
  predicate WholeFrom(b: Bytes, lo: nat, hi: nat)
    requires lo <= hi <= |b|
  {
    Starts(b, lo, hi, hi)
  }

  lemma {:induction false} StartsBound(b: Bytes, lo: nat, hi: nat, p: nat)
    requires lo <= hi <= |b| && Starts(b, lo, hi, p)
    ensures lo <= p <= hi
    decreases hi - lo
  {
    if p != lo {
      StartsBound(b, AttrEnd(b, lo), hi, p);
    }
  }

  lemma {:induction false} StartsNext(b: Bytes, lo: nat, hi: nat, p: nat)
    requires lo <= hi <= |b| && p <= hi && Starts(b, lo, hi, p) && AttrFits(b, p, hi)
    ensures Starts(b, lo, hi, AttrEnd(b, p))
    decreases hi - lo
  {
    if p == lo {
      assert Starts(b, AttrEnd(b, p), hi, AttrEnd(b, p));
    } else {
      StartsNext(b, AttrEnd(b, lo), hi, p);
    }
  }

  /** No attribute starts inside another. */
  lemma {:induction false} StartsApart(b: Bytes, lo: nat, hi: nat, p: nat, q: nat)
    requires lo <= hi <= |b| && p < q
    requires Starts(b, lo, hi, p) && Starts(b, lo, hi, q)
    ensures p < hi && AttrFits(b, p, hi) && AttrEnd(b, p) <= q
    decreases hi - lo
  {
    StartsBound(b, lo, hi, p);
    StartsBound(b, lo, hi, q);
    if p == lo {
      StartsBound(b, AttrEnd(b, lo), hi, q);
    } else {
      StartsBound(b, AttrEnd(b, lo), hi, p);
      StartsApart(b, AttrEnd(b, lo), hi, p, q);
    }
  }

  // ---- The offset table --------------------------------------------------

  /** Zero while nothing is known, else the right answer. */
  ghost predicate EntryOk(b: Bytes, lo: nat, hi: nat, code: Byte, off: nat)
    requires lo <= hi <= |b|
  {
    off == 0 || Occurs(b, lo, hi, code, off) || (off == OFFSET_NOT_FOUND && Absent(b, lo, hi, code))
  }

  ghost predicate TableOk(b: Bytes, lo: nat, hi: nat, tab: seq<nat>)
    requires lo <= hi <= |b|
  {
    && |tab| == OFFTAB_SIZE
    && forall code: Byte :: Notable(code) ==> EntryOk(b, lo, hi, code, tab[AttrIndex(code)])
  }

  /** What nextbgpattrib leaves in the table after the attribute at p. */
  function Noted(b: Bytes, p: nat, tab: seq<nat>): (t: seq<nat>)
    requires p + 1 < |b| && |tab| == OFFTAB_SIZE
    ensures |t| == OFFTAB_SIZE
  {
    var i := AttrIndex(b[p + 1]);
    if i >= 0 then tab[i := p] else tab
  }

  lemma NotedOk(b: Bytes, lo: nat, hi: nat, tab: seq<nat>, p: nat)
    requires lo <= hi <= |b| && TableOk(b, lo, hi, tab)
    requires lo <= p < hi && Starts(b, lo, hi, p) && AttrFits(b, p, hi)
    ensures TableOk(b, lo, hi, Noted(b, p, tab))
  {
    var c := b[p + 1];
    var t := Noted(b, p, tab);
    assert Occurs(b, lo, hi, c, p);
    forall code: Byte | Notable(code) ensures EntryOk(b, lo, hi, code, t[AttrIndex(code)]) {
      assert EntryOk(b, lo, hi, code, tab[AttrIndex(code)]);
      assert AttrIndex(code) == AttrIndex(c) ==> code == c;
    }
  }

  /** Every notable attribute that starts before p has an entry. */
  ghost predicate SeenBefore(b: Bytes, lo: nat, hi: nat, p: nat, tab: seq<nat>)
    requires lo <= hi <= |b| && |tab| == OFFTAB_SIZE
  {
    forall code: Byte, q: nat :: Notable(code) && Occurs(b, lo, hi, code, q) && q < p ==>
      tab[AttrIndex(code)] != 0
  }

  lemma SeenNext(b: Bytes, lo: nat, hi: nat, p: nat, tab: seq<nat>)
    requires lo <= hi <= |b| && |tab| == OFFTAB_SIZE && 0 < lo
    requires SeenBefore(b, lo, hi, p, tab)
    requires lo <= p < hi && Starts(b, lo, hi, p) && AttrFits(b, p, hi)
    ensures SeenBefore(b, lo, hi, AttrEnd(b, p), Noted(b, p, tab))
  {
    var t := Noted(b, p, tab);
    forall code: Byte, q: nat | Notable(code) && Occurs(b, lo, hi, code, q) && q < AttrEnd(b, p)
      ensures t[AttrIndex(code)] != 0
    {
      if p < q {
        StartsApart(b, lo, hi, p, q);
        assert false;
      }
      assert q < p ==> tab[AttrIndex(code)] != 0;
    }
  }

  /** One step of a walk: it can only fail on a list that is not whole. */
  lemma ScanStep(b: Bytes, lo: nat, hi: nat, p: nat, tab: seq<nat>)
    requires 0 < lo <= hi <= |b| && |tab| == OFFTAB_SIZE
    requires lo <= p < hi && Starts(b, lo, hi, p) && SeenBefore(b, lo, hi, p, tab)
    ensures WholeFrom(b, lo, hi) ==> AttrFits(b, p, hi)
    ensures AttrFits(b, p, hi) ==>
              && SeenBefore(b, lo, hi, AttrEnd(b, p), Noted(b, p, tab))
              && Occurs(b, lo, hi, b[p + 1], p)
  {
    if WholeFrom(b, lo, hi) {
      StartsApart(b, lo, hi, p, hi);
    }
    if AttrFits(b, p, hi) {
      SeenNext(b, lo, hi, p, tab);
    }
  }

  /** What is still zero after a walk to the end is absent. */
  function Remapped(tab: seq<nat>): (t: seq<nat>)
    ensures |t| == |tab|
    ensures forall i :: 0 <= i < |tab| ==> t[i] == if tab[i] == 0 then OFFSET_NOT_FOUND else tab[i]
  {
    if tab == [] then []
    else [if tab[0] == 0 then OFFSET_NOT_FOUND else tab[0]] + Remapped(tab[1..])
  }

  lemma SeenAtStart(b: Bytes, lo: nat, hi: nat, tab: seq<nat>)
    requires lo <= hi <= |b| && |tab| == OFFTAB_SIZE
    ensures SeenBefore(b, lo, hi, lo, tab)
  {
  }

  lemma RemappedOk(b: Bytes, lo: nat, hi: nat, tab: seq<nat>)
    requires lo <= hi <= |b| && TableOk(b, lo, hi, tab)
    requires SeenBefore(b, lo, hi, hi, tab)
    ensures TableOk(b, lo, hi, Remapped(tab))
  {
    var t := Remapped(tab);
    forall code: Byte | Notable(code) ensures EntryOk(b, lo, hi, code, t[AttrIndex(code)]) {
      assert EntryOk(b, lo, hi, code, tab[AttrIndex(code)]);
      if tab[AttrIndex(code)] == 0 {
        forall p ensures !Occurs(b, lo, hi, code, p) {
        }
      }
    }
  }

  // ---- What a seek does to the table -------------------------------------

  /** The loop of seekbgpattr: notes every attribute up to the first with the code. */
  function Walked(b: Bytes, p: nat, hi: nat, tab: seq<nat>, code: Byte): (t: seq<nat>)
    requires p <= hi <= |b| && |tab| == OFFTAB_SIZE
    ensures |t| == OFFTAB_SIZE
    decreases hi - p
  {
    if p == hi || !AttrFits(b, p, hi) then tab
    else
      var t := Noted(b, p, tab);
      if b[p + 1] == code then t else Walked(b, AttrEnd(b, p), hi, t, code)
  }

  /** The table after a seek. */
  function Sought(b: Bytes, lo: nat, hi: nat, tab: seq<nat>, code: Byte): (t: seq<nat>)
    requires lo <= hi <= |b| && |tab| == OFFTAB_SIZE && Notable(code)
    ensures |t| == OFFTAB_SIZE
  {
    if tab[AttrIndex(code)] != 0 then tab
    else
      var t := Walked(b, lo, hi, tab, code);
      if t[AttrIndex(code)] == 0 then Remapped(t) else t
  }

  /** What the seek answers from that table. */
  function Answer(tab: seq<nat>, code: Byte): Option<nat>
    requires |tab| == OFFTAB_SIZE && Notable(code)
  {
    var off := tab[AttrIndex(code)];
    if off == OFFSET_NOT_FOUND then None else Some(off)
  }

  // ---- A plain scan ------------------------------------------------------

  /** The first attribute with this code, by a scan that keeps nothing. */
  function Scan(b: Bytes, lo: nat, hi: nat, code: Byte): (r: Option<nat>)
    requires lo <= hi <= |b|
    decreases hi - lo
  {
    if lo == hi || !AttrFits(b, lo, hi) then None
    else if b[lo + 1] == code then Some(lo)
    else Scan(b, AttrEnd(b, lo), hi, code)
  }

  /** No attribute with this code is there twice, as section 5 of RFC 4271 demands. */
  ghost predicate AtMostOnce(b: Bytes, lo: nat, hi: nat, code: Byte)
    requires lo <= hi <= |b|
  {
    forall p, q :: Occurs(b, lo, hi, code, p) && Occurs(b, lo, hi, code, q) ==> p == q
  }

  lemma {:induction false} ScanFindsTheFirst(b: Bytes, lo: nat, hi: nat, code: Byte)
    requires lo <= hi <= |b|
    ensures match Scan(b, lo, hi, code)
            case Some(p) =>
              Occurs(b, lo, hi, code, p) && forall q :: Occurs(b, lo, hi, code, q) ==> p <= q
            case None => Absent(b, lo, hi, code)
    decreases hi - lo
  {
    if lo == hi || !AttrFits(b, lo, hi) {
    } else if b[lo + 1] == code {
    } else {
      var next := AttrEnd(b, lo);
      ScanFindsTheFirst(b, next, hi, code);
      forall q | Occurs(b, lo, hi, code, q) ensures Occurs(b, next, hi, code, q) {
        StartsBound(b, next, hi, q);
      }
    }
  }

  /** What a seek may answer: an attribute with the code, or none if there is none. */
  ghost predicate Found(b: Bytes, lo: nat, hi: nat, code: Byte, r: Option<nat>)
    requires lo <= hi <= |b|
  {
    match r
    case Some(p) => Occurs(b, lo, hi, code, p)
    case None => Absent(b, lo, hi, code)
  }

  /** Every such answer is the one a plain scan gives if and only if the code is
      not repeated. */
  lemma FoundAgreesWithScan(b: Bytes, lo: nat, hi: nat, code: Byte)
    requires lo <= hi <= |b|
    ensures (forall r :: Found(b, lo, hi, code, r) ==> r == Scan(b, lo, hi, code)) <==> AtMostOnce(b, lo, hi, code)
  {
    ScanFindsTheFirst(b, lo, hi, code);
    if forall r :: Found(b, lo, hi, code, r) ==> r == Scan(b, lo, hi, code) {
      forall p, q | Occurs(b, lo, hi, code, p) && Occurs(b, lo, hi, code, q) ensures p == q {
        assert Found(b, lo, hi, code, Some(p)) && Found(b, lo, hi, code, Some(q));
      }
    }
  }

  // ---- A written list ----------------------------------------------------

  lemma {:induction false} WrittenIsWhole(b: Bytes, lo: nat, hi: nat, s: seq<Attr>)
    requires ValidAttrs(s) && lo <= hi <= |b| && b[lo..hi] == EncodeAttrs(s)
    ensures WholeFrom(b, lo, hi)
    ensures forall p :: lo <= p < hi && Starts(b, lo, hi, p) && AttrFits(b, p, hi) ==> b[p + 1] < 255
    decreases |s|
  {
    if s != [] {
      FirstAttr(b, lo, hi, s);
      var q := lo + |EncodeAttr(s[0])|;
      AttrReadsBack(b, lo, hi, s[0]);
      WrittenIsWhole(b, q, hi, s[1..]);
      forall p | lo < p < hi && Starts(b, lo, hi, p) && AttrFits(b, p, hi) ensures b[p + 1] < 255 {
        StartsBound(b, q, hi, p);
      }
    }
  }
}
