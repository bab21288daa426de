/** The AS path iterator of src/bgp.c: AS_PATH alone, or merged with AS4_PATH
    as section 4.2.3 of RFC 6793 demands. */
module AsPath {
  import opened BgpWire
  import opened Wrappers

  const AS_SEGMENT_SET: Byte := 1
  const AS_TRANS: nat := 23456

  datatype Seg = Seg(kind: Byte, ases: seq<nat>)

  /** as_pathent_t */
  datatype Entry = Entry(asSize: nat, kind: Byte, segno: int, asn: nat)

  // ---- The wire form -----------------------------------------------------

  ghost predicate ValidSize(asSize: nat) {
    asSize == 2 || asSize == 4
  }

  ghost predicate ValidSeg(asSize: nat, seg: Seg) {
    && |seg.ases| < 256
    && forall i :: 0 <= i < |seg.ases| ==> seg.ases[i] < if asSize == 2 then 0x1_0000 else 0x1_0000_0000
  }

  ghost predicate ValidPath(asSize: nat, segs: seq<Seg>) {
    forall i :: 0 <= i < |segs| ==> ValidSeg(asSize, segs[i])
  }

  ghost function EncodeAs(asSize: nat, asn: nat): (s: Bytes)
    requires ValidSize(asSize) && asn < if asSize == 2 then 0x1_0000 else 0x1_0000_0000
    ensures |s| == asSize
  {
    if asSize == 2 then U16(asn) else U32(asn)
  }

  /** The octets of so many AS numbers; sizes are 2 and 4. */
  function Octets(asSize: nat, count: nat): nat {
    if asSize == 2 then 2 * count else 4 * count
  }

  ghost function EncodeAses(asSize: nat, ases: seq<nat>): (s: Bytes)
    requires ValidSize(asSize) && ValidSeg(asSize, Seg(0, ases))
    ensures |s| == Octets(asSize, |ases|)
  {
    if ases == [] then [] else EncodeAs(asSize, ases[0]) + EncodeAses(asSize, ases[1..])
  }

  ghost function EncodePath(asSize: nat, segs: seq<Seg>): (s: Bytes)
    requires ValidSize(asSize) && ValidPath(asSize, segs)
    ensures s == [] <==> segs == []
  {
    if segs == [] then []
    else [segs[0].kind, |segs[0].ases|] + EncodeAses(asSize, segs[0].ases) + EncodePath(asSize, segs[1..])
  }

  // ---- Hops --------------------------------------------------------------

  /** A SET counts once. */
  function SegHops(kind: Byte, count: nat): nat {
    if kind == AS_SEGMENT_SET then 1 else count
  }

  function Hops(segs: seq<Seg>): nat {
    if segs == [] then 0 else SegHops(segs[0].kind, |segs[0].ases|) + Hops(segs[1..])
  }

  /** AS_SET is kind 1 in section 4.3 of RFC 4271. */
  lemma HopsAre(seg: Seg, rest: seq<Seg>)
    ensures Hops([]) == 0
    ensures Hops([seg] + rest) == (if seg.kind == 1 then 1 else |seg.ases|) + Hops(rest)
  {
    assert ([seg] + rest)[1..] == rest;
  }

  /** The count startrealaspath_r makes between p and hi; None when a segment
      runs over the end. */
  function HopsFrom(asSize: nat, b: Bytes, p: nat, hi: nat): Option<nat>
    requires hi <= |b|
    decreases hi - p
  {
    if p > hi then None
    else if p == hi then Some(0)
    else if p + 1 == hi then None
    else
      var count: nat := b[p + 1];
      var rest := HopsFrom(asSize, b, p + 2 + Octets(asSize, count), hi);
      if rest.None? then None else Some(SegHops(b[p], count) + rest.value)
  }

  lemma FirstSeg(asSize: nat, b: Bytes, p: nat, hi: nat, segs: seq<Seg>)
    requires ValidSize(asSize) && ValidPath(asSize, segs) && segs != []
    requires p <= hi <= |b| && b[p..hi] == EncodePath(asSize, segs)
    ensures var n := |segs[0].ases|; var q := p + 2 + Octets(asSize, n);
            && q <= hi && b[p] == segs[0].kind && b[p + 1] == n
            && b[p + 2..q] == EncodeAses(asSize, segs[0].ases) && b[q..hi] == EncodePath(asSize, segs[1..])
  {
    var a, r := EncodeAses(asSize, segs[0].ases), EncodePath(asSize, segs[1..]);
    assert b[p..hi] == [segs[0].kind, |segs[0].ases|] + a + r;
    hide EncodeAses, EncodePath;
    ThreeParts(b, p, hi, segs[0].kind, |segs[0].ases|, a, r);
  }

  lemma ThreeParts(b: Bytes, p: nat, hi: nat, kind: Byte, count: Byte, a: Bytes, r: Bytes)
    requires p <= hi <= |b| && b[p..hi] == [kind, count] + a + r
    ensures var q := p + 2 + |a|;
            q <= hi && b[p] == kind && b[p + 1] == count && b[p + 2..q] == a && b[q..hi] == r
  {
    var s := b[p..hi];
    assert s[0] == kind && s[1] == count && s[2..2 + |a|] == a && s[2 + |a|..] == r;
    SliceOfSlice(b, p, hi, 2, 2 + |a|);
    SliceOfSlice(b, p, hi, 2 + |a|, |s|);
  }

  lemma PathParts(asSize: nat, segs: seq<Seg>)
    requires ValidPath(asSize, segs) && segs != []
    ensures ValidSeg(asSize, Seg(0, segs[0].ases)) && ValidPath(asSize, segs[1..])
  {
    assert ValidSeg(asSize, segs[0]);
  }

  lemma HopsFromHeader(asSize: nat, b: Bytes, p: nat, hi: nat, kind: Byte, count: nat, rest: nat,
                       segs: seq<Seg>)
    requires p + 2 <= hi <= |b| && b[p] == kind && b[p + 1] == count
    requires HopsFrom(asSize, b, p + 2 + Octets(asSize, count), hi) == Some(rest)
    requires segs != [] && segs[0].kind == kind && |segs[0].ases| == count && Hops(segs[1..]) == rest
    ensures HopsFrom(asSize, b, p, hi) == Some(Hops(segs))
  {
  }

  lemma NoSegsNoHops()
    ensures Hops([]) == 0
  {
  }

  lemma {:induction false} HopsOfWire(asSize: nat, b: Bytes, p: nat, hi: nat, segs: seq<Seg>)
    requires ValidSize(asSize) && ValidPath(asSize, segs)
    requires p <= hi <= |b| && b[p..hi] == EncodePath(asSize, segs)
    ensures HopsFrom(asSize, b, p, hi) == Some(Hops(segs))
    decreases |segs|
  {
    hide ValidPath, ValidSeg, EncodeAses, Octets, Hops;
    if segs == [] {
      assert |b[p..hi]| == 0;
      NoSegsNoHops();
    } else {
      FirstSeg(asSize, b, p, hi, segs);
      PathParts(asSize, segs);
      var kind, n := segs[0].kind, |segs[0].ases|;
      HopsOfWire(asSize, b, p + 2 + Octets(asSize, n), hi, segs[1..]);
      HopsFromHeader(asSize, b, p, hi, kind, n, Hops(segs[1..]), segs);
    }
  }

  lemma HopsAt(asSize: nat, b: Bytes, span: Span, segs: seq<Seg>)
    ensures PathAt(b, span, asSize, segs) ==> HopsFrom(asSize, b, span.lo, span.hi) == Some(Hops(segs))
  {
    if PathAt(b, span, asSize, segs) {
      HopsOfWire(asSize, b, span.lo, span.hi, segs);
    }
  }

  // ---- Any octets --------------------------------------------------------

  lemma NumberThere(asSize: nat, b: Bytes, p: nat) returns (n: nat)
    requires ValidSize(asSize) && p + asSize <= |b|
    ensures n < (if asSize == 2 then 0x1_0000 else 0x1_0000_0000) && b[p..p + asSize] == EncodeAs(asSize, n)
  {
    n := if asSize == 2 then BE16(b, p) else BE32(b, p);
  }

  /** Any octets are those of some AS numbers. */
  lemma {:induction false} NumbersThere(asSize: nat, b: Bytes, p: nat, count: nat) returns (ases: seq<nat>)
    requires ValidSize(asSize) && p + Octets(asSize, count) <= |b| && count < 256
    ensures |ases| == count && ValidSeg(asSize, Seg(0, ases))
    ensures b[p..p + Octets(asSize, count)] == EncodeAses(asSize, ases)
    decreases count
  {
    if count == 0 {
      ases := [];
    } else {
      var rest := NumbersThere(asSize, b, p + asSize, count - 1);
      var n := NumberThere(asSize, b, p);
      ases := [n] + rest;
      var q := p + Octets(asSize, count);
      assert ases[1..] == rest;
      assert b[p..q] == b[p..p + asSize] + b[p + asSize..q];
    }
  }

  lemma PathBehindHeader(asSize: nat, b: Bytes, p: nat, q: nat, hi: nat, ases: seq<nat>, rest: seq<Seg>)
    requires ValidSize(asSize) && p + 2 <= q <= hi <= |b|
    requires ValidSeg(asSize, Seg(0, ases)) && ValidPath(asSize, rest)
    requires b[p + 1] == |ases| && b[p + 2..q] == EncodeAses(asSize, ases) && b[q..hi] == EncodePath(asSize, rest)
    ensures var segs := [Seg(b[p], ases)] + rest; ValidPath(asSize, segs) && b[p..hi] == EncodePath(asSize, segs)
  {
    PathOfFirst(asSize, Seg(b[p], ases), rest);
    hide EncodePath, EncodeAses, ValidPath, ValidSeg;
    HeaderAndParts(b, p, q, hi);
  }

  lemma HeaderAndParts(b: Bytes, p: nat, q: nat, hi: nat)
    requires p + 2 <= q <= hi <= |b|
    ensures b[p..hi] == [b[p], b[p + 1]] + b[p + 2..q] + b[q..hi]
  {
  }

  lemma PathOfFirst(asSize: nat, seg: Seg, rest: seq<Seg>)
    requires ValidSize(asSize) && ValidSeg(asSize, Seg(0, seg.ases)) && ValidPath(asSize, rest)
    ensures ValidPath(asSize, [seg] + rest)
    ensures EncodePath(asSize, [seg] + rest) ==
            [seg.kind, |seg.ases|] + EncodeAses(asSize, seg.ases) + EncodePath(asSize, rest)
  {
    var segs := [seg] + rest;
    assert segs[1..] == rest;
    forall i | 0 <= i < |segs| ensures ValidSeg(asSize, segs[i]) {
      assert i > 0 ==> segs[i] == rest[i - 1];
    }
  }

  lemma {:induction false} PathOfOctets(asSize: nat, b: Bytes, p: nat, hi: nat) returns (segs: seq<Seg>)
    requires ValidSize(asSize) && p <= hi <= |b| && HopsFrom(asSize, b, p, hi).Some?
    ensures ValidPath(asSize, segs) && b[p..hi] == EncodePath(asSize, segs)
    decreases hi - p
  {
    if p == hi {
      segs := [];
    } else {
      var count: nat := b[p + 1];
      var q := p + 2 + Octets(asSize, count);
      assert q <= hi && HopsFrom(asSize, b, q, hi).Some?;
      hide HopsFrom;
      var ases := NumbersThere(asSize, b, p + 2, count);
      var rest := PathOfOctets(asSize, b, q, hi);
      PathBehindHeader(asSize, b, p, q, hi, ases, rest);
      segs := [Seg(b[p], ases)] + rest;
    }
  }

  /** There is a count exactly when the octets are those of a path. */
  lemma CountedIsAPath(asSize: nat, b: Bytes, p: nat, hi: nat)
    requires ValidSize(asSize) && p <= hi <= |b|
    ensures HopsFrom(asSize, b, p, hi).Some? <==>
            exists segs :: ValidPath(asSize, segs) && b[p..hi] == EncodePath(asSize, segs)
  {
    hide HopsFrom, ValidPath, EncodePath;
    if HopsFrom(asSize, b, p, hi).Some? {
      var segs := PathOfOctets(asSize, b, p, hi);
    }
    forall segs | ValidPath(asSize, segs) && b[p..hi] == EncodePath(asSize, segs)
      ensures HopsFrom(asSize, b, p, hi).Some?
    {
      HopsOfWire(asSize, b, p, hi, segs);
    }
  }

  /** One of the two counting loops of startrealaspath_r. */
  method CountHops(asSize: nat, b: Bytes, lo: nat, hi: nat) returns (count: nat, over: bool)
    requires lo <= hi <= |b|
    ensures over == HopsFrom(asSize, b, lo, hi).None?
    ensures !over ==> HopsFrom(asSize, b, lo, hi) == Some(count)
  {
    var ptr := lo;
    count := 0;
    while ptr < hi
      invariant lo <= ptr
      invariant HopsFrom(asSize, b, lo, hi).None? == HopsFrom(asSize, b, ptr, hi).None?
      invariant HopsFrom(asSize, b, ptr, hi).Some? ==>
                  HopsFrom(asSize, b, lo, hi) == Some(count + HopsFrom(asSize, b, ptr, hi).value)
    {
      // a count past the buffer leads over the end, whatever it is
      var kind, n: nat := b[ptr], if ptr + 1 < |b| then b[ptr + 1] else 0;
      ptr := ptr + 2 + Octets(asSize, n);
      if kind == AS_SEGMENT_SET {
        n := 1;
      }
      count := count + n;
    }
    over := ptr > hi;
  }

  // ---- Entries -----------------------------------------------------------

  ghost function SegEntries(asSize: nat, kind: Byte, segno: int, ases: seq<nat>): (es: seq<Entry>)
    ensures |es| == |ases|
    ensures forall i :: 0 <= i < |es| ==> es[i] == Entry(asSize, kind, segno, ases[i])
  {
    seq(|ases|, i requires 0 <= i < |ases| => Entry(asSize, kind, segno, ases[i]))
  }

  /** What a plain iteration yields; segments are numbered from segno on. */
  ghost function Entries(asSize: nat, segs: seq<Seg>, segno: int): seq<Entry> {
    if segs == [] then []
    else SegEntries(asSize, segs[0].kind, segno, segs[0].ases) + Entries(asSize, segs[1..], segno + 1)
  }

  /** An entry is a hop unless it continues the SET the one before it is in. */
  function IsHop(e: Entry, prev: int): nat {
    if e.kind != AS_SEGMENT_SET || e.segno != prev then 1 else 0
  }

  function HopsOf(es: seq<Entry>, prev: int): nat {
    if es == [] then 0 else IsHop(es[0], prev) + HopsOf(es[1..], es[0].segno)
  }

  ghost predicate NoEmptySet(segs: seq<Seg>) {
    forall i :: 0 <= i < |segs| ==> segs[i].kind == AS_SEGMENT_SET ==> segs[i].ases != []
  }

  lemma {:induction false} HopsOfSegment(asSize: nat, kind: Byte, segno: int, ases: seq<nat>, rest: seq<Entry>,
                                         prev: int)
    ensures HopsOf(SegEntries(asSize, kind, segno, ases) + rest, prev) ==
            (if ases == [] then HopsOf(rest, prev)
             else if kind == AS_SEGMENT_SET then (if prev == segno then 0 else 1) + HopsOf(rest, segno)
             else |ases| + HopsOf(rest, segno))
    decreases |ases|
  {
    var es := SegEntries(asSize, kind, segno, ases);
    if ases == [] {
      assert es + rest == rest;
    } else {
      var tail := SegEntries(asSize, kind, segno, ases[1..]);
      assert (es + rest)[0] == es[0] && (es + rest)[1..] == tail + rest;
      HopsOfSegment(asSize, kind, segno, ases[1..], rest, segno);
    }
  }

  function EmptySets(segs: seq<Seg>): nat {
    if segs == [] then 0
    else (if segs[0].kind == AS_SEGMENT_SET && segs[0].ases == [] then 1 else 0) + EmptySets(segs[1..])
  }

  /** The count of startrealaspath_r is the hops an iteration yields and one more
      for every empty SET, which has no entry to show for it. */
  lemma {:induction false} HopsOfEntries(asSize: nat, segs: seq<Seg>, segno: int, prev: int)
    requires prev < segno
    ensures HopsOf(Entries(asSize, segs, segno), prev) + EmptySets(segs) == Hops(segs)
    decreases |segs|
  {
    if segs != [] {
      var rest := Entries(asSize, segs[1..], segno + 1);
      HopsOfSegment(asSize, segs[0].kind, segno, segs[0].ases, rest, prev);
      HopsOfEntries(asSize, segs[1..], segno + 1, if segs[0].ases == [] then prev else segno);
    }
  }

  lemma {:induction false} NoneIsEmpty(segs: seq<Seg>)
    ensures EmptySets(segs) == 0 <==> NoEmptySet(segs)
    decreases |segs|
  {
    if segs != [] {
      NoneIsEmpty(segs[1..]);
      assert NoEmptySet(segs) ==> NoEmptySet(segs[1..]);
      assert forall i :: 0 < i < |segs| ==> segs[i] == segs[1..][i - 1];
    }
  }

  /** So the two counts agree if and only if no SET is empty. */
  lemma CountsAgree(asSize: nat, segs: seq<Seg>, segno: int, prev: int)
    requires prev < segno
    ensures HopsOf(Entries(asSize, segs, segno), prev) == Hops(segs) <==> NoEmptySet(segs)
  {
    HopsOfEntries(asSize, segs, segno, prev);
    NoneIsEmpty(segs);
  }

  // ---- The merged path ---------------------------------------------------

  /** What the iterator still yields when `left` is what is left of AS_PATH and
      `n` hops of it are wanted; the entry it stops at is read and dropped. */
  ghost function Merged(left: seq<Entry>, prev: int, n: nat, as4: seq<Seg>): seq<Entry>
    decreases |left|
  {
    if left == [] then []
    else if n == 0 then Entries(4, as4, left[0].segno + 1)
    else [left[0]] + Merged(left[1..], left[0].segno, if IsHop(left[0], prev) == 1 then n - 1 else n, as4)
  }

  /** The first k entries are the shortest run with n hops. */
  ghost predicate ShortestRun(es: seq<Entry>, prev: int, n: nat, k: nat) {
    k <= |es| && HopsOf(es[..k], prev) == n && forall j :: 0 <= j < k ==> HopsOf(es[..j], prev) < n
  }

  /** Segment numbers never fall. */
  ghost predicate Rising(es: seq<Entry>, prev: int) {
    es == [] || (prev <= es[0].segno && Rising(es[1..], es[0].segno))
  }

  lemma {:induction false} RisingSegment(asSize: nat, kind: Byte, segno: int, ases: seq<nat>, rest: seq<Entry>,
                                         prev: int)
    requires prev <= segno && Rising(rest, segno)
    ensures Rising(SegEntries(asSize, kind, segno, ases) + rest, prev)
    decreases |ases|
  {
    var es := SegEntries(asSize, kind, segno, ases);
    if ases == [] {
      assert es + rest == rest;
    } else {
      var tail := SegEntries(asSize, kind, segno, ases[1..]);
      assert (es + rest)[0] == es[0] && (es + rest)[1..] == tail + rest;
      RisingSegment(asSize, kind, segno, ases[1..], rest, segno);
    }
  }

  lemma {:induction false} EntriesRise(asSize: nat, segs: seq<Seg>, segno: int, prev: int)
    requires prev <= segno
    ensures Rising(Entries(asSize, segs, segno), prev)
    decreases |segs|
  {
    if segs != [] {
      EntriesRise(asSize, segs[1..], segno + 1, segno);
      RisingSegment(asSize, segs[0].kind, segno, segs[0].ases, Entries(asSize, segs[1..], segno + 1), prev);
    }
  }

  lemma {:induction false} NoHopsNoEntries(asSize: nat, segs: seq<Seg>, segno: int)
    requires NoEmptySet(segs) && Hops(segs) == 0
    ensures Entries(asSize, segs, segno) == []
    decreases |segs|
  {
    if segs != [] {
      assert NoEmptySet(segs[1..]);
      NoHopsNoEntries(asSize, segs[1..], segno + 1);
      assert segs[0].ases == [];
    }
  }

  lemma RunOneMore(es: seq<Entry>, prev: int, n: nat, k: nat)
    requires es != [] && n > 0 && IsHop(es[0], prev) <= n
    requires ShortestRun(es[1..], es[0].segno, n - IsHop(es[0], prev), k)
    ensures ShortestRun(es, prev, n, k + 1)
  {
    assert es[..k + 1][1..] == es[1..][..k];
    forall j | 0 <= j < k + 1 ensures HopsOf(es[..j], prev) < n {
      if j > 0 {
        assert es[..j][1..] == es[1..][..j - 1];
      }
    }
  }

  lemma HopsOfFirst(e: Entry, t: seq<Entry>, prev: int)
    ensures HopsOf([e] + t, prev) == IsHop(e, prev) + HopsOf(t, e.segno)
  {
    assert ([e] + t)[1..] == t;
  }

  lemma RunExtended(es: seq<Entry>, k: nat, x: seq<Entry>)
    requires es != [] && k < |es|
    ensures [es[0]] + (es[1..][..k] + x) == es[..k + 1] + x
  {
  }

  /** Some entry comes after a run with n hops: the iterator goes over to AS4_PATH
      when it reads it. */
  ghost predicate Reached(es: seq<Entry>, prev: int, n: nat) {
    exists j: nat :: j < |es| && HopsOf(es[..j], prev) == n
  }

  lemma ReachedNext(es: seq<Entry>, prev: int, n: nat)
    requires es != [] && n > 0
    ensures Reached(es, prev, n) <==> Reached(es[1..], es[0].segno, n - IsHop(es[0], prev))
  {
    forall j: nat | j < |es| - 1
      ensures HopsOf(es[..j + 1], prev) == IsHop(es[0], prev) + HopsOf(es[1..][..j], es[0].segno)
    {
      assert es[..j + 1][1..] == es[1..][..j];
    }
    if Reached(es, prev, n) {
      var j: nat :| j < |es| && HopsOf(es[..j], prev) == n;
      assert j > 0 && HopsOf(es[1..][..j - 1], es[0].segno) == n - IsHop(es[0], prev);
    }
    if Reached(es[1..], es[0].segno, n - IsHop(es[0], prev)) {
      var j: nat :| j < |es| - 1 && HopsOf(es[1..][..j], es[0].segno) == n - IsHop(es[0], prev);
      assert HopsOf(es[..j + 1], prev) == n;
    }
  }

  /** One entry of AS_PATH in front of what is merged after it. */
  lemma MergedNext(left: seq<Entry>, prev: int, n: nat, as4: seq<Seg>, m: nat, k: nat, segno: int, t: seq<Entry>)
    requires left != [] && n > 0 && n == m + IsHop(left[0], prev)
    requires ShortestRun(left[1..], left[0].segno, m, k)
    requires t == Merged(left[1..], left[0].segno, m, as4) == left[1..][..k] + Entries(4, as4, segno)
    ensures ShortestRun(left, prev, n, k + 1)
    ensures Merged(left, prev, n, as4) == [left[0]] + t == left[..k + 1] + Entries(4, as4, segno)
  {
    RunOneMore(left, prev, n, k);
    RunExtended(left, k, Entries(4, as4, segno));
  }

  /** Where the run is reached, the merged path is the shortest run of AS_PATH
      with the missing hops and then all of AS4_PATH. */
  lemma {:induction false} MergedIsRunThenAs4(left: seq<Entry>, prev: int, n: nat, as4: seq<Seg>)
    returns (k: nat, segno: int)
    requires Reached(left, prev, n) && Rising(left, prev)
    ensures k < |left| && ShortestRun(left, prev, n, k)
    ensures Merged(left, prev, n, as4) == left[..k] + Entries(4, as4, segno)
    ensures HopsOf(Merged(left, prev, n, as4), prev) + EmptySets(as4) == n + Hops(as4)
    decreases |left|
  {
    if n == 0 {
      k, segno := 0, left[0].segno + 1;
      assert left[..0] + Entries(4, as4, segno) == Entries(4, as4, segno);
      HopsOfEntries(4, as4, segno, prev);
    } else {
      ReachedNext(left, prev, n);
      var m := n - IsHop(left[0], prev);
      var t := Merged(left[1..], left[0].segno, m, as4);
      k, segno := MergedIsRunThenAs4(left[1..], left[0].segno, m, as4);
      MergedNext(left, prev, n, as4, m, k, segno, t);
      HopsOfFirst(left[0], t, prev);
      k := k + 1;
    }
  }

  /** Where it is not, AS_PATH ends before AS4_PATH is turned to. */
  lemma {:induction false} MergedIsLeft(left: seq<Entry>, prev: int, n: nat, as4: seq<Seg>)
    requires !Reached(left, prev, n)
    ensures Merged(left, prev, n, as4) == left
    decreases |left|
  {
    if left != [] {
      NoHopsReached(left, prev);
      ReachedNext(left, prev, n);
      MergedIsLeft(left[1..], left[0].segno, n - IsHop(left[0], prev), as4);
    }
  }

  lemma NoHopsReached(es: seq<Entry>, prev: int)
    requires es != []
    ensures Reached(es, prev, 0)
  {
    assert HopsOf(es[..0], prev) == 0;
  }

  /** AS4_PATH is used: 16-bit speaker, the attribute is there, and the
      aggregator, if both aggregators are there, is AS_TRANS. */
  predicate Applies(asn32: bool, aggregator: Option<nat>, hasAs4Aggregator: bool, hasAs4Path: bool) {
    !asn32 && hasAs4Path && !(aggregator.Some? && hasAs4Aggregator && aggregator.value != AS_TRANS)
  }

  /** What the real AS path is, from the two attributes. */
  ghost function RealPath(asSize: nat, applies: bool, segs: seq<Seg>, segs4: seq<Seg>): seq<Entry> {
    if applies && Hops(segs) >= Hops(segs4)
    then Merged(Entries(asSize, segs, 0), -1, Hops(segs) - Hops(segs4), segs4)
    else Entries(asSize, segs, 0)
  }

  /** The iteration over the real path goes on from AS_PATH to AS4_PATH. */
  ghost predicate Switches(asSize: nat, applies: bool, segs: seq<Seg>, segs4: seq<Seg>) {
    applies && Hops(segs) >= Hops(segs4) && Reached(Entries(asSize, segs, 0), -1, Hops(segs) - Hops(segs4))
  }

  /** What the real path is, for all paths, and exactly when it has the hops of
      AS_PATH: the path it ends in has no empty SET. */
  lemma RealPathKeepsHops(asSize: nat, applies: bool, segs: seq<Seg>, segs4: seq<Seg>)
    ensures HopsOf(RealPath(asSize, applies, segs, segs4), -1) == Hops(segs) <==>
            EmptySets(if Switches(asSize, applies, segs, segs4) then segs4 else segs) == 0
    ensures !Switches(asSize, applies, segs, segs4) ==>
              RealPath(asSize, applies, segs, segs4) == Entries(asSize, segs, 0)
    ensures Switches(asSize, applies, segs, segs4) ==>
              exists k: nat, segno :: ShortestRun(Entries(asSize, segs, 0), -1, Hops(segs) - Hops(segs4), k)
                && RealPath(asSize, applies, segs, segs4) == Entries(asSize, segs, 0)[..k] + Entries(4, segs4, segno)
  {
    var es := Entries(asSize, segs, 0);
    HopsOfEntries(asSize, segs, 0, -1);
    if Switches(asSize, applies, segs, segs4) {
      EntriesRise(asSize, segs, 0, -1);
      var k, segno := MergedIsRunThenAs4(es, -1, Hops(segs) - Hops(segs4), segs4);
    } else if applies && Hops(segs) >= Hops(segs4) {
      MergedIsLeft(es, -1, Hops(segs) - Hops(segs4), segs4);
    }
  }

  lemma {:induction false} PrefixHops(es: seq<Entry>, prev: int, j: nat)
    requires j <= |es|
    ensures HopsOf(es[..j], prev) <= HopsOf(es, prev)
    decreases j
  {
    if j > 0 {
      assert es[..j][1..] == es[1..][..j - 1];
      PrefixHops(es[1..], es[0].segno, j - 1);
    }
  }

  lemma {:induction false} FewerAreReached(es: seq<Entry>, prev: int, n: nat)
    requires n < HopsOf(es, prev)
    ensures Reached(es, prev, n)
    decreases |es|
  {
    if n == 0 {
      NoHopsReached(es, prev);
    } else {
      FewerAreReached(es[1..], es[0].segno, n - IsHop(es[0], prev));
      ReachedNext(es, prev, n);
    }
  }

  /** A run not reached that is as long as the path is the path. */
  lemma WholeRun(es: seq<Entry>, prev: int, n: nat)
    requires n == HopsOf(es, prev) && !Reached(es, prev, n)
    ensures ShortestRun(es, prev, n, |es|)
  {
    assert es[..|es|] == es;
    forall j: nat | j < |es| ensures HopsOf(es[..j], prev) < n {
      PrefixHops(es, prev, j);
    }
  }

  /** Section 4.2.3 of RFC 6793, for paths without empty SETs: where AS4_PATH
      applies and is no longer than AS_PATH, the shortest run of AS_PATH that
      makes up the difference and then all of AS4_PATH; otherwise all of AS_PATH.
      Either way no hop is lost. */
  lemma RealPathIsMerge(asSize: nat, applies: bool, segs: seq<Seg>, segs4: seq<Seg>)
    requires NoEmptySet(segs) && NoEmptySet(segs4)
    ensures HopsOf(RealPath(asSize, applies, segs, segs4), -1) == Hops(segs)
    ensures !(applies && Hops(segs) >= Hops(segs4)) ==>
              RealPath(asSize, applies, segs, segs4) == Entries(asSize, segs, 0)
    ensures applies && Hops(segs) >= Hops(segs4) ==>
              exists k: nat, segno :: ShortestRun(Entries(asSize, segs, 0), -1, Hops(segs) - Hops(segs4), k)
                && RealPath(asSize, applies, segs, segs4) == Entries(asSize, segs, 0)[..k] + Entries(4, segs4, segno)
  {
    RealPathKeepsHops(asSize, applies, segs, segs4);
    NoneIsEmpty(segs);
    NoneIsEmpty(segs4);
    if applies && Hops(segs) >= Hops(segs4) && !Switches(asSize, applies, segs, segs4) {
      var es, n := Entries(asSize, segs, 0), Hops(segs) - Hops(segs4);
      HopsOfEntries(asSize, segs, 0, -1);
      if n < HopsOf(es, -1) {
        FewerAreReached(es, -1, n);
      }
      WholeRun(es, -1, n);
      NoHopsNoEntries(4, segs4, 0);
      assert es[..|es|] + Entries(4, segs4, 0) == es;
    }
  }

  /** A path with an empty SET for which the merge fails: AS_PATH counts one hop
      more than AS4_PATH, its only entry is taken for that hop, and the iteration
      ends before AS4_PATH is turned to. */
  lemma EmptySetHidesAs4()
    ensures var segs, segs4 := [Seg(AS_SEGMENT_SET, []), Seg(2, [AS_TRANS])], [Seg(2, [0x1_0000])];
            && Hops(segs) == 2 && Hops(segs4) == 1
            && RealPath(2, true, segs, segs4) == [Entry(2, 2, 1, AS_TRANS)]
            && HopsOf(RealPath(2, true, segs, segs4), -1) == 1
  {
    var segs, segs4 := [Seg(AS_SEGMENT_SET, []), Seg(2, [AS_TRANS])], [Seg(2, [0x1_0000])];
    assert segs[1..] == [Seg(2, [AS_TRANS])] && segs[1..][1..] == [] && segs4[1..] == [];
    assert Hops(segs[1..]) == 1;
    var e := Entry(2, 2, 1, AS_TRANS);
    assert SegEntries(2, 2, 1, [AS_TRANS]) == [e];
    assert Entries(2, segs[1..], 1) == [e] + Entries(2, [], 2) == [e];
    assert SegEntries(2, AS_SEGMENT_SET, 0, []) == [];
    assert Entries(2, segs, 0) == [] + [e] == [e];
    assert [e][1..] == [];
    assert Merged([e], -1, 1, segs4) == [e] + Merged([], 1, 0, segs4);
  }

  // ---- The iterator ------------------------------------------------------

  datatype Span = Span(lo: nat, hi: nat)

  ghost predicate PathAt(b: Bytes, span: Span, asSize: nat, segs: seq<Seg>) {
    && ValidSize(asSize) && ValidPath(asSize, segs)
    && span.lo <= span.hi <= |b| && b[span.lo..span.hi] == EncodePath(asSize, segs)
  }

  /** The cursor: `cur` is left of the current segment, `rest` after it. */
  ghost predicate CursorAt(b: Bytes, p: nat, hi: nat, asSize: nat, cur: seq<nat>, rest: seq<Seg>) {
    && p <= hi <= |b| && ValidSize(asSize)
    && ValidSeg(asSize, Seg(0, cur)) && ValidPath(asSize, rest)
    && b[p..hi] == EncodeAses(asSize, cur) + EncodePath(asSize, rest)
  }

  lemma AtSegment(b: Bytes, p: nat, hi: nat, asSize: nat, rest: seq<Seg>)
    requires CursorAt(b, p, hi, asSize, [], rest) && p != hi
    ensures rest != [] && b[p..hi] == EncodePath(asSize, rest)
  {
    var x := EncodePath(asSize, rest);
    assert [] + x == x;
    assert |b[p..hi]| > 0;
  }

  lemma SplitAt(b: Bytes, lo: nat, mid: nat, hi: nat)
    requires lo <= mid <= hi <= |b|
    ensures b[lo..hi] == b[lo..mid] + b[mid..hi]
  {
  }

  lemma AtParts(b: Bytes, p: nat, q: nat, hi: nat, asSize: nat, cur: seq<nat>, rest: seq<Seg>)
    requires p <= q <= hi <= |b| && ValidSize(asSize)
    requires ValidSeg(asSize, Seg(0, cur)) && ValidPath(asSize, rest)
    requires b[p..q] == EncodeAses(asSize, cur) && b[q..hi] == EncodePath(asSize, rest)
    ensures CursorAt(b, p, hi, asSize, cur, rest)
  {
    SplitAt(b, p, q, hi);
  }

  lemma NextSegment(b: Bytes, p: nat, hi: nat, asSize: nat, rest: seq<Seg>)
    requires CursorAt(b, p, hi, asSize, [], rest) && p != hi
    ensures p + 2 <= hi && rest != []
    ensures b[p] == rest[0].kind && b[p + 1] == |rest[0].ases|
    ensures CursorAt(b, p + 2, hi, asSize, rest[0].ases, rest[1..])
  {
    AtSegment(b, p, hi, asSize, rest);
    FirstSeg(asSize, b, p, hi, rest);
    PathParts(asSize, rest);
    AtParts(b, p + 2, p + 2 + Octets(asSize, |rest[0].ases|), hi, asSize, rest[0].ases, rest[1..]);
  }

  lemma HeadAndTail(b: Bytes, p: nat, hi: nat, x: Bytes, y: Bytes, z: Bytes)
    requires p <= hi <= |b| && b[p..hi] == (x + y) + z
    ensures p + |x| <= hi && b[p..p + |x|] == x && b[p + |x|..hi] == y + z
  {
    var s := b[p..hi];
    assert s == x + (y + z);
    assert s[0..|x|] == x && s[|x|..|s|] == y + z;
    SliceOfSlice(b, p, hi, 0, |x|);
    SliceOfSlice(b, p, hi, |x|, |s|);
  }

  lemma NextAs(b: Bytes, p: nat, hi: nat, asSize: nat, cur: seq<nat>, rest: seq<Seg>)
    requires CursorAt(b, p, hi, asSize, cur, rest) && cur != []
    ensures p + asSize <= hi && CursorAt(b, p + asSize, hi, asSize, cur[1..], rest)
    ensures cur[0] == if asSize == 2 then BE16(b, p) else BE32(b, p)
  {
    var x, y, z := EncodeAs(asSize, cur[0]), EncodeAses(asSize, cur[1..]), EncodePath(asSize, rest);
    assert EncodeAses(asSize, cur) == x + y;
    HeadAndTail(b, p, hi, x, y, z);
    if asSize == 2 {
      BE16Reads(b, p, cur[0]);
    } else {
      BE32Reads(b, p, cur[0]);
    }
  }

  /** The entries still ahead of the cursor in its own path. */
  ghost function Remaining(asp: Entry, cur: seq<nat>, rest: seq<Seg>): seq<Entry> {
    SegEntries(asp.asSize, asp.kind, asp.segno, cur) + Entries(asp.asSize, rest, asp.segno + 1)
  }

  lemma RemainingHeader(asp: Entry, rest: seq<Seg>)
    requires rest != []
    ensures Remaining(asp, [], rest) ==
            Remaining(asp.(kind := rest[0].kind, segno := asp.segno + 1), rest[0].ases, rest[1..])
  {
    assert SegEntries(asp.asSize, asp.kind, asp.segno, []) == [];
  }

  lemma RemainingHead(asp: Entry, cur: seq<nat>, rest: seq<Seg>)
    requires cur != []
    ensures Remaining(asp, cur, rest) == [asp.(asn := cur[0])] + Remaining(asp.(asn := cur[0]), cur[1..], rest)
  {
    var e, t := SegEntries(asp.asSize, asp.kind, asp.segno, cur), SegEntries(asp.asSize, asp.kind, asp.segno, cur[1..]);
    assert e == [asp.(asn := cur[0])] + t;
    var r := Entries(asp.asSize, rest, asp.segno + 1);
    assert ([asp.(asn := cur[0])] + t) + r == [asp.(asn := cur[0])] + (t + r);
  }

  lemma RemainingNone(b: Bytes, p: nat, asp: Entry, rest: seq<Seg>)
    requires CursorAt(b, p, p, asp.asSize, [], rest)
    ensures rest == [] && Remaining(asp, [], rest) == []
  {
    assert EncodePath(asp.asSize, rest) == b[p..p] == [];
  }

  lemma RemainingAll(asp: Entry, segs: seq<Seg>)
    ensures Remaining(asp, [], segs) == Entries(asp.asSize, segs, asp.segno + 1)
  {
    assert SegEntries(asp.asSize, asp.kind, asp.segno, []) == [];
  }

  /** A negative count never runs out. */
  ghost function Pending(left: seq<Entry>, prev: int, ascount: int, as4: seq<Seg>): seq<Entry> {
    if ascount < 0 then left else Merged(left, prev, ascount, as4)
  }

  lemma PendingStep(e: Entry, left: seq<Entry>, prev: int, ascount: int, as4: seq<Seg>)
    requires ascount != 0
    ensures Pending([e] + left, prev, ascount, as4) == [e] + Pending(left, e.segno, ascount - IsHop(e, prev), as4)
  {
    assert ([e] + left)[1..] == left;
  }

  lemma PendingSwitch(e: Entry, left: seq<Entry>, prev: int, as4: seq<Seg>)
    ensures Pending([e] + left, prev, 0, as4) == Entries(4, as4, e.segno + 1)
  {
  }

  /** The fields of the message that iterate over AS paths; the buffer is not
      written while they do. */
  class AsPathIterator {
    const buf: Bytes
    var asptr: nat
    var asend: nat
    var as4ptr: nat
    var as4end: nat
    var seglen: nat
    var segi: nat
    var ascount: int
    var asp: Entry
    ghost var cur: seq<nat>
    ghost var rest: seq<Seg>
    ghost var segs4: seq<Seg>

    ghost predicate Valid()
      reads this
    {
      && CursorAt(buf, asptr, asend, asp.asSize, cur, rest)
      && segi + |cur| == seglen && (segi == 0 ==> cur == [])
      && (ascount >= 0 ==> PathAt(buf, Span(as4ptr, as4end), 4, segs4))
    }

    ghost function Left(): seq<Entry>
      reads this
    {
      Remaining(asp, cur, rest)
    }

    /** What the calls to come will yield. */
    ghost function Upcoming(): seq<Entry>
      reads this
    {
      Pending(Left(), asp.segno, ascount, segs4)
    }

    constructor (b: Bytes)
      ensures buf == b && Valid() && Upcoming() == []
    {
      buf := b;
      asptr, asend, as4ptr, as4end, seglen, segi, ascount := 0, 0, 0, 0, 0, 0, -1;
      asp := Entry(2, 0, -1, 0);
      cur, rest, segs4 := [], [], [];
    }

    /** startrealaspath_r, given where the attributes it looks up are; false for
        a path that runs over its end. */
    method StartReal(asn32: bool, path: Option<Span>, aggregator: Option<nat>, hasAs4Aggregator: bool,
                     as4Path: Option<Span>, ghost segs: seq<Seg>, ghost as4: seq<Seg>)
      returns (ok: bool)
      requires path.Some? ==> path.value.lo <= path.value.hi <= |buf|
      requires as4Path.Some? ==> as4Path.value.lo <= as4Path.value.hi <= |buf|
      modifies this
      ensures path.None? ==> ok && Valid() && Upcoming() == []
      ensures var asSize := if asn32 then 4 else 2;
              var applies := Applies(asn32, aggregator, hasAs4Aggregator, as4Path.Some?);
              path.Some? ==>
                && (!ok <==> applies && (HopsFrom(2, buf, path.value.lo, path.value.hi).None?
                                         || HopsFrom(4, buf, as4Path.value.lo, as4Path.value.hi).None?))
                && (PathAt(buf, path.value, asSize, segs) && (applies ==> PathAt(buf, as4Path.value, 4, as4)) ==>
                      ok && Valid() && Upcoming() == RealPath(asSize, applies, segs, as4))
    {
      hide CursorAt, Remaining, HopsFrom, Merged, Entries, Hops;
      var asSize := if asn32 then 4 else 2;
      SetPath(asSize, path, segs, as4);
      if path.None? {
        return true;
      }
      if !Applies(asn32, aggregator, hasAs4Aggregator, as4Path.Some?) {
        if PathAt(buf, path.value, asSize, segs) {
          UpcomingIs(asSize, false, segs);
        }
        return true;
      }
      var n;
      ok, n := Missing(path.value, as4Path.value, segs, as4);
      if ok && n >= 0 {
        as4ptr, as4end, ascount := as4Path.value.lo, as4Path.value.hi, n;
      }
      if PathAt(buf, path.value, asSize, segs) && PathAt(buf, as4Path.value, 4, as4) {
        UpcomingIs(asSize, true, segs);
      }
    }

    /** The hops AS_PATH has on top of AS4_PATH, -1 if it has less. */
    method Missing(path: Span, as4Path: Span, ghost segs: seq<Seg>, ghost as4: seq<Seg>) returns (ok: bool, n: int)
      requires path.lo <= path.hi <= |buf| && as4Path.lo <= as4Path.hi <= |buf|
      ensures ok == (HopsFrom(2, buf, path.lo, path.hi).Some? && HopsFrom(4, buf, as4Path.lo, as4Path.hi).Some?)
      ensures n >= -1
      ensures PathAt(buf, path, 2, segs) && PathAt(buf, as4Path, 4, as4) ==>
                ok && n == if Hops(segs) >= Hops(as4) then Hops(segs) - Hops(as4) else -1
    {
      HopsAt(2, buf, path, segs);
      HopsAt(4, buf, as4Path, as4);
      var hops, over := CountHops(2, buf, path.lo, path.hi);
      if over {
        return false, -1;
      }
      var hops4;
      hops4, over := CountHops(4, buf, as4Path.lo, as4Path.hi);
      return !over, if hops < hops4 then -1 else hops - hops4;
    }

    lemma UpcomingIs(asSize: nat, applies: bool, segs: seq<Seg>)
      requires Left() == Entries(asSize, segs, 0) && asp.segno == -1
      requires ascount == if applies && Hops(segs) >= Hops(segs4) then Hops(segs) - Hops(segs4) else -1
      ensures Upcoming() == RealPath(asSize, applies, segs, segs4)
    {
    }

    /** A plain iteration over one attribute, as dostartaspath also sets it up. */
    method SetPath(asSize: nat, path: Option<Span>, ghost segs: seq<Seg>, ghost as4: seq<Seg>)
      requires ValidSize(asSize)
      modifies this
      ensures ascount == -1 && segs4 == as4 && asp.segno == -1
      ensures path.None? ==> Valid() && Upcoming() == []
      ensures path.Some? ==> asptr == path.value.lo && asend == path.value.hi
      ensures path.Some? && PathAt(buf, path.value, asSize, segs) ==> Valid() && Left() == Entries(asSize, segs, 0)
    {
      seglen, segi, ascount := 0, 0, -1;
      asp := asp.(asSize := asSize, segno := -1);
      cur, rest, segs4 := [], [], as4;
      asptr, asend := 0, 0;
      assert Left() == [];
      if path.Some? {
        rest := segs;
        asptr, asend := path.value.lo, path.value.hi;
        assert Left() == Entries(asSize, segs, 0);
      }
    }

    // ---- nextaspath_r ----------------------------------------------------

    ghost predicate CursorOk()
      reads this
    {
      CursorAt(buf, asptr, asend, asp.asSize, cur, rest) && segi + |cur| == seglen
    }

    /** The loop over segment headers; empty segments are passed over. */
    method FindAs() returns (more: bool)
      requires Valid()
      modifies this`asptr, this`seglen, this`segi, this`asp, this`cur, this`rest
      ensures CursorOk() && Left() == old(Left()) && asp.asSize == old(asp).asSize
      ensures more == (cur != []) && (!more ==> Left() == [])
      ensures if segi > 0 then asp.segno == old(asp).segno else cur != [] ==> asp.segno > old(asp).segno
    {
      while segi == seglen
        invariant CursorOk() && Left() == old(Left()) && asp.asSize == old(asp).asSize
        invariant asp.segno >= old(asp).segno
        invariant if segi > 0 then asp.segno == old(asp).segno else cur != [] ==> asp.segno > old(asp).segno
        decreases |rest|, cur == []
      {
        if asptr == asend {
          RemainingNone(buf, asptr, asp, rest);
          return false;
        }
        ReadHeader();
      }
      return true;
    }

    method ReadHeader()
      requires CursorOk() && cur == [] && asptr != asend
      modifies this`asptr, this`seglen, this`segi, this`asp, this`cur, this`rest
      ensures CursorOk() && Left() == old(Left()) && asp.asSize == old(asp).asSize
      ensures segi == 0 && asp.segno == old(asp).segno + 1 && |rest| < |old(rest)|
    {
      NextSegment(buf, asptr, asend, asp.asSize, rest);
      RemainingHeader(asp, rest);
      asp := asp.(kind := buf[asptr], segno := asp.segno + 1);
      seglen := buf[asptr + 1];
      asptr, segi := asptr + 2, 0;
      cur, rest := rest[0].ases, rest[1..];
    }

    method ReadAs()
      requires CursorOk() && cur != []
      modifies this`asptr, this`segi, this`asp, this`cur
      ensures CursorOk() && old(Left()) == [asp] + Left()
      ensures segi == old(segi) + 1 && asp == old(asp).(asn := asp.asn)
    {
      NextAs(buf, asptr, asend, asp.asSize, cur, rest);
      RemainingHead(asp, cur, rest);
      var asn := if asp.asSize == 2 then BE16(buf, asptr) else BE32(buf, asptr);
      asp := asp.(asn := asn);
      asptr := asptr + asp.asSize;
      segi := segi + 1;
      cur := cur[1..];
    }

    /** An entry was read, and not yet counted; `prev` is the segment of the one
        before it. */
    ghost predicate InHand(prev: int)
      reads this
    {
      && CursorOk() && segi > 0
      && (ascount >= 0 ==> PathAt(buf, Span(as4ptr, as4end), 4, segs4))
      && (if segi > 1 then asp.segno == prev else asp.segno > prev)
    }

    /** The next entry of the attribute being read, if there is one. */
    method Read() returns (more: bool)
      requires Valid()
      modifies this`asptr, this`seglen, this`segi, this`asp, this`cur, this`rest
      ensures if more then InHand(old(asp.segno)) && old(Left()) == [asp] + Left()
              else Valid() && old(Left()) == [] == Left()
    {
      hide CursorAt, PathAt, Remaining;
      more := FindAs();
      if more {
        ReadAs();
      }
    }

    /** An entry was yielded: one hop less is wanted, if it is one. */
    method Count(ghost prev: int)
      requires InHand(prev) && ascount != 0
      modifies this`ascount
      ensures Valid() && [asp] + Upcoming() == old(Pending([asp] + Left(), prev, ascount, segs4))
    {
      PendingStep(asp, Left(), prev, ascount, segs4);
      ascount := ascount - if asp.kind != AS_SEGMENT_SET || segi == 1 then 1 else 0;
    }

    /** Yields what is upcoming, one entry a call, and nothing else. */
    method Next() returns (r: Option<Entry>)
      requires Valid()
      modifies this
      ensures Valid()
      ensures r.None? ==> old(Upcoming()) == [] == Upcoming()
      ensures r.Some? ==> old(Upcoming()) == [r.value] + Upcoming()
      decreases ascount >= 0
    {
      hide CursorAt, PathAt, Remaining;
      ghost var prev := asp.segno;
      var more := Read();
      if !more {
        return None;
      }
      if ascount != 0 {
        Count(prev);
        return Some(asp);
      }
      Switch(prev);
      r := Next();
    }

    /** Enough of AS_PATH was yielded: on to AS4_PATH. */
    method Switch(ghost prev: int)
      requires PathAt(buf, Span(as4ptr, as4end), 4, segs4) && ascount == 0
      modifies this
      ensures Valid() && ascount == -1 && Upcoming() == old(Pending([asp] + Left(), prev, ascount, segs4))
    {
      PendingSwitch(asp, Left(), prev, segs4);
      asptr, asend := as4ptr, as4end;
      asp := asp.(asSize := 4);
      seglen, segi := 0, 0;
      ascount := -1;
      cur, rest := [], segs4;
      RemainingAll(asp, segs4);
      assert buf[asptr..asend] == EncodeAses(4, []) + EncodePath(4, segs4);
    }
  }

  /** A whole iteration: nextaspath_r until it yields nothing. */
  method Collect(it: AsPathIterator) returns (es: seq<Entry>)
    requires it.Valid()
    modifies it
    ensures it.Valid() && es == old(it.Upcoming()) && it.Upcoming() == []
    decreases |it.Upcoming()|
  {
    var r := it.Next();
    if r.None? {
      return [];
    }
    es := Collect(it);
    es := [r.value] + es;
  }
}
