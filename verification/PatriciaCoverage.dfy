/** patcoverage (src/patriciatrie.c): the walk that stops at every real cell adds
    up to the number of addresses some stored prefix covers. */
module PatriciaCoverage {
  import opened Netaddr
  import opened PatriciaShape
  import opened PatriciaTrie
  import opened PatriciaWalk
  import opened U128

  // ---- Counting addresses --------------------------------------------------------

  /** The addresses of `max` bits that start with k. */
  ghost function Addresses(max: nat, k: Bits): set<Bits>
    requires |k| <= max
    decreases max - |k|
  {
    if |k| == max then {k} else Addresses(max, k + [false]) + Addresses(max, k + [true])
  }

  lemma {:induction false} AddressesAre(max: nat, k: Bits, a: Bits)
    requires |k| <= max
    ensures a in Addresses(max, k) <==> |a| == max && k <= a
    decreases max - |k|
  {
    if |k| < max {
      AddressesAre(max, k + [false], a);
      AddressesAre(max, k + [true], a);
      if |a| == max && k <= a {
        assert if a[|k|] then k + [true] <= a else k + [false] <= a;
      }
    } else if |a| == max && k <= a {
      assert a == k;
    }
  }

  /** The two halves of the addresses under k do not meet. */
  lemma HalvesDisjoint(max: nat, k: Bits)
    requires |k| < max
    ensures Addresses(max, k + [false]) !! Addresses(max, k + [true])
  {
    forall a | a in Addresses(max, k + [false]) ensures a !in Addresses(max, k + [true]) {
      AddressesAre(max, k + [false], a);
      AddressesAre(max, k + [true], a);
      assert a[|k|] == (k + [false])[|k|];
    }
  }

  /** Some stored prefix other than the default route contains k. */
  ghost predicate Matched(stored: set<Bits>, k: Bits) {
    exists q :: q in stored && q != [] && q <= k
  }

  ghost function Covered(stored: set<Bits>, max: nat, k: Bits): set<Bits>
    requires |k| <= max
  {
    set a | a in Addresses(max, k) && Matched(stored, a)
  }

  /** How many addresses under k are covered. */
  ghost function Count(stored: set<Bits>, max: nat, k: Bits): nat
    requires |k| <= max
  {
    |Covered(stored, max, k)|
  }

  lemma {:induction false} AllAddresses(max: nat, k: Bits)
    requires |k| <= max
    ensures |Addresses(max, k)| == Pow2(max - |k|)
    decreases max - |k|
  {
    if |k| < max {
      AllAddresses(max, k + [false]);
      AllAddresses(max, k + [true]);
      HalvesDisjoint(max, k);
    }
  }

  lemma CountMatched(stored: set<Bits>, max: nat, k: Bits)
    requires |k| <= max && Matched(stored, k)
    ensures Count(stored, max, k) == Pow2(max - |k|)
  {
    AllAddresses(max, k);
    forall a | a in Addresses(max, k) ensures Matched(stored, a) {
      AddressesAre(max, k, a);
    }
    assert Covered(stored, max, k) == Addresses(max, k);
  }

  lemma CountNone(stored: set<Bits>, max: nat, k: Bits)
    requires |k| <= max
    requires forall q :: q in stored && q != [] ==> !(q <= k) && !(k <= q)
    ensures Count(stored, max, k) == 0
  {
    forall a | a in Addresses(max, k) ensures !Matched(stored, a) {
      AddressesAre(max, k, a);
      forall q | q in stored && q != [] ensures !(q <= a) {
        assert q <= a ==> q <= k || k <= q;
      }
    }
    assert Covered(stored, max, k) == {};
  }

  lemma CountSplit(stored: set<Bits>, max: nat, k: Bits)
    requires |k| < max
    ensures Count(stored, max, k) ==
            Count(stored, max, k + [false]) + Count(stored, max, k + [true])
  {
    var l, r := Covered(stored, max, k + [false]), Covered(stored, max, k + [true]);
    HalvesDisjoint(max, k);
    assert Covered(stored, max, k) == l + r;
    assert l * r == {};
  }

  /** When everything stored under k is under t, so is everything covered. */
  lemma {:induction false} CountGap(stored: set<Bits>, max: nat, k: Bits, t: Bits)
    requires k <= t && |t| <= max
    requires forall q :: q in stored && q != [] ==> (k <= q ==> t <= q) && !(q < k)
    ensures Count(stored, max, k) == Count(stored, max, t)
    decreases |t| - |k|
  {
    if k != t {
      var b := t[|k|];
      CountSplit(stored, max, k);
      CountNone(stored, max, k + [!b]);
      CountGap(stored, max, k + [b], t);
    }
  }

  /** One prefix covers two to the bits it leaves, the default route nothing; it
      makes no difference to what others cover, either. */
  lemma CountOfOne(stored: set<Bits>, max: nat, q: Bits)
    requires |q| <= max
    ensures Count({q}, max, []) == if q == [] then 0 else Pow2(max - |q|)
    ensures Count(stored + {[]}, max, []) == Count(stored, max, [])
    ensures forall a :: a in Covered(stored, max, []) <==>
              |a| == max && exists p :: p in stored && 0 < |p| <= max && p == a[..|p|]
  {
    if q == [] {
      CountNone({q}, max, []);
    } else {
      CountGap({q}, max, [], q);
      CountMatched({q}, max, q);
    }
    forall a ensures Matched(stored + {[]}, a) == Matched(stored, a) {
      if p :| p in stored && p != [] && p <= a {
        assert p in stored + {[]};
      }
    }
    assert Covered(stored + {[]}, max, []) == Covered(stored, max, []);
    forall a ensures a in Covered(stored, max, []) <==>
                     |a| == max && exists p :: p in stored && 0 < |p| <= max && p == a[..|p|]
    {
      CoveredIs(stored, max, a);
    }
  }

  lemma CoveredIs(stored: set<Bits>, max: nat, a: Bits)
    ensures a in Covered(stored, max, []) <==>
            |a| == max && exists p :: p in stored && 0 < |p| <= max && p == a[..|p|]
  {
    AddressesAre(max, [], a);
    if Matched(stored, a) && |a| == max {
      var p :| p in stored && p != [] && p <= a;
      assert p == a[..|p|];
    }
    if p :| |a| == max && p in stored && 0 < |p| <= max && p == a[..|p|] {
      assert p <= a && p != [];
    }
  }

  // ---- The walk ---------------------------------------------------------------------

  /** No stored prefix but the default route properly contains k. */
  ghost predicate Fresh(stored: set<Bits>, k: Bits) {
    forall q :: q in stored && q != [] ==> !(q < k)
  }

  ghost predicate CoverState(s: Shape, at: map<Bits, Ptr>, stack: seq<Ptr>, curr: Ptr) {
    && Stacked(s, stack, curr)
    && (curr in s.key ==> Fresh(at.Keys, s.key[curr]))
    && forall i :: 0 <= i < |stack| && stack[i] in s.key ==> Fresh(at.Keys, s.key[stack[i]])
  }

  /** Covered addresses at or below one cell. */
  ghost function CountAt(s: Shape, at: map<Bits, Ptr>, n: Ptr): nat {
    if n in s.key && |s.key[n]| <= s.max then Count(at.Keys, s.max, s.key[n]) else 0
  }

  ghost function CountStack(s: Shape, at: map<Bits, Ptr>, stack: seq<Ptr>): nat {
    if stack == [] then 0
    else CountStack(s, at, stack[..|stack| - 1]) + CountAt(s, at, stack[|stack| - 1])
  }

  ghost function LeftToCount(s: Shape, at: map<Bits, Ptr>, stack: seq<Ptr>, curr: Ptr): nat {
    CountStack(s, at, stack) + CountAt(s, at, curr)
  }

  /** A real cell other than the default route covers all of its addresses. */
  lemma RealCellCovers(s: Shape, at: map<Bits, Ptr>, n: Ptr)
    requires s.Ok() && IndexOk(s, at) && n in s.key && s.CellOk(n)
    requires !s.nodes[n].glue && s.key[n] != []
    ensures CountAt(s, at, n) == Pow2(s.max - |s.key[n]|)
  {
    assert s.key[n] in at.Keys;
    CountMatched(at.Keys, s.max, s.key[n]);
  }

  /** Any other fresh cell covers what its children cover. */
  lemma OtherCellSplits(s: Shape, at: map<Bits, Ptr>, n: Ptr)
    requires s.Ok() && IndexOk(s, at) && n in s.key && s.CellOk(n) && Fresh(at.Keys, s.key[n])
    requires s.nodes[n].glue || s.key[n] == []
    ensures CountAt(s, at, n) == CountAt(s, at, s.nodes[n].left) + CountAt(s, at, s.nodes[n].right)
    ensures s.nodes[n].left in s.key ==> Fresh(at.Keys, s.key[s.nodes[n].left])
    ensures s.nodes[n].right in s.key ==> Fresh(at.Keys, s.key[s.nodes[n].right])
  {
    LiveInBounds(s);
    NotStoredHere(s, at, n);
    ChildCount(s, at, n, false);
    ChildCount(s, at, n, true);
    if |s.key[n]| < s.max {
      CountSplit(at.Keys, s.max, s.key[n]);
    } else {
      OnlyItself(s, at, n);
    }
  }

  lemma NotStoredHere(s: Shape, at: map<Bits, Ptr>, n: Ptr)
    requires s.Ok() && IndexOk(s, at) && n in s.key && s.CellOk(n) && Fresh(at.Keys, s.key[n])
    requires s.nodes[n].glue || s.key[n] == []
    ensures forall q :: q in at && q != [] ==> !(q <= s.key[n])
  {
    forall q | q in at && q != [] ensures !(q <= s.key[n]) {
      if q == s.key[n] {
        assert s.CellOk(at[q]);
        SameKey(s, n, at[q]);
      }
    }
  }

  /** A cell of full length with nothing stored at it covers nothing. */
  lemma OnlyItself(s: Shape, at: map<Bits, Ptr>, n: Ptr)
    requires s.Ok() && IndexOk(s, at) && n in s.key && s.CellOk(n) && |s.key[n]| == s.max
    requires forall q :: q in at && q != [] ==> !(q <= s.key[n])
    ensures CountAt(s, at, n) == 0
  {
    forall q | q in at && q != [] ensures !(s.key[n] <= q) {
      assert s.CellOk(at[q]);
    }
    CountNone(at.Keys, s.max, s.key[n]);
  }

  lemma ChildCount(s: Shape, at: map<Bits, Ptr>, n: Ptr, b: bool)
    requires s.Ok() && IndexOk(s, at) && n in s.key && s.CellOk(n)
    requires forall q :: q in at && q != [] ==> !(q <= s.key[n])
    ensures var c := s.nodes[n].Child(b);
            && (|s.key[n]| < s.max ==> Count(at.Keys, s.max, s.key[n] + [b]) == CountAt(s, at, c))
            && (c in s.key ==> Fresh(at.Keys, s.key[c]))
  {
    var c, k := s.nodes[n].Child(b), s.key[n] + [b];
    LiveInBounds(s);
    forall q | q in at && q != [] && k <= q ensures c != NULL && c in s.key && s.key[c] <= q {
      assert s.CellOk(at[q]);
      assert q[|s.key[n]|] == k[|s.key[n]|] && s.key[n] < q;
      Descend(s, n, at[q]);
    }
    if c != NULL {
      assert s.CellOk(c);
      assert k <= s.key[c];
      forall q | q in at && q != [] ensures !(q < s.key[c]) {
        if q < s.key[c] {
          assert s.CellOk(at[q]);
          NoneBetween(s, n, b, at[q]);
        }
      }
      CountGap(at.Keys, s.max, k, s.key[c]);
    } else if |s.key[n]| < s.max {
      CountNone(at.Keys, s.max, k);
    }
  }

  /** What patcoverage does after a real cell: back to the stack. */
  lemma SkipStep(s: Shape, at: map<Bits, Ptr>, stack: seq<Ptr>, curr: Ptr)
    requires s.Ok() && IndexOk(s, at) && CoverState(s, at, stack, curr) && curr != NULL
    ensures var (st, c) := Popped(stack);
            && CoverState(s, at, st, c)
            && LeftToCount(s, at, st, c) == CountStack(s, at, stack)
            && ToVisit(s, st, c) <= ToVisit(s, stack, curr) - {curr}
  {
    var (st, c) := Popped(stack);
    PopKeeps(s, stack, curr);
    LiveInBounds(s);
    SkipVisits(s, stack, curr);
    PopFresh(s, at, stack, curr);
  }

  lemma PopFresh(s: Shape, at: map<Bits, Ptr>, stack: seq<Ptr>, curr: Ptr)
    requires CoverState(s, at, stack, curr) && NULL !in s.key
    requires var (st, c) := Popped(stack); Stacked(s, st, c)
    ensures var (st, c) := Popped(stack); CoverState(s, at, st, c)
  {
    var (st, c) := Popped(stack);
    assert forall i :: 0 <= i < |st| ==> st[i] == stack[i];
  }

  lemma SkipVisits(s: Shape, stack: seq<Ptr>, curr: Ptr)
    requires s.Ok() && Stacked(s, stack, curr) && curr != NULL
    ensures var (st, c) := Popped(stack); ToVisit(s, st, c) <= ToVisit(s, stack, curr) - {curr}
  {
    hide Stacked, Above;
    PopKeeps(s, stack, curr);
    NotWaiting(s, stack, curr);
  }

  /** ... and after any other cell: on to its children. */
  lemma DescendStep(s: Shape, at: map<Bits, Ptr>, stack: seq<Ptr>, curr: Ptr)
    requires s.Ok() && IndexOk(s, at) && CoverState(s, at, stack, curr) && curr != NULL
    requires s.nodes[curr].glue || s.key[curr] == []
    ensures var (st, c) := MoveNextFrom(s.nodes, stack, curr);
            && CoverState(s, at, st, c)
            && LeftToCount(s, at, st, c) == LeftToCount(s, at, stack, curr)
            && ToVisit(s, st, c) == ToVisit(s, stack, curr) - {curr}
  {
    hide Above, ToVisit, IndexOk;
    var n := s.nodes[curr];
    var (st, c) := MoveNextFrom(s.nodes, stack, curr);
    MoveKeeps(s, stack, curr);
    OtherCellSplits(s, at, curr);
    LiveInBounds(s);
    if n.left == NULL && n.right == NULL {
      SkipStep(s, at, stack, curr);
    } else if n.left != NULL && n.right != NULL {
      assert st[..|st| - 1] == stack;
    }
  }

  lemma RealCount(s: Shape, at: map<Bits, Ptr>, stack: seq<Ptr>, curr: Ptr, coverage: nat, total: nat)
    requires s.Ok() && IndexOk(s, at) && CoverState(s, at, stack, curr) && curr != NULL
    requires !s.nodes[curr].glue && s.key[curr] != []
    requires Accounted(coverage, LeftToCount(s, at, stack, curr), total)
    ensures Accounted(Plus(coverage, s.max - |s.key[curr]|), CountStack(s, at, stack), total)
  {
    RealCellCovers(s, at, curr);
    AddedTo(coverage, s.max - |s.key[curr]|, CountStack(s, at, stack), total);
  }

  lemma RealStep(s: Shape, at: map<Bits, Ptr>, stack: seq<Ptr>, curr: Ptr, coverage: nat, total: nat)
    requires s.Ok() && IndexOk(s, at) && CoverState(s, at, stack, curr) && curr != NULL
    requires !s.nodes[curr].glue && s.key[curr] != []
    requires Accounted(coverage, LeftToCount(s, at, stack, curr), total)
    ensures var (st, c) := Popped(stack);
            && CoverState(s, at, st, c)
            && ToVisit(s, st, c) <= ToVisit(s, stack, curr) - {curr} && curr in ToVisit(s, stack, curr)
            && Accounted(Plus(coverage, s.max - |s.key[curr]|), LeftToCount(s, at, st, c), total)
  {
    RealCount(s, at, stack, curr, coverage, total);
    SkipStep(s, at, stack, curr);
  }

  /** The cell under the cursor is live, and a push would find room. */
  lemma CellInHand(s: Shape, at: map<Bits, Ptr>, stack: seq<Ptr>, curr: Ptr)
    requires s.Ok() && IndexOk(s, at) && CoverState(s, at, stack, curr) && curr != NULL
    ensures curr in s.key && s.NodeOk(curr) && |stack| < s.max + 1 && curr in ToVisit(s, stack, curr)
    ensures |s.key[curr]| == s.nodes[curr].prefix.bitlen
  {
    StackDepth(s, stack, curr);
    assert s.CellOk(curr);
  }

  lemma AllCovered(s: Shape, at: map<Bits, Ptr>)
    requires s.Ok() && IndexOk(s, at)
    ensures CoverState(s, at, [], s.head) && LeftToCount(s, at, [], s.head) == Count(at.Keys, s.max, [])
    ensures Accounted(0, LeftToCount(s, at, [], s.head), Count(at.Keys, s.max, []))
  {
    WalkStart(s);
    if s.head == NULL {
      EmptyIndex(s, at);
      CountNone({}, s.max, []);
      assert at.Keys == {};
      LiveInBounds(s);
    } else {
      forall q | q in at ensures s.key[s.head] <= q {
        assert s.CellOk(at[q]);
        HeadIsPrefix(s, at[q]);
      }
      CountGap(at.Keys, s.max, [], s.key[s.head]);
    }
  }

  /** patcoverage: the addresses covered by the stored prefixes, nested ones once,
      the default route ignored, modulo 2^128. Lines 807-826 make the moves of the
      iterator; a push always finds room in the maxbitlen + 1 slots. */
  method Coverage(pt: Trie) returns (coverage: U128)
    requires pt.Live().Ok() && IndexOk(pt.Live(), pt.at)
    ensures coverage.Val() == Count(pt.Stored(), pt.maxbitlen, []) % TWO_128
  {
    ghost var s, at := pt.Live(), pt.at;
    AllCovered(s, at);
    coverage := U128(0, 0);
    var stack: seq<Ptr>, next := [], pt.head;
    ghost var total := Count(at.Keys, s.max, []);
    while next != NULL
      invariant CoverState(s, at, stack, next)
      invariant Accounted(coverage.Val(), LeftToCount(s, at, stack, next), total)
      decreases ToVisit(s, stack, next)
    {
      CellInHand(s, at, stack, next);
      var n := pt.nodes[next];
      if !n.glue && n.prefix.bitlen != 0 {
        RealStep(s, at, stack, next, coverage.Val(), total);
        AddIsPlus(coverage, pt.maxbitlen - n.prefix.bitlen);
        coverage := Add(coverage, Shl(U128(0, 1), pt.maxbitlen - n.prefix.bitlen));
        var (st, c) := Popped(stack);
        stack, next := st, c;
      } else {
        DescendStep(s, at, stack, next);
        var (st, c) := MoveNextFrom(pt.nodes, stack, next);
        stack, next := st, c;
      }
    }
    AllCounted(s, at, coverage.Val(), total);
  }

  /** What was counted and what is left make up the total. */
  ghost predicate Accounted(coverage: nat, left: nat, total: nat) {
    (coverage + left) % TWO_128 == total % TWO_128
  }

  ghost function Plus(coverage: nat, bits: nat): nat {
    (coverage + Pow2(bits)) % TWO_128
  }

  lemma AddIsPlus(coverage: U128, bits: nat)
    requires bits < 128
    ensures Add(coverage, Shl(U128(0, 1), bits)).Val() == Plus(coverage.Val(), bits)
  {
    var one, p := Shl(U128(0, 1), bits), Pow2(bits);
    assert U128(0, 1).Val() * p == p;
    AddIsModular(coverage, one);
    ModAdd(p, coverage.Val());
  }

  lemma AddedTo(coverage: nat, bits: nat, left: nat, total: nat)
    requires Accounted(coverage, Pow2(bits) + left, total)
    ensures Accounted(Plus(coverage, bits), left, total)
  {
    ModAdd(coverage + Pow2(bits), left);
  }

  lemma AllCounted(s: Shape, at: map<Bits, Ptr>, coverage: nat, total: nat)
    requires s.Ok() && coverage < TWO_128 && Accounted(coverage, LeftToCount(s, at, [], NULL), total)
    ensures coverage == total % TWO_128
  {
    LiveInBounds(s);
  }
}
