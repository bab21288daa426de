/** The stack driven walk of a Patricia trie and the iterator built on it
    (src/patriciatrie.c). */
module PatriciaWalk {
  import opened Netaddr
  import opened PatriciaShape
  import opened PatriciaTrie

  const ITERATOR_SLOTS := 129

  /** Address order, a prefix before everything it contains. */
  ghost predicate Precedes(a: Bits, b: Bits) {
    a < b || exists i :: 0 <= i < |a| && i < |b| && a[..i] == b[..i] && !a[i] && b[i]
  }

  // ---- What is still to be visited --------------------------------------------

  /** A cell on the stack is the right child of a cell whose left side holds k. */
  ghost predicate Waits(s: Shape, x: Ptr, k: Bits) {
    && x in s.key && s.CellOk(x) && x != s.head
    && var p := s.nodes[x].parent;
       p in s.key && s.CellOk(p) && s.nodes[p].right == x && Under(s.key[p], false, k)
  }

  ghost predicate Stacked(s: Shape, stack: seq<Ptr>, curr: Ptr) {
    && (if curr == NULL then stack == [] else curr in s.key && s.CellOk(curr))
    && (forall i :: 0 <= i < |stack| && curr in s.key ==> Waits(s, stack[i], s.key[curr]))
    && (forall i, j :: 0 <= i < j < |stack| && stack[j] in s.key ==> Waits(s, stack[i], s.key[stack[j]]))
  }

  /** The cells at or below the current one, or one on the stack. */
  ghost function ToVisit(s: Shape, stack: seq<Ptr>, curr: Ptr): (cells: set<Ptr>)
    ensures cells <= s.key.Keys
  {
    set m | m in s.key && (Above(s, curr, m) || exists i :: 0 <= i < |stack| && Above(s, stack[i], m))
  }

  ghost predicate Above(s: Shape, x: Ptr, m: Ptr) {
    x in s.key && m in s.key && s.key[x] <= s.key[m]
  }

  /** patiteratormovenext, on the values of the iterator's fields. */
  function MoveNextFrom(nodes: seq<PNode>, stack: seq<Ptr>, curr: Ptr): (seq<Ptr>, Ptr)
    requires 0 <= curr < |nodes|
  {
    var l, r := nodes[curr].left, nodes[curr].right;
    if l != NULL then (if r != NULL then stack + [r] else stack, l)
    else if r != NULL then (stack, r)
    else Popped(stack)
  }

  function Popped(stack: seq<Ptr>): (seq<Ptr>, Ptr) {
    if stack != [] then (stack[..|stack| - 1], stack[|stack| - 1]) else ([], NULL)
  }

  lemma WalkStart(s: Shape)
    requires s.Ok()
    ensures Stacked(s, [], s.head) && ToVisit(s, [], s.head) == s.key.Keys
  {
    assert s.head != NULL ==> s.CellOk(s.head);
    forall m | m in s.key ensures Above(s, s.head, m) {
      HeadIsPrefix(s, m);
    }
  }

  lemma WaitsBelow(s: Shape, x: Ptr, k: Bits, k': Bits)
    requires Waits(s, x, k) && k <= k'
    ensures Waits(s, x, k')
  {
  }

  /** What a stack promises, cell by cell. */
  lemma StackedWaits(s: Shape, stack: seq<Ptr>, curr: Ptr, i: nat)
    requires Stacked(s, stack, curr) && curr != NULL && i < |stack|
    ensures Waits(s, stack[i], s.key[curr])
    ensures forall j :: i < j < |stack| && stack[j] in s.key ==> Waits(s, stack[i], s.key[stack[j]])
  {
  }

  lemma PopStacked(s: Shape, stack: seq<Ptr>, curr: Ptr)
    requires Stacked(s, stack, curr) && curr != NULL
    ensures var (st, c) := Popped(stack); Stacked(s, st, c)
  {
    if stack != [] {
      StackedWaits(s, stack, curr, |stack| - 1);
    }
  }

  lemma PopVisits(s: Shape, stack: seq<Ptr>, m: Ptr)
    requires s.Ok() && m in s.key
    ensures var (st, c) := Popped(stack);
            m in ToVisit(s, st, c) <==> exists i :: 0 <= i < |stack| && Above(s, stack[i], m)
  {
    var (st, c) := Popped(stack);
    LiveInBounds(s);
    if stack != [] {
      assert forall i :: 0 <= i < |st| ==> st[i] == stack[i];
    }
  }

  lemma PopKeeps(s: Shape, stack: seq<Ptr>, curr: Ptr)
    requires s.Ok() && Stacked(s, stack, curr) && curr != NULL
    ensures var (st, c) := Popped(stack); Stacked(s, st, c)
    ensures var (st, c) := Popped(stack);
            forall m :: m in ToVisit(s, st, c) <==>
                        m in s.key && exists i :: 0 <= i < |stack| && Above(s, stack[i], m)
  {
    hide Stacked, Above, ToVisit;
    PopStacked(s, stack, curr);
    var (st, c) := Popped(stack);
    forall m | m in s.key
      ensures m in ToVisit(s, st, c) <==> exists i :: 0 <= i < |stack| && Above(s, stack[i], m)
    {
      PopVisits(s, stack, m);
    }
  }

  lemma DescendKeeps(s: Shape, stack: seq<Ptr>, curr: Ptr)
    requires s.Ok() && Stacked(s, stack, curr) && curr != NULL
    requires s.nodes[curr].left != NULL || s.nodes[curr].right != NULL
    ensures var (st, c) := MoveNextFrom(s.nodes, stack, curr); Stacked(s, st, c)
  {
    var n := s.nodes[curr];
    assert s.CellOk(curr);
    assert n.left != NULL ==> s.CellOk(n.left);
    assert n.right != NULL ==> s.CellOk(n.right);
    var (st, c) := MoveNextFrom(s.nodes, stack, curr);
    forall i | 0 <= i < |stack|
      ensures Waits(s, stack[i], s.key[c])
      ensures n.right != NULL ==> Waits(s, stack[i], s.key[n.right])
    {
      WaitsBelow(s, stack[i], s.key[curr], s.key[c]);
      if n.right != NULL { WaitsBelow(s, stack[i], s.key[curr], s.key[n.right]); }
    }
  }

  /** Below a cell lie its children and what is below them. */
  lemma BelowCell(s: Shape, curr: Ptr, m: Ptr)
    requires s.Ok() && curr in s.key && s.CellOk(curr) && m in s.key
    ensures Above(s, curr, m) <==>
            m == curr || Above(s, s.nodes[curr].left, m) || Above(s, s.nodes[curr].right, m)
  {
    var n := s.nodes[curr];
    LiveInBounds(s);
    assert n.left != NULL ==> s.CellOk(n.left);
    assert n.right != NULL ==> s.CellOk(n.right);
    if Above(s, curr, m) && m != curr {
      SameKeyOrBelow(s, curr, m);
      Descend(s, curr, m);
    }
  }

  /** The current cell is not below any on the stack. */
  lemma NotWaiting(s: Shape, stack: seq<Ptr>, curr: Ptr)
    requires s.Ok() && Stacked(s, stack, curr) && curr != NULL
    ensures forall i :: 0 <= i < |stack| ==> !Above(s, stack[i], curr)
  {
    forall i | 0 <= i < |stack| ensures !Above(s, stack[i], curr) {
      assert Waits(s, stack[i], s.key[curr]);
    }
  }

  lemma MovedCell(s: Shape, stack: seq<Ptr>, curr: Ptr, m: Ptr)
    requires s.Ok() && Stacked(s, stack, curr) && curr != NULL && m in s.key
    ensures var (st, c) := MoveNextFrom(s.nodes, stack, curr);
            m in ToVisit(s, st, c) <==>
              || Above(s, s.nodes[curr].left, m) || Above(s, s.nodes[curr].right, m)
              || exists i :: 0 <= i < |stack| && Above(s, stack[i], m)
  {
    var n := s.nodes[curr];
    var (st, c) := MoveNextFrom(s.nodes, stack, curr);
    LiveInBounds(s);
    if n.left == NULL && n.right == NULL {
      PopKeeps(s, stack, curr);
    } else if n.left != NULL && n.right != NULL {
      assert st[|stack|] == n.right;
      assert forall i :: 0 <= i < |stack| ==> st[i] == stack[i];
    }
  }

  lemma MovedOrCurrent(s: Shape, stack: seq<Ptr>, curr: Ptr, m: Ptr)
    requires s.Ok() && Stacked(s, stack, curr) && curr != NULL && m in s.key
    ensures var (st, c) := MoveNextFrom(s.nodes, stack, curr);
            m in ToVisit(s, st, c) <==> m in ToVisit(s, stack, curr) && m != curr
  {
    BelowCell(s, curr, m);
    NotWaiting(s, stack, curr);
    MovedCell(s, stack, curr, m);
    if m == curr {
      NotBelowItself(s, curr);
    }
  }

  lemma NotBelowItself(s: Shape, curr: Ptr)
    requires s.Ok() && curr in s.key && s.CellOk(curr)
    ensures !Above(s, s.nodes[curr].left, curr) && !Above(s, s.nodes[curr].right, curr)
  {
    LiveInBounds(s);
  }

  lemma MoveStacked(s: Shape, stack: seq<Ptr>, curr: Ptr)
    requires s.Ok() && Stacked(s, stack, curr) && curr != NULL
    ensures var (st, c) := MoveNextFrom(s.nodes, stack, curr); Stacked(s, st, c)
  {
    var n := s.nodes[curr];
    if n.left == NULL && n.right == NULL {
      PopKeeps(s, stack, curr);
    } else {
      DescendKeeps(s, stack, curr);
    }
  }

  /** One move visits exactly the current cell. */
  lemma MoveKeeps(s: Shape, stack: seq<Ptr>, curr: Ptr)
    requires s.Ok() && Stacked(s, stack, curr) && curr != NULL
    ensures var (st, c) := MoveNextFrom(s.nodes, stack, curr);
            Stacked(s, st, c) && ToVisit(s, st, c) == ToVisit(s, stack, curr) - {curr}
  {
    var (st, c) := MoveNextFrom(s.nodes, stack, curr);
    MoveStacked(s, stack, curr);
    var before, after := ToVisit(s, stack, curr), ToVisit(s, st, c);
    forall m | m in s.key
      ensures m in after <==> m in before && m != curr
    {
      MovedOrCurrent(s, stack, curr, m);
    }
  }

  lemma NothingLeft(s: Shape, stack: seq<Ptr>)
    requires s.Ok() && Stacked(s, stack, NULL)
    ensures ToVisit(s, stack, NULL) == {}
  {
    LiveInBounds(s);
  }

  /** The stack never grows past the length of the current prefix. */
  lemma StackDepth(s: Shape, stack: seq<Ptr>, curr: Ptr)
    requires s.Ok() && Stacked(s, stack, curr) && curr != NULL
    ensures |stack| <= |s.key[curr]| <= s.max
  {
    if stack != [] {
      var x := stack[|stack| - 1];
      assert Waits(s, x, s.key[curr]);
      BranchDepth(s, stack, |stack| - 1, curr);
    }
  }

  lemma {:induction false} BranchDepth(s: Shape, stack: seq<Ptr>, i: nat, curr: Ptr)
    requires s.Ok() && Stacked(s, stack, curr) && curr != NULL && i < |stack|
    ensures Waits(s, stack[i], s.key[curr]) && i <= |s.key[s.nodes[stack[i]].parent]|
  {
    hide Stacked;
    StackedWaits(s, stack, curr, i);
    if i > 0 {
      BranchDepth(s, stack, i - 1, curr);
      StackedWaits(s, stack, curr, i - 1);
      assert Waits(s, stack[i - 1], s.key[stack[i]]);
      var p, q := s.nodes[stack[i - 1]].parent, s.nodes[stack[i]].parent;
      NoneBetween(s, q, true, p);
      if |s.key[p]| == |s.key[q]| {
        SameKey(s, p, q);
      }
    }
  }

  /** Everything left after a cell comes after it in order. */
  lemma InOrder(s: Shape, stack: seq<Ptr>, curr: Ptr)
    requires s.Ok() && Stacked(s, stack, curr) && curr != NULL
    ensures forall m :: m in ToVisit(s, stack, curr) && m != curr ==> Precedes(s.key[curr], s.key[m])
  {
    forall m | m in ToVisit(s, stack, curr) && m != curr ensures Precedes(s.key[curr], s.key[m]) {
      if Above(s, curr, m) {
        SameKeyOrBelow(s, curr, m);
      } else {
        var i :| 0 <= i < |stack| && Above(s, stack[i], m);
        StackedWaits(s, stack, curr, i);
        var a, b := s.key[curr], s.key[m];
        var at := |s.key[s.nodes[stack[i]].parent]|;
        assert a[..at] == b[..at] && !a[at] && b[at];
      }
    }
  }

  // ---- The iterator ------------------------------------------------------------

  lemma GlueHoldsNothing(s: Shape, at: map<Bits, Ptr>, glue: Ptr, cells: set<Ptr>)
    requires s.Ok() && IndexOk(s, at) && 0 <= glue < |s.nodes| && s.nodes[glue].glue
    ensures (set q | q in at && at[q] in cells) == (set q | q in at && at[q] in cells - {glue})
  {
  }

  /** patiterator_t over a trie that does not change meanwhile. */
  class Iterator {
    const pt: Trie
    const stack: array<Ptr>
    var sp: nat
    var curr: Ptr

    ghost predicate Valid()
      reads this, stack, pt
    {
      && pt.Live().Ok() && IndexOk(pt.Live(), pt.at)
      && stack.Length == ITERATOR_SLOTS && sp <= ITERATOR_SLOTS
      && Stacked(pt.Live(), stack[..sp], curr)
    }

    ghost function Cells(): set<Ptr>
      reads this, stack, pt
      requires sp <= stack.Length
    {
      ToVisit(pt.Live(), stack[..sp], curr)
    }

    /** The stored prefixes still to come, the current one included. */
    ghost function Rest(): set<Bits>
      reads this, stack, pt
      requires sp <= stack.Length
    {
      set q | q in pt.at && pt.at[q] in Cells()
    }

    /** Not on glue: what every call of the interface leaves. */
    ghost predicate Ready()
      reads this, stack, pt
    {
      Valid() && (curr != NULL ==> 0 <= curr < |pt.nodes| && !pt.nodes[curr].glue)
    }

    /** patiteratormovenext. Its one store is within the stack. */
    method MoveNext()
      requires Valid() && curr != NULL
      modifies this, stack
      ensures Valid() && Cells() == old(Cells()) - {old(curr)} && old(curr) in old(Cells())
    {
      ghost var s, st, c := pt.Live(), stack[..sp], curr;
      StackDepth(s, st, c);
      MoveKeeps(s, st, c);
      Move();
    }

    /** Lines 905-919. */
    method Move()
      requires 0 <= curr < |pt.nodes| && sp < stack.Length
      modifies this, stack
      ensures sp <= stack.Length && (stack[..sp], curr) == MoveNextFrom(pt.nodes, old(stack[..sp]), old(curr))
    {
      var l, r := pt.nodes[curr].left, pt.nodes[curr].right;
      if l != NULL {
        if r != NULL {
          stack[sp] := r;
          sp := sp + 1;
          assert stack[..sp] == old(stack[..sp]) + [r];
        }
        curr := l;
      } else if r != NULL {
        curr := r;
      } else if sp != 0 {
        sp := sp - 1;
        curr := stack[sp];
        assert stack[..sp] == old(stack[..sp])[..sp];
      } else {
        curr := NULL;
        assert old(stack[..sp]) == [];
      }
    }

    /** patiteratorskipglue */
    method SkipGlue()
      requires Valid()
      modifies this, stack
      ensures Ready() && Rest() == old(Rest())
    {
      while curr != NULL && pt.nodes[curr].glue
        invariant Valid() && Rest() == old(Rest())
        decreases Cells()
      {
        hide Stacked, ToVisit, IndexOk;
        ghost var glue, cells := curr, Cells();
        GlueHoldsNothing(pt.Live(), pt.at, glue, cells);
        MoveNext();
      }
    }

    /** patiteratorinit */
    constructor (pt: Trie)
      requires pt.Live().Ok() && IndexOk(pt.Live(), pt.at)
      ensures Ready() && this.pt == pt && Rest() == pt.Stored()
      ensures fresh(stack)
    {
      this.pt := pt;
      stack := new Ptr[ITERATOR_SLOTS](i => NULL);
      sp := 0;
      curr := pt.head;
      new;
      WalkStart(pt.Live());
      assert stack[..sp] == [];
      StoredInBounds(pt.Live(), pt.at);
      SkipGlue();
    }

    /** patiteratorget: the current cell holds the first of the prefixes to come. */
    method Get() returns (n: Ptr)
      requires Ready() && curr != NULL
      ensures n == curr && n in pt.key && pt.key[n] in pt.at && n == pt.at[pt.key[n]]
      ensures pt.key[n] in Rest() && forall q :: q in Rest() && q != pt.key[n] ==> Precedes(pt.key[n], q)
    {
      n := curr;
      InOrder(pt.Live(), stack[..sp], curr);
    }

    /** patiteratornext */
    method Next()
      requires Ready() && curr != NULL
      modifies this, stack
      ensures Ready() && Rest() == old(Rest()) - {old(pt.key[curr])}
    {
      ghost var rest, k, n := Rest(), pt.key[curr], curr;
      MoveNext();
      assert Rest() == rest - {k};
      SkipGlue();
    }

    /** patiteratorend */
    method End() returns (r: bool)
      requires Ready()
      ensures r <==> Rest() == {}
      ensures r <==> curr == NULL
    {
      r := curr == NULL;
      if r {
        NothingLeft(pt.Live(), stack[..sp]);
      } else {
        assert pt.key[curr] in Rest();
      }
    }
  }

  /** `keys`, held by `cells`, come in order before all of `rest`, and nothing
      stored is in neither. */
  ghost predicate Listed(at: map<Bits, Ptr>, cells: seq<Ptr>, keys: seq<Bits>, rest: set<Bits>) {
    && |cells| == |keys|
    && (forall i :: 0 <= i < |keys| ==> keys[i] in at && cells[i] == at[keys[i]] && keys[i] !in rest)
    && (forall q :: q in at ==> q in keys || q in rest)
    && (forall i, j :: 0 <= i < j < |keys| ==> Precedes(keys[i], keys[j]) && keys[i] != keys[j])
    && (forall i, q :: 0 <= i < |keys| && q in rest ==> Precedes(keys[i], q))
  }

  lemma ListedNext(at: map<Bits, Ptr>, cells: seq<Ptr>, keys: seq<Bits>, rest: set<Bits>, k: Bits)
    requires Listed(at, cells, keys, rest) && k in at && k in rest
    requires forall q :: q in rest && q != k ==> Precedes(k, q)
    ensures Listed(at, cells + [at[k]], keys + [k], rest - {k})
  {
    var keys' := keys + [k];
    forall i, j | 0 <= i < j < |keys'| ensures Precedes(keys'[i], keys'[j]) && keys'[i] != keys'[j] {
      if j == |keys| {
        assert keys'[j] == k && keys'[i] == keys[i];
      }
    }
    forall q | q in at ensures q in keys' || q in rest - {k} {
      if q == k { assert keys'[|keys|] == k; }
    }
  }

  /** Every stored prefix once, by the cell that holds it, in address order. */
  ghost predicate AllInOrder(s: Shape, at: map<Bits, Ptr>, cells: seq<Ptr>) {
    && (forall i :: 0 <= i < |cells| ==>
          cells[i] in s.key && s.key[cells[i]] in at && at[s.key[cells[i]]] == cells[i])
    && (forall i, j :: 0 <= i < j < |cells| && cells[i] in s.key && cells[j] in s.key ==>
          cells[i] != cells[j] && Precedes(s.key[cells[i]], s.key[cells[j]]))
    && (forall q :: q in at ==> at[q] in cells)
  }

  lemma ListedAll(s: Shape, at: map<Bits, Ptr>, cells: seq<Ptr>, keys: seq<Bits>)
    requires s.Ok() && IndexOk(s, at) && Listed(at, cells, keys, {})
    ensures AllInOrder(s, at, cells)
  {
    forall i | 0 <= i < |cells| ensures cells[i] in s.key && s.key[cells[i]] == keys[i] {
      assert keys[i] in at;
    }
    forall q | q in at ensures at[q] in cells {
      var i :| 0 <= i < |keys| && keys[i] == q;
      assert cells[i] == at[q];
    }
  }

  /** From patiteratorinit to patiteratorend. */
  method Enumerate(pt: Trie) returns (cells: seq<Ptr>)
    requires pt.Live().Ok() && IndexOk(pt.Live(), pt.at)
    ensures AllInOrder(pt.Live(), pt.at, cells)
  {
    cells := [];
    ghost var keys: seq<Bits> := [];
    var it := new Iterator(pt);
    var end := it.End();
    while !end
      invariant fresh(it) && fresh(it.stack) && it.pt == pt && it.Ready()
      invariant (end <==> it.Rest() == {}) && (end <==> it.curr == NULL)
      invariant Listed(pt.at, cells, keys, it.Rest())
      decreases it.Rest()
    {
      var n := it.Get();
      ghost var rest := it.Rest();
      ListedNext(pt.at, cells, keys, rest, pt.key[n]);
      cells, keys := cells + [n], keys + [pt.key[n]];
      it.Next();
      end := it.End();
    }
    ListedAll(pt.Live(), pt.at, cells, keys);
  }
}
