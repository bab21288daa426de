/** The memory of a Patricia trie (src/patriciatrie.c) as a value, what makes it
    well formed, and what follows from that. Cells are the nodes of the allocated
    pages; a pointer is an index into them. */
module PatriciaShape {
  import opened Netaddr

  type Ptr = int
  const NULL: Ptr := -1

  /** union pnode_s. The source keeps `glue` in the lowest bit of `parent`, and
      overlays `next` on the first bytes of `prefix`. */
  datatype PNode = PNode(
    prefix: Netaddr<bv8>, payload: int, parent: Ptr, glue: bool,
    left: Ptr, right: Ptr, next: Ptr)
  {
    function Child(b: bool): Ptr {
      if b then right else left
    }

    function SetChild(b: bool, c: Ptr): PNode {
      if b then this.(right := c) else this.(left := c)
    }
  }

  /** The live part of a trie: its cells, its root, its address width and, for
      every live cell, the prefix it stands for. Glue cells do not store theirs. */
  datatype Shape = Shape(nodes: seq<PNode>, head: Ptr, max: nat, key: map<Ptr, Bits>) {

    ghost predicate NodeOk(n: Ptr)
      requires n in key
    {
      && 0 <= n < |nodes|
      && |key[n]| == nodes[n].prefix.bitlen <= max
      && (if nodes[n].glue then nodes[n].left != NULL && nodes[n].right != NULL
          else ValidAddr(nodes[n].prefix) && Key(nodes[n].prefix) == key[n])
    }

    ghost predicate ChildOk(n: Ptr, b: bool)
      requires n in key && 0 <= n < |nodes|
    {
      var c := nodes[n].Child(b);
      c == NULL || (c in key && 0 <= c < |nodes| && nodes[c].parent == n && Under(key[n], b, key[c]))
    }

    ghost predicate ParentOk(n: Ptr)
      requires n in key && 0 <= n < |nodes|
    {
      var p := nodes[n].parent;
      if n == head then p == NULL
      else p in key && 0 <= p < |nodes| && key[p] < key[n] && nodes[p].Child(key[n][|key[p]|]) == n
    }

    ghost predicate Ok() {
      && max <= 128
      && (head == NULL <==> key.Keys == {})
      && (head != NULL ==> head in key)
      && forall n {:trigger CellOk(n)} :: n in key ==> CellOk(n)
    }

    ghost predicate CellOk(n: Ptr)
      requires n in key
    {
      NodeOk(n) && ChildOk(n, false) && ChildOk(n, true) && ParentOk(n)
    }
  }

  /** k lies below a on the side of bit b. */
  ghost predicate Under(a: Bits, b: bool, k: Bits) {
    a < k && k[|a|] == b
  }

  lemma {:induction false} HeadIsPrefix(s: Shape, n: Ptr)
    requires s.Ok() && n in s.key
    ensures s.head in s.key && s.key[s.head] <= s.key[n]
    decreases |s.key[n]|
  {
    assert s.CellOk(n);
    if n != s.head {
      HeadIsPrefix(s, s.nodes[n].parent);
    }
  }

  /** From a live cell the bits of any live prefix below it lead to a child
      that is still above or at that prefix. */
  lemma {:induction false} Descend(s: Shape, n: Ptr, m: Ptr)
    requires s.Ok() && n in s.key && m in s.key
    requires s.key[n] < s.key[m] && s.CellOk(n)
    ensures var c := s.nodes[n].Child(s.key[m][|s.key[n]|]);
            c in s.key && s.key[c] <= s.key[m]
    decreases |s.key[n]| + |s.key[m]|
  {
    assert s.CellOk(n) && s.CellOk(m);
    if m == s.head {
      HeadIsPrefix(s, n);
    } else {
      var p := s.nodes[m].parent;
      assert s.CellOk(p);
      if |s.key[n]| < |s.key[p]| {
        Descend(s, n, p);
      } else if |s.key[p]| < |s.key[n]| {
        Descend(s, p, n);
        assert false;
      } else {
        SameKey(s, n, p);
      }
    }
  }

  lemma {:induction false} SameKey(s: Shape, n: Ptr, m: Ptr)
    requires s.Ok() && n in s.key && m in s.key
    requires s.key[n] == s.key[m]
    ensures n == m
    decreases |s.key[n]| + |s.key[m]|
  {
    assert s.CellOk(n) && s.CellOk(m);
    if n == s.head {
      if m != s.head { HeadIsPrefix(s, s.nodes[m].parent); }
    } else if m == s.head {
      HeadIsPrefix(s, s.nodes[n].parent);
    } else {
      var p, q := s.nodes[n].parent, s.nodes[m].parent;
      assert s.CellOk(p) && s.CellOk(q);
      if |s.key[p]| < |s.key[q]| {
        Descend(s, p, q);
      } else if |s.key[q]| < |s.key[p]| {
        Descend(s, q, p);
      } else {
        SameKey(s, p, q);
      }
    }
  }

  /** Nothing live lies strictly between a cell and its child. */
  lemma NoneBetween(s: Shape, n: Ptr, b: bool, a: Ptr)
    requires s.Ok() && n in s.key && a in s.key && s.CellOk(n)
    requires s.nodes[n].Child(b) in s.key && s.key[a] < s.key[s.nodes[n].Child(b)]
    ensures s.key[a] <= s.key[n]
  {
    assert s.CellOk(s.nodes[n].Child(b));
    if s.key[n] < s.key[a] {
      Descend(s, n, a);
    }
  }

  /** Above n, the way down follows the bits of the address. */
  ghost predicate OnTheWay(s: Shape, prefix: Netaddr<bv8>, n: Ptr)
    requires ValidAddr(prefix)
  {
    n in s.key &&
    forall a :: a in s.key && s.key[a] < s.key[n] && |s.key[a]| < 128 ==>
      s.key[n][|s.key[a]|] == AddrBits(prefix.bytes)[|s.key[a]|]
  }

  lemma WayStart(s: Shape, prefix: Netaddr<bv8>)
    requires s.Ok() && s.head != NULL && ValidAddr(prefix)
    ensures OnTheWay(s, prefix, s.head)
    ensures forall m :: m in s.key ==> s.key[s.head] <= s.key[m]
  {
    forall m | m in s.key ensures s.key[s.head] <= s.key[m] {
      HeadIsPrefix(s, m);
    }
  }

  /** One step of the descent keeps to the way, and never leaves the prefixes
      that extend the one looked for. */
  lemma WayStep(s: Shape, prefix: Netaddr<bv8>, n: Ptr, bit: bool)
    requires s.Ok() && ValidAddr(prefix) && prefix.bitlen <= s.max
    requires n in s.key && s.CellOk(n) && OnTheWay(s, prefix, n)
    requires bit == (|s.key[n]| < s.max && AddrBits(prefix.bytes)[|s.key[n]|])
    ensures var c := s.nodes[n].Child(bit);
            c != NULL ==> OnTheWay(s, prefix, c)
                          && |s.key[n]| < |s.key[c]| <= s.max && s.key[n] <= s.key[c]
                          && (Key(prefix) <= s.key[n] ==> Key(prefix) <= s.key[c])
    ensures forall m :: m in s.key && s.key[n] < s.key[m] && Key(prefix) <= s.key[m]
                        && |s.key[n]| < prefix.bitlen ==>
              var c := s.nodes[n].Child(bit); c != NULL && c in s.key && s.key[c] <= s.key[m]
  {
    var c := s.nodes[n].Child(bit);
    if c != NULL {
      assert s.CellOk(c);
      forall a | a in s.key && s.key[a] < s.key[c]
        ensures s.key[c][|s.key[a]|] == AddrBits(prefix.bytes)[|s.key[a]|]
      {
        NoneBetween(s, n, bit, a);
      }
    }
    forall m | m in s.key && s.key[n] < s.key[m] && Key(prefix) <= s.key[m] && |s.key[n]| < prefix.bitlen
      ensures c != NULL && c in s.key && s.key[c] <= s.key[m]
    {
      Descend(s, n, m);
      assert s.CellOk(c);
    }
  }

  /** Cells other than the listed ones are the same in both memories. */
  ghost predicate SameOutside(old_: seq<PNode>, new_: seq<PNode>, changed: set<Ptr>) {
    && |old_| <= |new_|
    && forall m :: 0 <= m < |old_| && m !in changed ==> new_[m] == old_[m]
  }

  function Leaf(prefix: Netaddr<bv8>, parent: Ptr): PNode {
    PNode(prefix, 0, parent, false, NULL, NULL, NULL)
  }

  lemma FirstNode(s: Shape, c: Ptr, prefix: Netaddr<bv8>)
    requires ValidAddr(prefix) && prefix.bitlen <= s.max <= 128
    requires 0 <= c < |s.nodes| && s.nodes[c] == Leaf(prefix, NULL)
    requires s.head == c && s.key == map[c := Key(prefix)]
    ensures s.Ok()
  {
    assert c in s.key;
  }

  /** A cell is still well formed when it, the parents its children name and the
      pointer that leads to it are the same as before. */
  lemma CellKept(s: Shape, s': Shape, m: Ptr)
    requires m in s.key && m in s'.key && s.key[m] == s'.key[m] && s.max == s'.max
    requires s.CellOk(m) && m < |s'.nodes| && s'.nodes[m] == s.nodes[m]
    requires s.nodes[m].left != NULL ==> KeptLink(s, s', s.nodes[m].left)
    requires s.nodes[m].right != NULL ==> KeptLink(s, s', s.nodes[m].right)
    requires s.head == m <==> s'.head == m
    requires m != s.head ==>
               var p := s.nodes[m].parent;
               && p in s.key && p in s'.key && s.key[p] == s'.key[p] && 0 <= p < |s'.nodes|
               && s'.nodes[p].Child(s.key[m][|s.key[p]|]) == m
    ensures s'.CellOk(m)
  {
  }

  ghost predicate KeptLink(s: Shape, s': Shape, c: Ptr) {
    && c in s.key && c in s'.key && s.key[c] == s'.key[c]
    && 0 <= c < |s.nodes| <= |s'.nodes| && s.nodes[c].parent == s'.nodes[c].parent
  }

  /** s' is s with a new leaf c hung on the free child pointer b of n. */
  ghost predicate LeafAdded(s: Shape, s': Shape, n: Ptr, b: bool, c: Ptr, prefix: Netaddr<bv8>) {
    && ValidAddr(prefix) && prefix.bitlen <= s.max
    && n in s.key && 0 <= n < |s.nodes| && c !in s.key && 0 <= c < |s'.nodes|
    && Under(s.key[n], b, Key(prefix)) && s.nodes[n].Child(b) == NULL
    && SameOutside(s.nodes, s'.nodes, {n, c})
    && s'.nodes[n] == s.nodes[n].SetChild(b, c) && s'.nodes[c] == Leaf(prefix, n)
    && s'.key == s.key[c := Key(prefix)] && s'.head == s.head && s'.max == s.max
  }

  lemma AddLeaf(s: Shape, s': Shape, n: Ptr, b: bool, c: Ptr, prefix: Netaddr<bv8>)
    requires s.Ok() && LeafAdded(s, s', n, b, c, prefix)
    ensures s'.Ok()
  {
    forall m | m in s'.key ensures s'.CellOk(m) {
      if m in s.key {
        assert s.CellOk(m) && s.CellOk(n);
        if m != n { CellKept(s, s', m); }
      }
    }
    assert n in s'.key;
  }

  /** What splicing a glue cell g above n does to the memory: n on one side of
      bit d, the new leaf c on the other. */
  ghost predicate SplicedMemory(s: Shape, s': Shape, n: Ptr, d: nat, bit: bool, g: Ptr, c: Ptr, prefix: Netaddr<bv8>)
    requires n in s.key && 0 <= n < |s.nodes|
  {
    var p := s.nodes[n].parent;
    && s'.max == s.max
    && g !in s.key && c !in s.key && g != c && 0 <= c < |s'.nodes| && 0 <= g < |s'.nodes|
    && SameOutside(s.nodes, s'.nodes, {n, p, g, c})
    && (if n == s.head then s'.head == g
        else
          && p in s.key && 0 <= p < |s.nodes| && |s.key[p]| < d && s'.head == s.head
          && s'.nodes[p] == s.nodes[p].SetChild(s.nodes[p].right == n, g))
    && s'.nodes[n] == s.nodes[n].(parent := g)
    && s'.nodes[c] == Leaf(prefix, g)
    && s'.nodes[g].glue && s'.nodes[g].parent == p && s'.nodes[g].prefix.bitlen == d
    && s'.nodes[g].Child(bit) == c && s'.nodes[g].Child(!bit) == n
  }

  ghost predicate Spliced(s: Shape, s': Shape, n: Ptr, d: nat, g: Ptr, c: Ptr, prefix: Netaddr<bv8>)
    requires n in s.key && 0 <= n < |s.nodes|
  {
    && ValidAddr(prefix) && d < prefix.bitlen <= s.max
    && var k := Key(prefix);
    && SplicedMemory(s, s', n, d, k[d], g, c, prefix)
    && d < |s.key[n]| && k[..d] == s.key[n][..d] && k[d] != s.key[n][d]
    && s'.key == s.key[g := k[..d]][c := k]
  }

  lemma SpliceGlue(s: Shape, s': Shape, n: Ptr, d: nat, g: Ptr, c: Ptr, prefix: Netaddr<bv8>)
    requires s.Ok() && n in s.key && s.CellOk(n) && Spliced(s, s', n, d, g, c, prefix)
    ensures s'.Ok()
  {
    var p := s.nodes[n].parent;
    SplicedKeys(s, s', n, d, g, c, prefix);
    forall m | m in s'.key ensures s'.CellOk(m) {
      if n != s.head { assert s.CellOk(p); }
      if m == g || m == c {
        SpliceNewCells(s, s', n, d, g, c, prefix);
      } else if m == n {
        SpliceBelow(s, s', n, d, g, c, prefix);
      } else if n != s.head && m == p {
        SpliceAbove(s, s', n, d, g, c, prefix);
      } else {
        assert s.CellOk(m);
        SpliceElsewhere(s, s', n, d, g, c, prefix, m);
      }
    }
  }

  lemma SpliceElsewhere(s: Shape, s': Shape, n: Ptr, d: nat, g: Ptr, c: Ptr, prefix: Netaddr<bv8>, m: Ptr)
    requires n in s.key && s.NodeOk(n) && s.ParentOk(n) && Spliced(s, s', n, d, g, c, prefix)
    requires m in s.key && s.CellOk(m) && m != n && m != s.nodes[n].parent
    requires m != s.head ==> s.nodes[m].parent in s.key
    ensures s'.CellOk(m)
  {
    var l, r := s.nodes[m].left, s.nodes[m].right;
    assert l != NULL ==> KeptLink(s, s', l);
    assert r != NULL ==> KeptLink(s, s', r);
    CellKept(s, s', m);
  }

  lemma SplicedKeys(s: Shape, s': Shape, n: Ptr, d: nat, g: Ptr, c: Ptr, prefix: Netaddr<bv8>)
    requires s.Ok() && n in s.key && s.CellOk(n) && Spliced(s, s', n, d, g, c, prefix)
    ensures Under(s'.key[g], Key(prefix)[d], s'.key[c]) && Under(s'.key[g], !Key(prefix)[d], s'.key[n])
    ensures var p := s.nodes[n].parent;
            n != s.head ==> s.CellOk(p) && s'.key[p] == s.key[p] && |s.key[p]| < d
                            && Under(s'.key[p], s.key[n][|s.key[p]|], s'.key[g])
  {
    var p := s.nodes[n].parent;
    if n != s.head {
      assert s.CellOk(p);
      assert s.key[p] < s.key[n];
      assert forall i :: 0 <= i < |s.key[p]| ==> s.key[n][i] == s.key[n][..d][i];
    }
  }

  lemma SpliceNewCells(s: Shape, s': Shape, n: Ptr, d: nat, g: Ptr, c: Ptr, prefix: Netaddr<bv8>)
    requires s.Ok() && n in s.key && s.CellOk(n) && Spliced(s, s', n, d, g, c, prefix)
    ensures s'.CellOk(g) && s'.CellOk(c)
  {
    SplicedKeys(s, s', n, d, g, c, prefix);
  }

  lemma SpliceBelow(s: Shape, s': Shape, n: Ptr, d: nat, g: Ptr, c: Ptr, prefix: Netaddr<bv8>)
    requires s.Ok() && n in s.key && s.CellOk(n) && Spliced(s, s', n, d, g, c, prefix)
    ensures s'.CellOk(n)
  {
    SplicedKeys(s, s', n, d, g, c, prefix);
  }

  lemma SpliceAbove(s: Shape, s': Shape, n: Ptr, d: nat, g: Ptr, c: Ptr, prefix: Netaddr<bv8>)
    requires s.Ok() && n in s.key && s.CellOk(n) && Spliced(s, s', n, d, g, c, prefix)
    requires n != s.head && s.CellOk(s.nodes[n].parent)
    ensures s'.CellOk(s.nodes[n].parent)
  {
    SplicedKeys(s, s', n, d, g, c, prefix);
    var p := s.nodes[n].parent;
    var b := s.key[n][|s.key[p]|];
    assert s.nodes[p].Child(b) == n && s.nodes[p].Child(!b) != n;
    assert s'.nodes[p].Child(b) == g && s'.nodes[p].Child(!b) == s.nodes[p].Child(!b);
    assert s'.ChildOk(p, b) && s'.ChildOk(p, !b);
  }

  // ---- Unlinking cells ------------------------------------------------------

  /** s' is s without the leaf n, whose parent keeps its place. */
  ghost predicate LeafDropped(s: Shape, s': Shape, n: Ptr)
    requires n in s.key && 0 <= n < |s.nodes|
  {
    var p := s.nodes[n].parent;
    && s.nodes[n].left == NULL && s.nodes[n].right == NULL && n != s.head
    && p in s.key && 0 <= p < |s.nodes| == |s'.nodes| && !s.nodes[p].glue
    && SameOutside(s.nodes, s'.nodes, {n, p})
    && s'.nodes[p] == s.nodes[p].SetChild(s.nodes[p].right == n, NULL)
    && s'.key == s.key - {n} && s'.head == s.head && s'.max == s.max
  }

  lemma DropLeaf(s: Shape, s': Shape, n: Ptr)
    requires s.Ok() && n in s.key && s.CellOk(n) && LeafDropped(s, s', n)
    ensures s'.Ok()
  {
    var p := s.nodes[n].parent;
    assert s.CellOk(p) && s.nodes[p].Child(s.nodes[p].right == n) == n;
    assert s.head in s'.key;
    forall m | m in s'.key ensures s'.CellOk(m) {
      assert s.CellOk(m);
      if m != p { CellKept(s, s', m); }
    }
  }

  /** s' is s with x cut out: its child c takes its place. Besides x, a leaf
      child of x may be gone. */
  ghost predicate CutOut(s: Shape, s': Shape, x: Ptr, c: Ptr, gone: set<Ptr>)
    requires x in s.key && 0 <= x < |s.nodes|
  {
    var p := s.nodes[x].parent;
    && c in s.key && 0 <= c < |s.nodes| == |s'.nodes| && s.nodes[c].parent == x
    && x in gone && c !in gone && gone <= s.key.Keys
    && s.nodes[x].left in gone + {c, NULL} && s.nodes[x].right in gone + {c, NULL}
    && (forall m :: m in gone && m != x && 0 <= m < |s.nodes| ==>
          s.nodes[m].parent == x && s.nodes[m].left == NULL && s.nodes[m].right == NULL)
    && SameOutside(s.nodes, s'.nodes, gone + {c, p})
    && (if x == s.head then s'.head == c
        else
          && p in s.key && 0 <= p < |s.nodes| && s'.head == s.head
          && s'.nodes[p] == s.nodes[p].SetChild(s.nodes[p].right == x, c))
    && s'.nodes[c] == s.nodes[c].(parent := p)
    && s'.key == s.key - gone && s'.max == s.max
  }

  /** The child that takes the place of x. */
  lemma CutOutChild(s: Shape, s': Shape, x: Ptr, c: Ptr, gone: set<Ptr>)
    requires s.Ok() && x in s.key && s.CellOk(x) && CutOut(s, s', x, c, gone) && s.CellOk(c)
    requires x != s.head ==> s.CellOk(s.nodes[x].parent)
    ensures s'.CellOk(c)
  {
    if x != s.head {
      ParentOfBoth(s, x, c);
    }
  }

  lemma ParentOfBoth(s: Shape, x: Ptr, c: Ptr)
    requires x in s.key && s.CellOk(x) && c in s.key && s.CellOk(c) && s.nodes[c].parent == x
    requires x != s.head && c != s.head && s.CellOk(s.nodes[x].parent)
    ensures var p := s.nodes[x].parent;
            && s.key[p] < s.key[c] && s.key[c][|s.key[p]|] == s.key[x][|s.key[p]|]
            && s.nodes[p].Child(s.key[x][|s.key[p]|]) == x && s.nodes[p].Child(!s.key[x][|s.key[p]|]) != x
  {
  }

  lemma CutOutNear(s: Shape, s': Shape, x: Ptr, c: Ptr, gone: set<Ptr>)
    requires s.Ok() && x in s.key && s.CellOk(x) && CutOut(s, s', x, c, gone) && s.CellOk(c)
    requires x != s.head ==> s.CellOk(s.nodes[x].parent)
    ensures s'.CellOk(c)
    ensures x != s.head ==> s'.CellOk(s.nodes[x].parent)
  {
    CutOutChild(s, s', x, c, gone);
    if x != s.head {
      var p := s.nodes[x].parent;
      var b := s.key[x][|s.key[p]|];
      ParentOfBoth(s, x, c);
      assert s'.nodes[p].Child(b) == c && s'.nodes[p].Child(!b) == s.nodes[p].Child(!b);
      assert s'.ChildOk(p, b) && s'.ChildOk(p, !b);
    }
  }

  lemma CutOutElsewhere(s: Shape, s': Shape, x: Ptr, c: Ptr, gone: set<Ptr>, m: Ptr)
    requires s.Ok() && x in s.key && s.CellOk(x) && CutOut(s, s', x, c, gone)
    requires m in s'.key && m != c && m != s.nodes[x].parent && s.CellOk(m)
    requires m != s.head ==> s.CellOk(s.nodes[m].parent)
    ensures s'.CellOk(m)
  {
    assert s.nodes[m].left != NULL ==> KeptLink(s, s', s.nodes[m].left);
    assert s.nodes[m].right != NULL ==> KeptLink(s, s', s.nodes[m].right);
    assert m != s.head ==> s.nodes[m].parent in s'.key;
    CellKept(s, s', m);
  }

  lemma CutOutOk(s: Shape, s': Shape, x: Ptr, c: Ptr, gone: set<Ptr>)
    requires s.Ok() && x in s.key && s.CellOk(x) && CutOut(s, s', x, c, gone)
    ensures s'.Ok()
  {
    var p := s.nodes[x].parent;
    assert s.CellOk(c);
    assert x != s.head ==> s.CellOk(p);
    CutOutNear(s, s', x, c, gone);
    forall m | m in s'.key ensures s'.CellOk(m) {
      assert s.CellOk(m);
      if m != c && m != p {
        assert m != s.head ==> s.CellOk(s.nodes[m].parent);
        CutOutElsewhere(s, s', x, c, gone, m);
      }
    }
    if x != s.head { assert s.CellOk(s.head); }
    assert s'.head in s'.key && s'.head != NULL;
  }

  // ---- The set of prefixes and the free list ------------------------------

  /** `at` tells for every stored prefix which cell holds it. */
  ghost predicate IndexOk(s: Shape, at: map<Bits, Ptr>)
    requires s.Ok()
  {
    && (forall n :: n in s.key && s.CellOk(n) && !s.nodes[n].glue ==> s.key[n] in at && at[s.key[n]] == n)
    && (forall k :: k in at ==>
          var n := at[k]; n in s.key && s.CellOk(n) && !s.nodes[n].glue && s.key[n] == k)
  }

  ghost function CellAt(cells: seq<Ptr>, i: nat): Ptr {
    if i < |cells| then cells[i] else NULL
  }

  /** `free` is the chain starting at `first`, and every cell is either live or
      on it, not both. */
  ghost predicate FreeOk(nodes: seq<PNode>, first: Ptr, free: seq<Ptr>, live: set<Ptr>) {
    && first == CellAt(free, 0)
    && (forall i :: 0 <= i < |free| ==>
          && 0 <= free[i] < |nodes|
          && nodes[free[i]].next == CellAt(free, i + 1))
    && (forall i, j :: 0 <= i < j < |free| ==> free[i] != free[j])
    && (forall i :: 0 <= i < |free| ==> free[i] !in live)
    && (forall n :: 0 <= n < |nodes| ==> n in live || n in free)
  }

  lemma FreeFrame(before: seq<PNode>, after: seq<PNode>, changed: set<Ptr>, first: Ptr, free: seq<Ptr>, live: set<Ptr>)
    requires FreeOk(before, first, free, live)
    requires |before| == |after| && SameOutside(before, after, changed) && changed <= live
    ensures FreeOk(after, first, free, live)
  {
  }

  /** Some stored prefix lies at or below every live cell. */
  lemma {:induction false} StoredBelow(s: Shape, n: Ptr) returns (m: Ptr)
    requires s.Ok() && n in s.key && s.CellOk(n)
    ensures m in s.key && s.CellOk(m) && !s.nodes[m].glue && s.key[n] <= s.key[m]
    decreases s.max - |s.key[n]|
  {
    m := n;
    if s.nodes[n].glue {
      assert s.CellOk(s.nodes[n].left);
      m := StoredBelow(s, s.nodes[n].left);
    }
  }

  /** k is stored, and so are prefixes below it on both sides. */
  ghost predicate Fork(stored: set<Bits>, k: Bits) {
    k in stored && (exists q :: q in stored && Under(k, false, q)) && (exists q :: q in stored && Under(k, true, q))
  }

  lemma ChildMeansStoredBelow(s: Shape, at: map<Bits, Ptr>, n: Ptr, b: bool)
    requires s.Ok() && IndexOk(s, at) && n in s.key && s.CellOk(n)
    ensures s.nodes[n].Child(b) != NULL <==> exists q :: q in at.Keys && Under(s.key[n], b, q)
  {
    var c := s.nodes[n].Child(b);
    if c != NULL {
      assert s.CellOk(c);
      var m := StoredBelow(s, c);
      assert s.key[m] in at.Keys && Under(s.key[n], b, s.key[m]);
    }
    if q :| q in at.Keys && Under(s.key[n], b, q) {
      assert s.CellOk(at[q]);
      Descend(s, n, at[q]);
      assert s.CellOk(s.nodes[n].Child(b));
    }
  }

  /** Two children is what both sides having stored prefixes means. */
  lemma ForkIsTwoChildren(s: Shape, at: map<Bits, Ptr>, n: Ptr)
    requires s.Ok() && IndexOk(s, at) && n in s.key && s.CellOk(n) && !s.nodes[n].glue
    ensures Fork(at.Keys, s.key[n]) <==> s.nodes[n].left != NULL && s.nodes[n].right != NULL
  {
    ChildMeansStoredBelow(s, at, n, false);
    ChildMeansStoredBelow(s, at, n, true);
  }

  /** Some choice of live cells, index and free list explains this memory. */
  ghost predicate WellFormedMemory(nodes: seq<PNode>, head: Ptr, max: nat, first: Ptr) {
    exists key, at, free :: StateOk(Shape(nodes, head, max, key), at, first, free)
  }

  lemma StateIsWellFormed(s: Shape, at: map<Bits, Ptr>, first: Ptr, free: seq<Ptr>)
    requires StateOk(s, at, first, free)
    ensures WellFormedMemory(s.nodes, s.head, s.max, first)
  {
    assert StateOk(Shape(s.nodes, s.head, s.max, s.key), at, first, free);
  }

  ghost predicate StateOk(s: Shape, at: map<Bits, Ptr>, first: Ptr, free: seq<Ptr>) {
    s.Ok() && IndexOk(s, at) && FreeOk(s.nodes, first, free, s.key.Keys)
  }

  /** Every live cell is live in any other explanation of a memory with the
      same links. */
  lemma {:induction false} LinkedIsLive(s: Shape, s': Shape, n: Ptr)
    requires s.Ok() && s'.Ok() && s.head == s'.head && |s.nodes| == |s'.nodes|
    requires forall m :: m in s.key && 0 <= m < |s.nodes| ==>
               s.nodes[m].left == s'.nodes[m].left && s.nodes[m].right == s'.nodes[m].right
    requires n in s.key && s.CellOk(n)
    ensures n in s'.key
    decreases |s.key[n]|
  {
    if n != s.head {
      var p := s.nodes[n].parent;
      assert s.CellOk(p);
      LinkedIsLive(s, s', p);
      assert s'.CellOk(p);
      assert s'.ChildOk(p, s.key[n][|s.key[p]|]);
    }
  }

  /** A live cell at the head of the free list breaks every explanation. */
  lemma FreedWhileLive(s: Shape, nodes: seq<PNode>, n: Ptr)
    requires s.Ok() && n in s.key && s.CellOk(n) && |nodes| == |s.nodes|
    requires forall m :: m in s.key && 0 <= m < |s.nodes| ==>
               s.nodes[m].left == nodes[m].left && s.nodes[m].right == nodes[m].right
    ensures !WellFormedMemory(nodes, s.head, s.max, n)
  {
    forall key, at, free ensures !StateOk(Shape(nodes, s.head, s.max, key), at, n, free) {
      var s' := Shape(nodes, s.head, s.max, key);
      if StateOk(s', at, n, free) {
        LinkedIsLive(s, s', n);
      }
    }
  }

  /** Adding one real cell, and possibly glue, adds one prefix: it was not stored. */
  lemma IndexGrown(s: Shape, s': Shape, at: map<Bits, Ptr>, c: Ptr)
    requires s.Ok() && IndexOk(s, at) && s'.Ok()
    requires c in s'.key && c !in s.key && s'.CellOk(c) && !s'.nodes[c].glue
    requires forall m :: m in s.key ==>
               && m in s'.key && s'.key[m] == s.key[m]
               && 0 <= m < |s.nodes| <= |s'.nodes| && s'.nodes[m].glue == s.nodes[m].glue
    requires forall m :: m in s'.key && m !in s.key && m != c ==> 0 <= m < |s'.nodes| && s'.nodes[m].glue
    ensures s'.key[c] !in at && IndexOk(s', at[s'.key[c] := c])
  {
    var k := s'.key[c];
    if k in at {
      SameKey(s', at[k], c);
    }
    forall n | n in s'.key && s'.CellOk(n) && !s'.nodes[n].glue
      ensures s'.key[n] in at[k := c] && at[k := c][s'.key[n]] == n
    {
      if n != c {
        assert s.CellOk(n);
        if s'.key[n] == k { SameKey(s', n, c); }
      }
    }
    var at' := at[k := c];
    forall q | q in at'
      ensures var n := at'[q]; n in s'.key && s'.CellOk(n) && !s'.nodes[n].glue && s'.key[n] == q
    {
      assert s'.CellOk(at'[q]);
    }
  }

  /** Removing one real cell, and possibly glue, removes one prefix. */
  lemma IndexShrunk(s: Shape, s': Shape, at: map<Bits, Ptr>, n: Ptr)
    requires s.Ok() && IndexOk(s, at) && s'.Ok()
    requires n in s.key && s.CellOk(n) && !s.nodes[n].glue && n !in s'.key
    requires forall m :: m in s'.key ==>
               && m in s.key && s'.key[m] == s.key[m]
               && 0 <= m < |s.nodes| == |s'.nodes| && s'.nodes[m].glue == s.nodes[m].glue
    requires forall m :: m in s.key && m !in s'.key && m != n ==> 0 <= m < |s.nodes| && s.nodes[m].glue
    ensures IndexOk(s', at - {s.key[n]})
  {
    var at' := at - {s.key[n]};
    forall m | m in s'.key && s'.CellOk(m) && !s'.nodes[m].glue
      ensures s'.key[m] in at' && at'[s'.key[m]] == m
    {
      assert s.CellOk(m);
    }
    forall q | q in at'
      ensures var m := at'[q]; m in s'.key && s'.CellOk(m) && !s'.nodes[m].glue && s'.key[m] == q
    {
      assert s.CellOk(at[q]) && s'.CellOk(at[q]);
    }
  }

  // ---- Runs of patsearchexactn ---------------------------------------------

  /** The cells the loop of patsearchexactn visits, in any memory. */
  ghost predicate ExactWalk(nodes: seq<PNode>, head: Ptr, prefix: Netaddr<bv8>, w: seq<Ptr>)
    requires ValidAddr(prefix)
  {
    && w != [] && w[0] == head
    && (forall i :: 0 <= i < |w| - 1 ==> Step(nodes, prefix, w[i], w[i + 1]))
    && var last := w[|w| - 1];
       last == NULL || (0 <= last < |nodes| && nodes[last].prefix.bitlen >= prefix.bitlen)
  }

  ghost predicate Step(nodes: seq<PNode>, prefix: Netaddr<bv8>, n: Ptr, c: Ptr)
    requires ValidAddr(prefix)
  {
    && 0 <= n < |nodes| && nodes[n].prefix.bitlen < prefix.bitlen
    && c == nodes[n].Child(BitAt(prefix.bytes, nodes[n].prefix.bitlen))
  }

  /** The tests patsearchexactn makes on the cell its loop ends at. */
  predicate Hit(nodes: seq<PNode>, prefix: Netaddr<bv8>, n: Ptr)
    requires |prefix.bytes| == 16 && prefix.bitlen <= 128
  {
    && 0 <= n < |nodes| && nodes[n].prefix.bitlen <= prefix.bitlen && !nodes[n].glue
    && |nodes[n].prefix.bytes| == 16 && CompWithMask(nodes[n].prefix.bytes, prefix.bytes, prefix.bitlen)
  }

  /** An exact search for the prefix in this memory ends without a hit. */
  ghost predicate Misses(nodes: seq<PNode>, head: Ptr, prefix: Netaddr<bv8>)
    requires ValidAddr(prefix)
  {
    exists w :: ExactWalk(nodes, head, prefix, w) && !Hit(nodes, prefix, w[|w| - 1])
  }

  lemma {:induction false} WalksAgree(nodes: seq<PNode>, head: Ptr, prefix: Netaddr<bv8>, v: seq<Ptr>, w: seq<Ptr>,
                                      i: nat)
    requires ValidAddr(prefix)
    requires ExactWalk(nodes, head, prefix, v) && ExactWalk(nodes, head, prefix, w)
    requires i < |v| && i < |w| && v[i] == w[i]
    ensures v[|v| - 1] == w[|w| - 1]
    decreases |v| - i
  {
    if i < |v| - 1 && i < |w| - 1 {
      assert Step(nodes, prefix, v[i], v[i + 1]) && Step(nodes, prefix, w[i], w[i + 1]);
      WalksAgree(nodes, head, prefix, v, w, i + 1);
    } else {
      assert i < |v| - 1 ==> !Step(nodes, prefix, v[i], v[i + 1]);
      assert i < |w| - 1 ==> !Step(nodes, prefix, w[i], w[i + 1]);
    }
  }

  lemma WalkStops(nodes: seq<PNode>, head: Ptr, prefix: Netaddr<bv8>, w: seq<Ptr>, i: nat)
    requires ValidAddr(prefix) && ExactWalk(nodes, head, prefix, w) && i < |w|
    requires 0 <= w[i] < |nodes| && nodes[w[i]].prefix.bitlen >= prefix.bitlen
    ensures i == |w| - 1
  {
    assert i < |w| - 1 ==> !Step(nodes, prefix, w[i], w[i + 1]);
  }

  /** In a well formed trie the search for a prefix reaches the first cell as
      long as it on the way to any live cell that extends it. */
  lemma {:induction false} WalkTo(s: Shape, prefix: Netaddr<bv8>, n: Ptr, m: Ptr) returns (w: seq<Ptr>)
    requires s.Ok() && ValidAddr(prefix) && n in s.key && m in s.key
    requires s.CellOk(n) && s.CellOk(m)
    requires s.key[n] <= s.key[m] && Key(prefix) <= s.key[m]
    requires m != s.head ==> |s.key[s.nodes[m].parent]| < prefix.bitlen
    ensures ExactWalk(s.nodes, n, prefix, w) && w[|w| - 1] == m
    ensures forall i :: 0 <= i < |w| ==> w[i] in s.key
    decreases |s.key[m]| - |s.key[n]|
  {
    if s.key[n] == s.key[m] {
      SameKey(s, n, m);
      w := [m];
    } else {
      Descend(s, n, m);
      var b := s.key[m][|s.key[n]|];
      var c := s.nodes[n].Child(b);
      assert s.CellOk(c);
      ParentBetween(s, n, m);
      assert BitAt(prefix.bytes, |s.key[n]|) == Key(prefix)[|s.key[n]|] == b;
      var w' := WalkTo(s, prefix, c, m);
      w := [n] + w';
      forall i | 0 <= i < |w| - 1 ensures Step(s.nodes, prefix, w[i], w[i + 1]) {
        if i > 0 { assert Step(s.nodes, prefix, w'[i - 1], w'[i]); }
      }
    }
  }

  lemma ParentBetween(s: Shape, n: Ptr, m: Ptr)
    requires s.Ok() && n in s.key && m in s.key && s.CellOk(n) && s.CellOk(m) && s.key[n] < s.key[m]
    ensures m != s.head && s.key[n] <= s.key[s.nodes[m].parent]
  {
    if m == s.head {
      HeadIsPrefix(s, n);
    } else {
      var p := s.nodes[m].parent;
      assert s.CellOk(p);
      NoneBetween(s, p, s.key[m][|s.key[p]|], n);
    }
  }

  /** A stored prefix is found. */
  lemma StoredIsHit(s: Shape, at: map<Bits, Ptr>, prefix: Netaddr<bv8>)
    requires s.Ok() && IndexOk(s, at) && ValidAddr(prefix) && Key(prefix) in at
    ensures !Misses(s.nodes, s.head, prefix)
  {
    var m := at[Key(prefix)];
    assert s.CellOk(m) && s.CellOk(s.head);
    HeadIsPrefix(s, m);
    var v := WalkTo(s, prefix, s.head, m);
    CompWithMaskIsPrefixEquality(s.nodes[m].prefix.bytes, prefix.bytes, prefix.bitlen);
    forall w | ExactWalk(s.nodes, s.head, prefix, w) ensures Hit(s.nodes, prefix, w[|w| - 1]) {
      WalksAgree(s.nodes, s.head, prefix, v, w, 0);
    }
  }
}
