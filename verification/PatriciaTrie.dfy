/** patricia_trie_t and the operations that change it (src/patriciatrie.c). */
module PatriciaTrie {
  import opened Netaddr
  import opened PatriciaShape

  const PAGE_NODES := 128

  datatype InsertResult = PREFIX_INSERTED | PREFIX_ALREADY_PRESENT

  /** k properly contains a stored prefix without being stored. */
  ghost predicate UnseenSupernet(stored: set<Bits>, k: Bits) {
    k !in stored && exists q :: q in stored && k < q
  }

  class Trie {
    var nodes: seq<PNode>
    var head: Ptr
    var maxbitlen: nat
    var freenodes: Ptr

    ghost var key: map<Ptr, Bits>
    ghost var at: map<Bits, Ptr>
    ghost var free: seq<Ptr>

    ghost function Live(): Shape
      reads this
    {
      Shape(nodes, head, maxbitlen, key)
    }

    /** The prefixes in the trie. */
    ghost function Stored(): set<Bits>
      reads this
    {
      at.Keys
    }

    ghost predicate Valid()
      reads this
    {
      StateOk(Live(), at, freenodes, free)
    }

    /** patinit */
    constructor (family: Family)
      ensures Valid() && Stored() == {}
      ensures maxbitlen == if family == AF_INET6 then 128 else 32
    {
      nodes, head, freenodes := [], NULL, NULL;
      maxbitlen := if family == AF_INET6 then 128 else 32;
      key, at, free := map[], map[], [];
    }

    /** patallocpage: 128 fresh cells, pushed on the free list one by one. */
    method AllocPage(ghost live: set<Ptr>)
      requires FreeOk(nodes, freenodes, free, live)
      requires forall n :: n in live ==> 0 <= n < |nodes|
      modifies this`nodes, this`freenodes, this`free
      ensures FreeOk(nodes, freenodes, free, live)
      ensures |nodes| == |old(nodes)| + 128 && |free| == |old(free)| + 128
      ensures SameOutside(old(nodes), nodes, {})
    {
      hide FreeOk, SameOutside, CellsFrom;
      var page := |nodes|;
      nodes := nodes + seq(PAGE_NODES, i => PNode(Netaddr(AF_UNSPEC, 0, []), 0, NULL, false, NULL, NULL, NULL));
      NothingChanged(old(nodes), nodes);
      PageAdded(old(nodes), nodes, freenodes, free, live);
      var i := 0;
      while i < PAGE_NODES
        invariant 0 <= i <= PAGE_NODES && |nodes| == page + PAGE_NODES
        invariant SameOutside(old(nodes), nodes, {})
        invariant |free| == |old(free)| + i
        invariant FreeOk(nodes, freenodes, free, live + CellsFrom(page + i, |nodes|))
      {
        ghost var before := nodes;
        NextCell(live, page + i, |nodes|);
        PutFreeNode(page + i, live + CellsFrom(page + i, |nodes|));
        StillTheSame(old(nodes), before, nodes, page + i);
        i := i + 1;
      }
      NoMoreCells(live, page + i);
    }

    /** putfreenode. The link overlays the first bytes of the cell's prefix,
        which may hold anything afterwards. */
    method PutFreeNode(n: Ptr, ghost live: set<Ptr>)
      requires 0 <= n < |nodes| && n in live
      requires FreeOk(nodes, freenodes, free, live)
      modifies this`nodes, this`freenodes, this`free
      ensures |nodes| == |old(nodes)| && SameOutside(old(nodes), nodes, {n})
      ensures nodes[n].(prefix := old(nodes[n].prefix), next := old(nodes[n].next)) == old(nodes[n])
      ensures freenodes == n && free == [n] + old(free) && FreeOk(nodes, freenodes, free, live - {n})
    {
      ghost var before := nodes;
      var overlaid: Netaddr<bv8> := *;
      nodes := nodes[n := nodes[n].(next := freenodes, prefix := overlaid)];
      freenodes := n;
      FreePushed(before, nodes, free, n, live);
      free := [n] + free;
    }

    /** getfreenode */
    method GetFreeNode(ghost live: set<Ptr>) returns (n: Ptr)
      requires FreeOk(nodes, freenodes, free, live)
      requires forall n :: n in live ==> 0 <= n < |nodes|
      modifies this`nodes, this`freenodes, this`free
      ensures 0 <= n < |nodes| && n !in live && SameOutside(old(nodes), nodes, {})
      ensures FreeOk(nodes, freenodes, free, live + {n})
    {
      if freenodes == NULL {
        AllocPage(live);
      }
      n := freenodes;
      freenodes := nodes[n].next;
      FreePopped(nodes, free, live);
      free := free[1..];
    }

    /** The descent of patinsertn: follow the bits of the address until a real
        cell at least as long as the prefix, or one without the wanted child. */
    method DescendToward(prefix: Netaddr<bv8>) returns (n: Ptr)
      requires Live().Ok() && head != NULL && ValidAddr(prefix) && prefix.bitlen <= maxbitlen
      ensures n in key && Live().CellOk(n) && !nodes[n].glue
      ensures OnTheWay(Live(), prefix, n)
      ensures |key[n]| < prefix.bitlen ==> nodes[n].Child(AddrBits(prefix.bytes)[|key[n]|]) == NULL
      ensures forall m :: m in key && Key(prefix) <= key[m] ==> Key(prefix) <= key[n]
    {
      hide OnTheWay;
      n := head;
      assert Live().CellOk(n);
      WayStart(Live(), prefix);
      while nodes[n].prefix.bitlen < prefix.bitlen || nodes[n].glue
        invariant n in key && Live().CellOk(n) && OnTheWay(Live(), prefix, n)
        invariant forall m :: m in key && Key(prefix) <= key[m] ==>
                    key[n] <= Key(prefix) || Key(prefix) <= key[n]
        decreases maxbitlen - nodes[n].prefix.bitlen
      {
        var bitlen := nodes[n].prefix.bitlen;
        var bit := bitlen < maxbitlen && BitAt(prefix.bytes, bitlen);
        var c := nodes[n].Child(bit);
        WayStep(Live(), prefix, n, bit);
        if c == NULL {
          break;
        }
        assert Live().CellOk(c);
        n := c;
      }
    }

    /** The climb of patinsertn: the highest cell above `start` of at least d bits. */
    method Climb(start: Ptr, d: nat) returns (n: Ptr)
      requires Live().Ok() && start in key && d <= |key[start]|
      ensures n in key && Live().CellOk(n) && key[n] <= key[start] && d <= |key[n]|
      ensures n == head || |key[nodes[n].parent]| < d
    {
      n := start;
      assert Live().CellOk(n);
      var parent := nodes[n].parent;
      while parent != NULL && nodes[parent].prefix.bitlen >= d
        invariant n in key && Live().CellOk(n) && parent == nodes[n].parent
        invariant parent != NULL ==> parent in key && Live().CellOk(parent)
        invariant key[n] <= key[start] && d <= |key[n]|
        decreases |key[n]|
      {
        n := parent;
        parent := nodes[n].parent;
        assert parent != NULL ==> Live().CellOk(parent);
      }
    }

    /** patinsertn. A prefix that is a proper supernet of a stored one, and is
        not stored itself, is the one case the source gets wrong. (The test at
        line 296 repeats the one at line 285, so its branch is never taken.) */
    method InsertN(prefix: Netaddr<bv8>) returns (r: Ptr, inserted: InsertResult)
      requires Valid() && ValidAddr(prefix) && prefix.bitlen <= maxbitlen
      modifies this
      ensures maxbitlen == old(maxbitlen)
      ensures !UnseenSupernet(old(Stored()), Key(prefix)) ==>
                Valid() && Added(old(at), old(nodes), at, nodes, prefix, r, inserted)
      ensures UnseenSupernet(old(Stored()), Key(prefix)) <==> Misses(nodes, head, prefix)
    {
      hide Misses, IndexOk, FreeOk, SameBits, OnTheWay;
      if head == NULL {
        r := InsertFirst(prefix);
        inserted := PREFIX_INSERTED;
        StoredIsHit(Live(), at, prefix);
        return;
      }
      var start := DescendToward(prefix);
      var other := nodes[start].prefix;
      var checkBit := if other.bitlen < prefix.bitlen then other.bitlen else prefix.bitlen;
      var differBit := DifferBit(prefix.bytes, other.bytes, checkBit);
      r := Climb(start, differBit);
      InsertCases(Live(), at, prefix, start, differBit, r);
      if differBit == prefix.bitlen && nodes[r].prefix.bitlen == prefix.bitlen {
        inserted := PREFIX_ALREADY_PRESENT;
        if !nodes[r].glue {
          Overwrite(r, prefix);
          StoredIsHit(Live(), at, prefix);
        }
        return;
      }
      inserted := PREFIX_INSERTED;
      if nodes[r].prefix.bitlen == differBit {
        r := HangLeaf(r, prefix);
        StoredIsHit(Live(), at, prefix);
        return;
      }
      r := SpliceLeaf(r, differBit, prefix);
      if differBit < prefix.bitlen {
        StoredIsHit(Live(), at, prefix);
      }
    }

    method Overwrite(n: Ptr, prefix: Netaddr<bv8>)
      requires Valid() && ValidAddr(prefix) && Key(prefix) in at && n == at[Key(prefix)]
      requires 0 <= n < |nodes|
      modifies this`nodes
      ensures Valid() && Added(at, old(nodes), at, nodes, prefix, n, PREFIX_ALREADY_PRESENT)
    {
      ghost var before := Live();
      nodes := nodes[n := nodes[n].(prefix := prefix, glue := false)];
      Overwritten(before, Live(), at, freenodes, free, prefix, n);
    }

    method HangLeaf(n: Ptr, prefix: Netaddr<bv8>) returns (leaf: Ptr)
      requires Valid() && ValidAddr(prefix) && prefix.bitlen <= maxbitlen
      requires n in key && 0 <= n < |nodes| && nodes[n].prefix.bitlen == |key[n]|
      requires key[n] < Key(prefix) && nodes[n].Child(Key(prefix)[|key[n]|]) == NULL
      modifies this
      ensures maxbitlen == old(maxbitlen)
      ensures Valid() && Added(old(at), old(nodes), at, nodes, prefix, leaf, PREFIX_INSERTED)
    {
      ghost var before, at0 := Live(), at;
      LiveInBounds(before);
      ghost var taken;
      leaf, taken := HangCell(n, prefix, key.Keys);
      key, at := key[leaf := Key(prefix)], at[Key(prefix) := leaf];
      LeafInserted(before, at0, taken, Live(), at, freenodes, free, prefix, n, Key(prefix)[|before.key[n]|], leaf);
    }

    /** Lines 278-289; `taken` is the memory once the cell is off the free list. */
    method HangCell(n: Ptr, prefix: Netaddr<bv8>, ghost live: set<Ptr>) returns (leaf: Ptr, ghost taken: seq<PNode>)
      requires FreeOk(nodes, freenodes, free, live) && (forall m :: m in live ==> 0 <= m < |nodes|)
      requires n in live && ValidAddr(prefix) && nodes[n].prefix.bitlen < prefix.bitlen <= maxbitlen <= 128
      modifies this`nodes, this`freenodes, this`free
      ensures SameOutside(old(nodes), taken, {}) && leaf !in live && 0 <= leaf < |taken|
      ensures FreeOk(taken, freenodes, free, live + {leaf})
      ensures var bit := BitAt(prefix.bytes, old(nodes[n].prefix.bitlen));
              nodes == taken[leaf := Leaf(prefix, n)][n := taken[n].SetChild(bit, leaf)]
    {
      leaf := GetFreeNode(live);
      taken := nodes;
      WriteLeaf(n, leaf, prefix);
    }

    /** The pointer writes at lines 282-289. */
    method WriteLeaf(n: Ptr, leaf: Ptr, prefix: Netaddr<bv8>)
      requires 0 <= n < |nodes| && 0 <= leaf < |nodes| && leaf != n
      requires ValidAddr(prefix) && nodes[n].prefix.bitlen < prefix.bitlen <= maxbitlen <= 128
      modifies this`nodes
      ensures var bit := BitAt(prefix.bytes, old(nodes[n].prefix.bitlen));
              nodes == old(nodes)[leaf := Leaf(prefix, n)][n := old(nodes)[n].SetChild(bit, leaf)]
    {
      nodes := nodes[leaf := Leaf(prefix, NULL)];
      nodes := nodes[leaf := nodes[leaf].(parent := n)];
      var bitlen := nodes[n].prefix.bitlen;
      var bit := bitlen < maxbitlen && BitAt(prefix.bytes, bitlen);
      nodes := nodes[n := nodes[n].SetChild(bit, leaf)];
    }

    method SpliceLeaf(n: Ptr, differBit: nat, prefix: Netaddr<bv8>) returns (leaf: Ptr)
      requires Valid() && ValidAddr(prefix) && prefix.bitlen <= maxbitlen
      requires n in key && Live().CellOk(n) && differBit <= prefix.bitlen && differBit < |key[n]|
      requires n == head || |key[nodes[n].parent]| < differBit
      requires Key(prefix)[..differBit] == key[n][..differBit]
      requires differBit < prefix.bitlen ==> Key(prefix)[differBit] != key[n][differBit]
      modifies this
      ensures maxbitlen == old(maxbitlen)
      ensures differBit < prefix.bitlen ==>
                Valid() && Added(old(at), old(nodes), at, nodes, prefix, leaf, PREFIX_INSERTED)
      ensures differBit == prefix.bitlen ==> Misses(nodes, head, prefix)
    {
      hide CanSplice, SplicedNodes, FreeOk, IndexOk, Added, Misses;
      ghost var before, at0 := Live(), at;
      LiveInBounds(before);
      SpliceParent(before, n);
      ghost var glue, taken;
      leaf, glue, taken := SpliceCells(n, differBit, prefix, key.Keys);
      key := key[glue := Key(prefix)[..differBit]][leaf := Key(prefix)];
      at := at[Key(prefix) := leaf];
      SpliceDone(before, at0, taken, Live(), at, freenodes, free, prefix, n, differBit, glue, leaf);
    }

    /** Lines 278-283 and 309-332; `taken` is the memory once both cells are off
        the free list. */
    method SpliceCells(n: Ptr, differBit: nat, prefix: Netaddr<bv8>, ghost live: set<Ptr>)
      returns (leaf: Ptr, ghost glueCell: Ptr, ghost taken: seq<PNode>)
      requires FreeOk(nodes, freenodes, free, live) && (forall m :: m in live ==> 0 <= m < |nodes|)
      requires n in live && nodes[n].parent != n && (nodes[n].parent == NULL || nodes[n].parent in live)
      requires ValidAddr(prefix) && differBit <= prefix.bitlen <= maxbitlen <= 128
      modifies this`nodes, this`head, this`freenodes, this`free
      ensures SameOutside(old(nodes), taken, {}) && CanSplice(taken, n, glueCell, leaf)
      ensures leaf !in live && glueCell !in live
      ensures FreeOk(taken, freenodes, free, live + {leaf} + {glueCell})
      ensures nodes ==
              SplicedNodes(taken, n, differBit, SpliceBit(prefix, differBit, maxbitlen), glueCell, leaf, prefix)
      ensures head == if old(nodes[n].parent) == NULL then glueCell else old(head)
    {
      var glue;
      leaf, glue := GetTwoNodes(live);
      glueCell, taken := glue, nodes;
      FreshCellsCanSplice(nodes, live, n, glue, leaf);
      WriteSplice(n, differBit, glue, leaf, prefix);
    }

    method GetTwoNodes(ghost live: set<Ptr>) returns (leaf: Ptr, glue: Ptr)
      requires FreeOk(nodes, freenodes, free, live) && (forall m :: m in live ==> 0 <= m < |nodes|)
      modifies this`nodes, this`freenodes, this`free
      ensures SameOutside(old(nodes), nodes, {}) && 0 <= leaf < |nodes| && 0 <= glue < |nodes|
      ensures leaf !in live && glue !in live + {leaf}
      ensures FreeOk(nodes, freenodes, free, live + {leaf} + {glue})
    {
      leaf := GetFreeNode(live);
      glue := GetFreeNode(live + {leaf});
    }

    /** The pointer writes at lines 282 and 313-331. */
    method WriteSplice(n: Ptr, differBit: nat, glue: Ptr, leaf: Ptr, prefix: Netaddr<bv8>)
      requires CanSplice(nodes, n, glue, leaf)
      requires ValidAddr(prefix) && differBit <= prefix.bitlen <= maxbitlen <= 128
      modifies this`nodes, this`head
      ensures nodes ==
              SplicedNodes(old(nodes), n, differBit, SpliceBit(prefix, differBit, maxbitlen), glue, leaf, prefix)
      ensures head == if old(nodes[n].parent) == NULL then glue else old(head)
    {
      nodes := nodes[leaf := Leaf(prefix, NULL)];
      nodes := nodes[glue := GlueCell(differBit, nodes[n].parent)];
      var bit := differBit < maxbitlen && BitAt(prefix.bytes, differBit);
      nodes := nodes[glue := nodes[glue].SetChild(bit, leaf)];
      nodes := nodes[glue := nodes[glue].SetChild(!bit, n)];
      nodes := nodes[leaf := nodes[leaf].(parent := glue)];
      var parent := nodes[n].parent;
      if parent == NULL {
        head := glue;
      } else {
        nodes := nodes[parent := nodes[parent].SetChild(nodes[parent].right == n, glue)];
      }
      nodes := nodes[n := nodes[n].(parent := glue)];
    }

    /** patsearchexactn */
    method SearchExactN(prefix: Netaddr<bv8>) returns (r: Ptr)
      requires Live().Ok() && IndexOk(Live(), at) && ValidAddr(prefix)
      ensures r == if Key(prefix) in at then at[Key(prefix)] else NULL
    {
      NothingStored(Live(), at);
      if head == NULL {
        return NULL;
      }
      var n := head;
      WayStart(Live(), prefix);
      assert Live().CellOk(n);
      while nodes[n].prefix.bitlen < prefix.bitlen
        invariant n in key && Live().CellOk(n)
        invariant Key(prefix) in at ==> key[n] <= Key(prefix)
        decreases maxbitlen - nodes[n].prefix.bitlen
      {
        ghost var above := n;
        var bit := BitAt(prefix.bytes, nodes[n].prefix.bitlen);
        n := nodes[n].Child(bit);
        ExactStep(Live(), at, prefix, above);
        if n == NULL {
          return NULL;
        }
        assert Live().CellOk(n);
      }
      ExactEnd(Live(), at, prefix, n);
      if nodes[n].prefix.bitlen > prefix.bitlen || nodes[n].glue {
        return NULL;
      }
      if CompWithMask(nodes[n].prefix.bytes, prefix.bytes, prefix.bitlen) {
        return n;
      }
      return NULL;
    }

    /** patremoven. A stored prefix with stored prefixes below it on both sides
        is the one case the source gets wrong: its cell goes to the free list
        and stays in the trie. */
    method RemoveN(prefix: Netaddr<bv8>) returns (payload: int)
      requires Valid() && ValidAddr(prefix)
      modifies this
      ensures maxbitlen == old(maxbitlen)
      ensures payload == if Key(prefix) in old(at) then old(nodes[at[Key(prefix)]].payload) else 0
      ensures !Fork(old(Stored()), Key(prefix)) ==>
                Valid() && Removed(old(at), old(nodes), at, nodes, Key(prefix))
      ensures Fork(old(Stored()), Key(prefix)) <==> !WellFormedMemory(nodes, head, maxbitlen, freenodes)
    {
      var n := SearchExactN(prefix);
      if n == NULL {
        AbsentRemoved(Live(), at, freenodes, free, Key(prefix));
        return 0;
      }
      FoundCell(Live(), at, n);
      payload := RemoveFound(n);
    }

    /** Lines 423-480. */
    method RemoveFound(n: Ptr) returns (payload: int)
      requires Valid() && n in key && Live().CellOk(n) && !nodes[n].glue
      modifies this
      ensures maxbitlen == old(maxbitlen) && payload == old(nodes[n].payload)
      ensures var forked := old(nodes[n].left != NULL && nodes[n].right != NULL);
              && (!forked ==> Valid() && Removed(old(at), old(nodes), at, nodes, old(key[n])))
              && (forked <==> !WellFormedMemory(nodes, head, maxbitlen, freenodes))
    {
      payload := nodes[n].payload;
      if nodes[n].left != NULL && nodes[n].right != NULL {
        Misfree(n);
        return;
      }
      if nodes[n].left == NULL && nodes[n].right == NULL {
        RemoveLeaf(n);
        return;
      }
      RemoveLink(n);
    }

    /** Lines 425-429. */
    method Misfree(n: Ptr)
      requires Valid() && n in key && Live().CellOk(n)
      modifies this`nodes, this`freenodes, this`free
      ensures !WellFormedMemory(nodes, head, maxbitlen, freenodes)
    {
      hide FreeOk, IndexOk, WellFormedMemory;
      ghost var before := Live();
      LiveInBounds(before);
      PutFreeNode(n, key.Keys);
      nodes := nodes[n := nodes[n].(glue := true)];
      FreedWhileLive(before, nodes, n);
    }

    /** A leaf goes, and with it its parent if that was glue. */
    method RemoveLeaf(n: Ptr)
      requires Valid() && n in key && Live().CellOk(n) && !nodes[n].glue
      requires nodes[n].left == NULL && nodes[n].right == NULL
      modifies this
      ensures maxbitlen == old(maxbitlen)
      ensures Valid() && Removed(old(at), old(nodes), at, nodes, old(key[n]))
      ensures WellFormedMemory(nodes, head, maxbitlen, freenodes)
    {
      ghost var before, at0 := Live(), at;
      LeafCanGo(before, n);
      ghost var gone := RemoveLeafCells(n, key.Keys);
      key, at := key - gone, at - {key[n]};
      LeafGone(before, at0, Live(), at, n, gone);
      StateIsWellFormed(Live(), at, freenodes, free);
    }

    /** Lines 434-463. */
    method RemoveLeafCells(n: Ptr, ghost live: set<Ptr>) returns (ghost gone: set<Ptr>)
      requires FreeOk(nodes, freenodes, free, live) && CanUnlink(nodes, live, n)
      requires nodes[n].parent != NULL ==> CanCollapse(nodes, live, n, nodes[n].parent)
      modifies this`nodes, this`head, this`freenodes, this`free
      ensures FreeOk(nodes, freenodes, free, live - gone)
      ensures LeafUnlinked(old(nodes), nodes, old(head), head, n, gone)
    {
      gone := {n};
      var parent := nodes[n].parent;
      PutFreeNode(n, live);
      if parent == NULL {
        head := NULL;
        return;
      }
      var bit := nodes[parent].right == n;
      WriteCell(parent, nodes[parent].SetChild(bit, NULL), live - gone);
      var child := nodes[parent].Child(!bit);
      if !nodes[parent].glue {
        return;
      }
      Relink(parent, child, live - gone);
      PutFreeNode(parent, live - gone);
      gone := {n, parent};
      assert live - {n} - {parent} == live - gone;
    }

    /** The only child takes the place of its parent. */
    method RemoveLink(n: Ptr)
      requires Valid() && n in key && Live().CellOk(n) && !nodes[n].glue
      requires nodes[n].left == NULL <==> nodes[n].right != NULL
      modifies this
      ensures maxbitlen == old(maxbitlen)
      ensures Valid() && Removed(old(at), old(nodes), at, nodes, old(key[n]))
      ensures WellFormedMemory(nodes, head, maxbitlen, freenodes)
    {
      ghost var before, at0 := Live(), at;
      LeafCanGo(before, n);
      OnlyChild(before, n);
      RemoveLinkCells(n, key.Keys);
      key, at := key - {n}, at - {key[n]};
      LinkGone(before, at0, Live(), at, n);
      StateIsWellFormed(Live(), at, freenodes, free);
    }

    /** Lines 466-480. */
    method RemoveLinkCells(n: Ptr, ghost live: set<Ptr>)
      requires FreeOk(nodes, freenodes, free, live) && CanUnlink(nodes, live, n)
      requires var c := nodes[n].Child(nodes[n].right != NULL); c in live && c != n && c != nodes[n].parent
      modifies this`nodes, this`head, this`freenodes, this`free
      ensures FreeOk(nodes, freenodes, free, live - {n})
      ensures Relinked(old(nodes), nodes, old(head), head, n, old(nodes[n].Child(nodes[n].right != NULL)), {n})
    {
      var bit := nodes[n].right != NULL;
      var child := nodes[n].Child(bit);
      var parent := nodes[n].parent;
      WriteCell(child, nodes[child].(parent := parent), live);
      PutFreeNode(n, live);
      if parent == NULL {
        head := child;
        return;
      }
      bit := nodes[parent].right == n;
      WriteCell(parent, nodes[parent].SetChild(bit, child), live - {n});
    }

    /** One assignment through a pointer to a live cell. */
    method WriteCell(n: Ptr, cell: PNode, ghost live: set<Ptr>)
      requires 0 <= n < |nodes| && n in live && FreeOk(nodes, freenodes, free, live)
      modifies this`nodes
      ensures nodes == old(nodes)[n := cell] && FreeOk(nodes, freenodes, free, live)
    {
      nodes := nodes[n := cell];
      FreeFrame(old(nodes), nodes, {n}, freenodes, free, live);
    }

    /** Point the grandparent, or the trie, at the child, and back. */
    method Relink(n: Ptr, child: Ptr, ghost live: set<Ptr>)
      requires FreeOk(nodes, freenodes, free, live) && 0 <= n < |nodes|
      requires 0 <= child < |nodes| && child in live
      requires var p := nodes[n].parent; p == NULL || (0 <= p < |nodes| && p in live && p != child)
      modifies this`nodes, this`head
      ensures FreeOk(nodes, freenodes, free, live) && |nodes| == |old(nodes)|
      ensures SameOutside(old(nodes), nodes, {child, old(nodes[n].parent)})
      ensures nodes[child] == old(nodes[child]).(parent := old(nodes[n].parent))
      ensures var p := old(nodes[n].parent);
              if p == NULL then head == child
              else head == old(head) && nodes[p] == old(nodes[p]).SetChild(old(nodes[p].right == n), child)
    {
      var grand := nodes[n].parent;
      if grand == NULL {
        head := child;
      } else {
        WriteCell(grand, nodes[grand].SetChild(nodes[grand].right == n, child), live);
      }
      WriteCell(child, nodes[child].(parent := grand), live);
    }

    method InsertFirst(prefix: Netaddr<bv8>) returns (r: Ptr)
      requires Valid() && head == NULL && ValidAddr(prefix) && prefix.bitlen <= maxbitlen
      modifies this
      ensures maxbitlen == old(maxbitlen) && old(at) == map[]
      ensures Valid() && Added(old(at), old(nodes), at, nodes, prefix, r, PREFIX_INSERTED)
    {
      ghost var old_ := Live();
      r := GetFreeNode(key.Keys);
      ghost var nodes0 := nodes;
      nodes := nodes[r := Leaf(prefix, NULL)];
      head := r;
      ghost var at0 := at;
      key, at := map[r := Key(prefix)], map[Key(prefix) := r];
      FirstInserted(old_, at0, nodes0, Live(), at, freenodes, free, prefix, r);
    }
  }

  lemma FirstInserted(s: Shape, at: map<Bits, Ptr>, nodes: seq<PNode>, s': Shape, at': map<Bits, Ptr>,
                      first: Ptr, free: seq<Ptr>, prefix: Netaddr<bv8>, r: Ptr)
    requires s.Ok() && IndexOk(s, at) && s.head == NULL
    requires ValidAddr(prefix) && prefix.bitlen <= s.max
    requires 0 <= r < |nodes| && FreeOk(nodes, first, free, s.key.Keys + {r})
    requires s' == Shape(nodes[r := Leaf(prefix, NULL)], r, s.max, map[r := Key(prefix)])
    requires at' == map[Key(prefix) := r]
    ensures at == map[]
    ensures s'.Ok() && IndexOk(s', at') && FreeOk(s'.nodes, first, free, s'.key.Keys)
    ensures Added(at, s.nodes, at', s'.nodes, prefix, r, PREFIX_INSERTED)
  {
    EmptyIndex(s, at);
    FirstNode(s', r, prefix);
    assert s.key.Keys + {r} == s'.key.Keys;
    FreeFrame(nodes, s'.nodes, {r}, first, free, {r});
    assert s'.CellOk(r);
  }

  /** Which of the outcomes of patinsertn the descent and the climb lead to. */
  lemma InsertCases(s: Shape, at: map<Bits, Ptr>, prefix: Netaddr<bv8>, start: Ptr, d: nat, n: Ptr)
    requires s.Ok() && IndexOk(s, at) && ValidAddr(prefix) && prefix.bitlen <= s.max
    requires start in s.key && s.CellOk(start) && !s.nodes[start].glue && OnTheWay(s, prefix, start)
    requires |s.key[start]| < prefix.bitlen ==>
               s.nodes[start].Child(AddrBits(prefix.bytes)[|s.key[start]|]) == NULL
    requires forall m :: m in s.key && Key(prefix) <= s.key[m] ==> Key(prefix) <= s.key[start]
    requires d <= prefix.bitlen && d <= |s.key[start]|
    requires SameBits(prefix.bytes, s.nodes[start].prefix.bytes, 0, d)
    requires d < prefix.bitlen && d < |s.key[start]| ==>
               BitAt(prefix.bytes, d) != BitAt(s.nodes[start].prefix.bytes, d)
    requires n in s.key && s.CellOk(n) && s.key[n] <= s.key[start] && d <= |s.key[n]|
    requires n == s.head || |s.key[s.nodes[n].parent]| < d
    ensures Key(prefix)[..d] == s.key[n][..d]
    ensures d == prefix.bitlen == |s.key[n]| && !s.nodes[n].glue ==>
              Key(prefix) in at && at[Key(prefix)] == n
    ensures d == prefix.bitlen == |s.key[n]| && s.nodes[n].glue ==>
              UnseenSupernet(at.Keys, Key(prefix)) && Misses(s.nodes, s.head, prefix)
    ensures |s.key[n]| == d < prefix.bitlen ==>
              s.key[n] < Key(prefix) && s.nodes[n].Child(Key(prefix)[d]) == NULL
    ensures d < prefix.bitlen && d < |s.key[n]| ==> Key(prefix)[d] != s.key[n][d]
    ensures d < prefix.bitlen ==> !UnseenSupernet(at.Keys, Key(prefix))
    ensures d == prefix.bitlen < |s.key[n]| ==> UnseenSupernet(at.Keys, Key(prefix))
  {
    hide IndexOk, Misses, UnseenSupernet, OnTheWay, SameBits;
    var k := Key(prefix);
    SameBitsSameKey(prefix, s.nodes[start].prefix, d);
    assert s.key[start][..d] == s.key[n][..d];
    if d == prefix.bitlen == |s.key[n]| {
      assert s.key[n] == k;
      if s.nodes[n].glue {
        GlueIsUnseen(s, at, prefix, start, n);
      } else {
        RealCellIsStored(s, at, n);
      }
    } else if d == prefix.bitlen {
      SupernetIsUnseen(s, at, prefix, start, n);
    } else {
      SubnetsAgree(s, at, k, s.key[start], d);
      if |s.key[n]| == d {
        NoChildThere(s, prefix, start, d, n);
      }
    }
  }

  lemma RealCellIsStored(s: Shape, at: map<Bits, Ptr>, n: Ptr)
    requires s.Ok() && IndexOk(s, at) && n in s.key && s.CellOk(n) && !s.nodes[n].glue
    ensures s.key[n] in at && at[s.key[n]] == n
  {
  }

  /** Where the bits of the prefix part from those of `start` there is no child. */
  lemma NoChildThere(s: Shape, prefix: Netaddr<bv8>, start: Ptr, d: nat, n: Ptr)
    requires s.Ok() && ValidAddr(prefix) && d < prefix.bitlen
    requires start in s.key && s.CellOk(start) && OnTheWay(s, prefix, start)
    requires |s.key[start]| < prefix.bitlen ==>
               s.nodes[start].Child(AddrBits(prefix.bytes)[|s.key[start]|]) == NULL
    requires n in s.key && s.CellOk(n) && s.key[n] <= s.key[start] && |s.key[n]| == d
    requires d < |s.key[start]| ==> Key(prefix)[d] != s.key[start][d]
    ensures s.nodes[n].Child(Key(prefix)[d]) == NULL
  {
    if n != start {
      SameKeyOrBelow(s, n, start);
    }
  }

  lemma SameBitsSameKey(a: Netaddr<bv8>, b: Netaddr<bv8>, d: nat)
    requires ValidAddr(a) && ValidAddr(b) && d <= a.bitlen && d <= b.bitlen
    requires SameBits(a.bytes, b.bytes, 0, d)
    ensures Key(a)[..d] == Key(b)[..d]
    ensures d < a.bitlen && d < b.bitlen && BitAt(a.bytes, d) != BitAt(b.bytes, d) ==> Key(a)[d] != Key(b)[d]
  {
  }

  /** Nothing stored extends a prefix that differs from the cell its descent ends at. */
  lemma SubnetsAgree(s: Shape, at: map<Bits, Ptr>, k: Bits, start: Bits, d: nat)
    requires s.Ok() && IndexOk(s, at) && d < |k|
    requires forall m :: m in s.key && k <= s.key[m] ==> k <= start
    requires d < |start| ==> k[d] != start[d]
    ensures !UnseenSupernet(at.Keys, k)
  {
    forall q | q in at.Keys ensures !(k < q) {
      assert s.CellOk(at[q]);
    }
  }

  lemma SupernetIsUnseen(s: Shape, at: map<Bits, Ptr>, prefix: Netaddr<bv8>, start: Ptr, n: Ptr)
    requires s.Ok() && IndexOk(s, at) && ValidAddr(prefix)
    requires start in s.key && s.CellOk(start) && !s.nodes[start].glue
    requires n in s.key && s.CellOk(n) && Key(prefix) < s.key[n] <= s.key[start]
    requires n == s.head || |s.key[s.nodes[n].parent]| < prefix.bitlen
    ensures UnseenSupernet(at.Keys, Key(prefix))
  {
    assert s.key[start] in at.Keys;
    if Key(prefix) in at {
      assert s.CellOk(at[Key(prefix)]);
      ParentBetween(s, at[Key(prefix)], n);
    }
  }

  lemma SameKeyOrBelow(s: Shape, n: Ptr, m: Ptr)
    requires s.Ok() && n in s.key && m in s.key && s.key[n] <= s.key[m] && n != m
    ensures s.key[n] < s.key[m]
  {
    if |s.key[n]| == |s.key[m]| {
      SameKey(s, n, m);
    }
  }

  lemma GlueIsUnseen(s: Shape, at: map<Bits, Ptr>, prefix: Netaddr<bv8>, start: Ptr, n: Ptr)
    requires s.Ok() && IndexOk(s, at) && ValidAddr(prefix)
    requires start in s.key && s.CellOk(start) && !s.nodes[start].glue
    requires n in s.key && s.CellOk(n) && s.nodes[n].glue && s.key[n] == Key(prefix) <= s.key[start]
    ensures UnseenSupernet(at.Keys, Key(prefix)) && Misses(s.nodes, s.head, prefix)
  {
    SameKeyOrBelow(s, n, start);
    assert s.key[start] in at.Keys;
    if Key(prefix) in at {
      SameKey(s, n, at[Key(prefix)]);
    }
    assert s.CellOk(s.head);
    HeadIsPrefix(s, n);
    var w := WalkTo(s, prefix, s.head, n);
    assert ExactWalk(s.nodes, s.head, prefix, w) && !Hit(s.nodes, prefix, n);
  }

  lemma LiveInBounds(s: Shape)
    requires s.Ok()
    ensures forall n :: n in s.key ==> 0 <= n < |s.nodes|
  {
    forall n | n in s.key ensures 0 <= n < |s.nodes| {
      assert s.CellOk(n);
    }
  }

  lemma Overwritten(s: Shape, s': Shape, at: map<Bits, Ptr>, first: Ptr, free: seq<Ptr>,
                    prefix: Netaddr<bv8>, n: Ptr)
    requires s.Ok() && IndexOk(s, at) && FreeOk(s.nodes, first, free, s.key.Keys)
    requires ValidAddr(prefix) && Key(prefix) in at && n == at[Key(prefix)] && 0 <= n < |s.nodes|
    requires s' == s.(nodes := s.nodes[n := s.nodes[n].(prefix := prefix, glue := false)])
    ensures s'.Ok() && IndexOk(s', at) && FreeOk(s'.nodes, first, free, s'.key.Keys)
    ensures Added(at, s.nodes, at, s'.nodes, prefix, n, PREFIX_ALREADY_PRESENT)
  {
    assert s.CellOk(n);
    forall m | m in s'.key ensures s'.CellOk(m) {
      assert s.CellOk(m);
      OverwrittenCell(s, s', prefix, n, m);
    }
    SameIndex(s, s', at);
    FreeFrame(s.nodes, s'.nodes, {n}, first, free, s.key.Keys);
    StoredInBounds(s, at);
  }

  lemma OverwrittenCell(s: Shape, s': Shape, prefix: Netaddr<bv8>, n: Ptr, m: Ptr)
    requires n in s.key && s.CellOk(n) && m in s.key && s.CellOk(m)
    requires ValidAddr(prefix) && Key(prefix) == s.key[n]
    requires s' == s.(nodes := s.nodes[n := s.nodes[n].(prefix := prefix, glue := false)])
    ensures s'.CellOk(m)
  {
  }

  /** The index only depends on which live cells are glue. */
  lemma SameIndex(s: Shape, s': Shape, at: map<Bits, Ptr>)
    requires s.Ok() && IndexOk(s, at) && s'.Ok() && s'.key == s.key
    requires forall m :: m in s.key && 0 <= m < |s.nodes| ==>
               m < |s'.nodes| && s'.nodes[m].glue == s.nodes[m].glue
    ensures IndexOk(s', at)
  {
    forall m | m in s.key ensures s.CellOk(m) && s'.CellOk(m) {
    }
  }

  lemma StoredInBounds(s: Shape, at: map<Bits, Ptr>)
    requires s.Ok() && IndexOk(s, at)
    ensures forall k :: k in at ==> at[k] in s.key && 0 <= at[k] < |s.nodes|
  {
    forall k | k in at ensures at[k] in s.key && 0 <= at[k] < |s.nodes| {
      assert s.CellOk(at[k]);
    }
  }

  lemma HungLeaf(s: Shape, nodes: seq<PNode>, s': Shape, prefix: Netaddr<bv8>, n: Ptr, bit: bool, leaf: Ptr)
    requires s.Ok() && ValidAddr(prefix) && prefix.bitlen <= s.max
    requires n in s.key && 0 <= n < |s.nodes| && leaf !in s.key && 0 <= leaf < |nodes|
    requires s.key[n] < Key(prefix) && bit == Key(prefix)[|s.key[n]|] && s.nodes[n].Child(bit) == NULL
    requires SameOutside(s.nodes, nodes, {})
    requires s' == Shape(nodes[leaf := Leaf(prefix, n)][n := nodes[n].SetChild(bit, leaf)],
                         s.head, s.max, s.key[leaf := Key(prefix)])
    ensures LeafAdded(s, s', n, bit, leaf, prefix)
    ensures |nodes| == |s'.nodes| && SameOutside(nodes, s'.nodes, {n, leaf})
    ensures forall m :: m in s.key ==> 0 <= m < |s.nodes|
  {
    LiveInBounds(s);
  }

  lemma LeafInserted(s: Shape, at: map<Bits, Ptr>, nodes: seq<PNode>, s': Shape, at': map<Bits, Ptr>,
                     first: Ptr, free: seq<Ptr>, prefix: Netaddr<bv8>, n: Ptr, bit: bool, leaf: Ptr)
    requires s.Ok() && IndexOk(s, at) && ValidAddr(prefix) && prefix.bitlen <= s.max
    requires n in s.key && 0 <= n < |s.nodes| && leaf !in s.key && 0 <= leaf < |nodes|
    requires s.key[n] < Key(prefix) && bit == Key(prefix)[|s.key[n]|] && s.nodes[n].Child(bit) == NULL
    requires SameOutside(s.nodes, nodes, {}) && FreeOk(nodes, first, free, s.key.Keys + {leaf})
    requires s' == Shape(nodes[leaf := Leaf(prefix, n)][n := nodes[n].SetChild(bit, leaf)],
                         s.head, s.max, s.key[leaf := Key(prefix)])
    requires at' == at[Key(prefix) := leaf]
    ensures s'.Ok() && IndexOk(s', at') && FreeOk(s'.nodes, first, free, s'.key.Keys)
    ensures Added(at, s.nodes, at', s'.nodes, prefix, leaf, PREFIX_INSERTED)
  {
    HungLeaf(s, nodes, s', prefix, n, bit, leaf);
    AddLeaf(s, s', n, bit, leaf, prefix);
    assert s.key.Keys + {leaf} == s'.key.Keys;
    GrownBy(s, at, nodes, s', at', first, free, prefix, leaf, {n, leaf});
  }

  lemma SpliceInserted(s: Shape, at: map<Bits, Ptr>, nodes: seq<PNode>, s': Shape, at': map<Bits, Ptr>,
                       first: Ptr, free: seq<Ptr>, prefix: Netaddr<bv8>, n: Ptr, d: nat, glue: Ptr, leaf: Ptr)
    requires s.Ok() && IndexOk(s, at) && n in s.key && s.CellOk(n) && Spliced(s, s', n, d, glue, leaf, prefix)
    requires |nodes| == |s'.nodes| && SameOutside(nodes, s'.nodes, {n, s.nodes[n].parent, glue, leaf})
    requires FreeOk(nodes, first, free, s.key.Keys + {leaf} + {glue})
    requires at' == at[Key(prefix) := leaf]
    ensures s'.Ok() && IndexOk(s', at') && FreeOk(s'.nodes, first, free, s'.key.Keys)
    ensures Added(at, s.nodes, at', s'.nodes, prefix, leaf, PREFIX_INSERTED)
  {
    hide IndexOk, FreeOk, Added;
    SpliceGlue(s, s', n, d, glue, leaf, prefix);
    var changed := if n == s.head then {n, glue, leaf} else {n, s.nodes[n].parent, glue, leaf};
    assert SameOutside(nodes, s'.nodes, changed);
    assert s'.key.Keys == s.key.Keys + {leaf} + {glue};
    GrownBy(s, at, nodes, s', at', first, free, prefix, leaf, changed);
  }

  /** A well formed trie that only gained a real cell for `prefix` and glue. */
  lemma GrownBy(s: Shape, at: map<Bits, Ptr>, nodes: seq<PNode>, s': Shape, at': map<Bits, Ptr>,
                first: Ptr, free: seq<Ptr>, prefix: Netaddr<bv8>, leaf: Ptr, changed: set<Ptr>)
    requires s.Ok() && IndexOk(s, at) && s'.Ok() && ValidAddr(prefix)
    requires |s.nodes| <= |s'.nodes| == |nodes| && SameOutside(nodes, s'.nodes, changed)
    requires changed <= s'.key.Keys && FreeOk(nodes, first, free, s'.key.Keys)
    requires leaf in s'.key && leaf !in s.key && s'.key[leaf] == Key(prefix)
    requires 0 <= leaf < |s'.nodes| && s'.nodes[leaf].prefix == prefix
    requires s'.nodes[leaf].payload == 0 && !s'.nodes[leaf].glue
    requires forall m :: m in s.key && 0 <= m < |s.nodes| ==>
               && m in s'.key && s'.key[m] == s.key[m]
               && s'.nodes[m].glue == s.nodes[m].glue && s'.nodes[m].payload == s.nodes[m].payload
    requires forall m :: m in s'.key && m !in s.key && m != leaf ==> 0 <= m < |s'.nodes| && s'.nodes[m].glue
    requires at' == at[Key(prefix) := leaf]
    ensures IndexOk(s', at') && FreeOk(s'.nodes, first, free, s'.key.Keys)
    ensures Added(at, s.nodes, at', s'.nodes, prefix, leaf, PREFIX_INSERTED)
  {
    LiveInBounds(s);
    assert s'.CellOk(leaf);
    IndexGrown(s, s', at, leaf);
    FreeFrame(nodes, s'.nodes, changed, first, free, s'.key.Keys);
    AddedCell(s, at, s', at', prefix, leaf);
  }

  lemma SpliceParent(s: Shape, n: Ptr)
    requires s.Ok() && n in s.key && s.CellOk(n)
    ensures s.nodes[n].parent != n && (s.nodes[n].parent == NULL || s.nodes[n].parent in s.key)
  {
  }

  lemma SpliceDone(s: Shape, at: map<Bits, Ptr>, nodes: seq<PNode>, s': Shape, at': map<Bits, Ptr>,
                   first: Ptr, free: seq<Ptr>, prefix: Netaddr<bv8>, n: Ptr, d: nat, glue: Ptr, leaf: Ptr)
    requires s.Ok() && IndexOk(s, at) && SameOutside(s.nodes, nodes, {})
    requires ValidAddr(prefix) && d <= prefix.bitlen <= s.max
    requires n in s.key && s.CellOk(n) && d < |s.key[n]| && Key(prefix)[..d] == s.key[n][..d]
    requires d < prefix.bitlen ==> Key(prefix)[d] != s.key[n][d]
    requires n == s.head || |s.key[s.nodes[n].parent]| < d
    requires glue !in s.key && leaf !in s.key && CanSplice(nodes, n, glue, leaf)
    requires FreeOk(nodes, first, free, s.key.Keys + {leaf} + {glue})
    requires s'.nodes == SplicedNodes(nodes, n, d, SpliceBit(prefix, d, s.max), glue, leaf, prefix)
    requires s'.head == (if s.nodes[n].parent == NULL then glue else s.head) && s'.max == s.max
    requires s'.key == s.key[glue := Key(prefix)[..d]][leaf := Key(prefix)]
    requires at' == at[Key(prefix) := leaf]
    ensures d < prefix.bitlen ==>
              && s'.Ok() && IndexOk(s', at') && FreeOk(s'.nodes, first, free, s'.key.Keys)
              && Added(at, s.nodes, at', s'.nodes, prefix, leaf, PREFIX_INSERTED)
    ensures d == prefix.bitlen ==> Misses(s'.nodes, s'.head, prefix)
  {
    var bit := SpliceBit(prefix, d, s.max);
    SplicedNodesAre(s, nodes, s', n, d, bit, glue, leaf, prefix);
    if d < prefix.bitlen {
      assert bit == Key(prefix)[d];
      assert Spliced(s, s', n, d, glue, leaf, prefix);
      SpliceInserted(s, at, nodes, s', at', first, free, prefix, n, d, glue, leaf);
    } else {
      assert Key(prefix)[..d] == Key(prefix);
      SpliceMisses(s, s', prefix, n, bit, glue, leaf);
    }
  }

  function GlueCell(bitlen: nat, parent: Ptr): PNode {
    PNode(Netaddr(AF_UNSPEC, bitlen, []), 0, parent, true, NULL, NULL, NULL)
  }

  predicate SpliceBit(prefix: Netaddr<bv8>, d: nat, max: nat)
    requires |prefix.bytes| == 16 && max <= 128
  {
    d < max && BitAt(prefix.bytes, d)
  }

  ghost predicate CanSplice(nodes: seq<PNode>, n: Ptr, glue: Ptr, leaf: Ptr) {
    && 0 <= n < |nodes| && 0 <= glue < |nodes| && 0 <= leaf < |nodes|
    && n != glue && n != leaf && glue != leaf
    && var p := nodes[n].parent;
       p == NULL || (0 <= p < |nodes| && p != glue && p != leaf && p != n)
  }

  lemma FreshCellsCanSplice(nodes: seq<PNode>, live: set<Ptr>, n: Ptr, glue: Ptr, leaf: Ptr)
    requires forall m :: m in live ==> 0 <= m < |nodes|
    requires n in live && nodes[n].parent != n && (nodes[n].parent == NULL || nodes[n].parent in live)
    requires leaf !in live && glue !in live + {leaf} && 0 <= leaf < |nodes| && 0 <= glue < |nodes|
    ensures CanSplice(nodes, n, glue, leaf)
  {
  }

  ghost function SplicedNodes(nodes: seq<PNode>, n: Ptr, d: nat, bit: bool, glue: Ptr, leaf: Ptr,
                              prefix: Netaddr<bv8>): seq<PNode>
    requires CanSplice(nodes, n, glue, leaf)
  {
    var a := nodes[leaf := Leaf(prefix, NULL)];
    var b := a[glue := GlueCell(d, a[n].parent)];
    var c := b[glue := b[glue].SetChild(bit, leaf)];
    var d := c[glue := c[glue].SetChild(!bit, n)];
    var e := d[leaf := d[leaf].(parent := glue)];
    var p := e[n].parent;
    var f := if 0 <= p < |e| then e[p := e[p].SetChild(e[p].right == n, glue)] else e;
    f[n := f[n].(parent := glue)]
  }

  lemma SplicedNodesAre(s: Shape, nodes: seq<PNode>, s': Shape, n: Ptr, d: nat, bit: bool, g: Ptr, c: Ptr,
                        prefix: Netaddr<bv8>)
    requires n in s.key && s.CellOk(n) && SameOutside(s.nodes, nodes, {})
    requires g !in s.key && c !in s.key && CanSplice(nodes, n, g, c)
    requires n != s.head ==> |s.key[s.nodes[n].parent]| < d
    requires s'.nodes == SplicedNodes(nodes, n, d, bit, g, c, prefix) && s'.max == s.max
    requires s'.head == if n == s.head then g else s.head
    ensures SplicedMemory(s, s', n, d, bit, g, c, prefix)
    ensures |nodes| == |s'.nodes| && SameOutside(nodes, s'.nodes, {n, s.nodes[n].parent, g, c})
  {
  }

  /** A new cell for a new prefix, everything stored left in place. */
  lemma AddedCell(s: Shape, at: map<Bits, Ptr>, s': Shape, at': map<Bits, Ptr>, prefix: Netaddr<bv8>, leaf: Ptr)
    requires s.Ok() && IndexOk(s, at) && ValidAddr(prefix) && Key(prefix) !in at
    requires at' == at[Key(prefix) := leaf]
    requires 0 <= leaf < |s'.nodes| && s'.nodes[leaf].prefix == prefix && s'.nodes[leaf].payload == 0
    requires |s.nodes| <= |s'.nodes|
    requires forall m :: m in s.key && 0 <= m < |s.nodes| ==> s'.nodes[m].payload == s.nodes[m].payload
    ensures Added(at, s.nodes, at', s'.nodes, prefix, leaf, PREFIX_INSERTED)
  {
    forall q | q in at ensures at[q] in s.key && 0 <= at[q] < |s.nodes| {
      assert s.CellOk(at[q]);
    }
  }

  /** A step of a search goes on after the splice, or ends in the glue. */
  lemma SplicedStep(s: Shape, s': Shape, prefix: Netaddr<bv8>, n: Ptr, bit: bool, glue: Ptr, leaf: Ptr, x: Ptr, y: Ptr)
    requires s.Ok() && ValidAddr(prefix) && n in s.key && s.CellOk(n)
    requires Key(prefix) < s.key[n] && (n == s.head || |s.key[s.nodes[n].parent]| < prefix.bitlen)
    requires SplicedMemory(s, s', n, prefix.bitlen, bit, glue, leaf, prefix)
    requires x in s.key && s.CellOk(x) && x != n && Step(s.nodes, prefix, x, y) && (x == s.nodes[n].parent ==> y == n)
    ensures Step(s'.nodes, prefix, x, if y == n then glue else y)
  {
    LiveInBounds(s);
    if x == s.nodes[n].parent {
      assert BitAt(prefix.bytes, |s.key[x]|) == Key(prefix)[|s.key[x]|] == s.key[n][|s.key[x]|];
    }
  }

  /** Splicing at the end of the prefix puts a glue cell of its own length in
      front of it: the search stops there. */
  lemma SpliceMisses(s: Shape, s': Shape, prefix: Netaddr<bv8>, n: Ptr, bit: bool, glue: Ptr, leaf: Ptr)
    requires s.Ok() && ValidAddr(prefix) && n in s.key && s.CellOk(n)
    requires Key(prefix) < s.key[n] && (n == s.head || |s.key[s.nodes[n].parent]| < prefix.bitlen)
    requires SplicedMemory(s, s', n, prefix.bitlen, bit, glue, leaf, prefix)
    ensures Misses(s'.nodes, s'.head, prefix)
  {
    assert s.CellOk(s.head);
    HeadIsPrefix(s, n);
    var w := WalkTo(s, prefix, s.head, n);
    var w' := w[..|w| - 1] + [glue];
    var p := s.nodes[n].parent;
    LiveInBounds(s);
    forall i | 0 <= i < |w'| - 1 ensures Step(s'.nodes, prefix, w'[i], w'[i + 1]) {
      assert Step(s.nodes, prefix, w[i], w[i + 1]) && s.CellOk(w[i]) && w[i] != n;
      if w[i] == p {
        WalkStops(s.nodes, s.head, prefix, w, i + 1);
      }
      SplicedStep(s, s', prefix, n, bit, glue, leaf, w[i], w[i + 1]);
    }
    assert |w| > 1 ==> Step(s.nodes, prefix, w[0], w[1]);
    assert w'[0] == s'.head && w'[|w'| - 1] == glue;
    assert ExactWalk(s'.nodes, s'.head, prefix, w') && !Hit(s'.nodes, prefix, glue);
  }

  /** What inserting a prefix promises, in terms of the index before and after. */
  ghost predicate Added(at0: map<Bits, Ptr>, nodes0: seq<PNode>, at1: map<Bits, Ptr>, nodes1: seq<PNode>,
                        prefix: Netaddr<bv8>, r: Ptr, inserted: InsertResult)
    requires ValidAddr(prefix)
  {
    var k := Key(prefix);
    && at1.Keys == at0.Keys + {k} && at1[k] == r
    && 0 <= r < |nodes1| && nodes1[r].prefix == prefix
    && (inserted == PREFIX_INSERTED <==> k !in at0)
    && (k !in at0 ==> nodes1[r].payload == 0)
    && (forall q :: q in at0 ==>
          && at1[q] == at0[q] && 0 <= at0[q] < |nodes0| && at0[q] < |nodes1|
          && nodes1[at0[q]].payload == nodes0[at0[q]].payload)
  }

  /** What removing a prefix promises. */
  ghost predicate Removed(at0: map<Bits, Ptr>, nodes0: seq<PNode>, at1: map<Bits, Ptr>, nodes1: seq<PNode>, k: Bits) {
    && at1 == at0 - {k}
    && (forall q :: q in at1 ==>
          && 0 <= at1[q] < |nodes0| == |nodes1|
          && nodes1[at1[q]].payload == nodes0[at1[q]].payload
          && nodes1[at1[q]].prefix == nodes0[at1[q]].prefix)
  }

  /** The cells around n are there to be rewired. */
  ghost predicate CanUnlink(nodes: seq<PNode>, live: set<Ptr>, n: Ptr) {
    && n in live && (forall m :: m in live ==> 0 <= m < |nodes|)
    && var p := nodes[n].parent;
       p == NULL || (p in live && p != n && nodes[p].Child(nodes[p].right == n) == n)
  }

  ghost predicate CanCollapse(nodes: seq<PNode>, live: set<Ptr>, n: Ptr, p: Ptr) {
    && CanUnlink(nodes, live, p)
    && (nodes[p].glue ==>
          var c := nodes[p].Child(nodes[p].right != n);
          c in live && c != n && c != p && c != nodes[p].parent && nodes[p].parent != n)
  }

  /** The memory after a leaf was unlinked. */
  ghost predicate LeafUnlinked(nodes: seq<PNode>, nodes': seq<PNode>, head: Ptr, head': Ptr, n: Ptr, gone: set<Ptr>)
    requires 0 <= n < |nodes|
  {
    var p := nodes[n].parent;
    && |nodes'| == |nodes|
    && if p == NULL then
         head' == NULL && gone == {n} && SameOutside(nodes, nodes', {n})
       else
         && 0 <= p < |nodes|
         && var side := nodes[p].right == n;
         if !nodes[p].glue then
           && head' == head && gone == {n} && SameOutside(nodes, nodes', {n, p})
           && nodes'[p] == nodes[p].SetChild(side, NULL)
         else
           Relinked(nodes, nodes', head, head', p, nodes[p].Child(!side), {n, p}) && gone == {n, p}
  }

  /** x is cut out and its child c linked in its place. */
  ghost predicate Relinked(nodes: seq<PNode>, nodes': seq<PNode>, head: Ptr, head': Ptr, x: Ptr, c: Ptr, gone: set<Ptr>)
    requires 0 <= x < |nodes|
  {
    var p := nodes[x].parent;
    && 0 <= c < |nodes| == |nodes'| && SameOutside(nodes, nodes', gone + {c, p})
    && nodes'[c] == nodes[c].(parent := p)
    && (if p == NULL then head' == c
        else head' == head && 0 <= p < |nodes| && nodes'[p] == nodes[p].SetChild(nodes[p].right == x, c))
  }

  lemma LeafCanGo(s: Shape, n: Ptr)
    requires s.Ok() && n in s.key && s.CellOk(n)
    ensures CanUnlink(s.nodes, s.key.Keys, n)
    ensures s.nodes[n].parent != NULL ==> CanCollapse(s.nodes, s.key.Keys, n, s.nodes[n].parent)
  {
    LiveInBounds(s);
    ParentInfo(s, n);
    if n != s.head {
      var p := s.nodes[n].parent;
      ParentInfo(s, p);
      var c := s.nodes[p].Child(s.nodes[p].right != n);
      assert c != NULL ==> s.CellOk(c) && s.key[p] < s.key[c];
    }
  }

  lemma LeafGone(s: Shape, at: map<Bits, Ptr>, s': Shape, at': map<Bits, Ptr>, n: Ptr, gone: set<Ptr>)
    requires s.Ok() && IndexOk(s, at) && n in s.key && s.CellOk(n) && !s.nodes[n].glue
    requires s.nodes[n].left == NULL && s.nodes[n].right == NULL
    requires LeafUnlinked(s.nodes, s'.nodes, s.head, s'.head, n, gone)
    requires s'.key == s.key - gone && s'.max == s.max && at' == at - {s.key[n]}
    ensures s'.Ok() && IndexOk(s', at') && Removed(at, s.nodes, at', s'.nodes, s.key[n])
    ensures s'.key.Keys == s.key.Keys - gone
  {
    LiveInBounds(s);
    ParentInfo(s, n);
    var p := s.nodes[n].parent;
    if n == s.head {
      LastDropped(s, s', n);
    } else if !s.nodes[p].glue {
      DropLeaf(s, s', n);
    } else {
      GlueGone(s, s', n);
    }
    LeafRemoved(s, at, s', at', n);
  }

  lemma GlueGone(s: Shape, s': Shape, n: Ptr)
    requires s.Ok() && n in s.key && s.CellOk(n) && n != s.head && s.CellOk(s.nodes[n].parent)
    requires s.nodes[n].left == NULL && s.nodes[n].right == NULL && s.nodes[s.nodes[n].parent].glue
    requires var p := s.nodes[n].parent;
             Relinked(s.nodes, s'.nodes, s.head, s'.head, p, s.nodes[p].Child(s.nodes[p].right != n), {n, p})
             && s'.key == s.key - {n, p} && s'.max == s.max
    ensures s'.Ok() && KeepsContents(s, s')
  {
    var p := s.nodes[n].parent;
    var c := s.nodes[p].Child(s.nodes[p].right != n);
    assert s.CellOk(c);
    RelinkedIsCutOut(s, s', p, c, {n, p});
    CutOutOk(s, s', p, c, {n, p});
  }

  lemma RelinkedIsCutOut(s: Shape, s': Shape, x: Ptr, c: Ptr, gone: set<Ptr>)
    requires s.Ok() && x in s.key && s.CellOk(x) && c in s.key && s.CellOk(c) && s.nodes[c].parent == x
    requires Relinked(s.nodes, s'.nodes, s.head, s'.head, x, c, gone)
    requires x in gone && c !in gone && gone <= s.key.Keys
    requires s.nodes[x].left in gone + {c, NULL} && s.nodes[x].right in gone + {c, NULL}
    requires forall m :: m in gone && m != x && 0 <= m < |s.nodes| ==>
               s.nodes[m].parent == x && s.nodes[m].left == NULL && s.nodes[m].right == NULL
    requires s'.key == s.key - gone && s'.max == s.max
    ensures CutOut(s, s', x, c, gone) && KeepsContents(s, s')
  {
    ParentInfo(s, x);
  }

  lemma OnlyChild(s: Shape, n: Ptr)
    requires s.Ok() && n in s.key && s.CellOk(n) && (s.nodes[n].left == NULL <==> s.nodes[n].right != NULL)
    ensures var c := s.nodes[n].Child(s.nodes[n].right != NULL);
            c in s.key && s.CellOk(c) && s.nodes[c].parent == n && c != n && c != s.nodes[n].parent
  {
    var c := s.nodes[n].Child(s.nodes[n].right != NULL);
    assert s.CellOk(c);
  }

  lemma LinkGone(s: Shape, at: map<Bits, Ptr>, s': Shape, at': map<Bits, Ptr>, n: Ptr)
    requires s.Ok() && IndexOk(s, at) && n in s.key && s.CellOk(n) && !s.nodes[n].glue
    requires s.nodes[n].left == NULL <==> s.nodes[n].right != NULL
    requires Relinked(s.nodes, s'.nodes, s.head, s'.head, n, s.nodes[n].Child(s.nodes[n].right != NULL), {n})
    requires s'.key == s.key - {n} && s'.max == s.max && at' == at - {s.key[n]}
    ensures s'.Ok() && IndexOk(s', at') && Removed(at, s.nodes, at', s'.nodes, s.key[n])
    ensures s'.key.Keys == s.key.Keys - {n}
  {
    hide Relinked, CutOut, IndexOk, Removed;
    LiveInBounds(s);
    ParentInfo(s, n);
    OnlyChild(s, n);
    var c := s.nodes[n].Child(s.nodes[n].right != NULL);
    RelinkedIsCutOut(s, s', n, c, {n});
    CutOutOk(s, s', n, c, {n});
    LeafRemoved(s, at, s', at', n);
  }

  lemma ParentInfo(s: Shape, n: Ptr)
    requires s.Ok() && n in s.key && s.CellOk(n)
    ensures var p := s.nodes[n].parent;
            if n == s.head then p == NULL
            else p in s.key && s.CellOk(p) && p != n && s.nodes[p].Child(s.nodes[p].right == n) == n
  {
    if n != s.head {
      assert s.CellOk(s.nodes[n].parent);
    }
  }

  lemma LastDropped(s: Shape, s': Shape, n: Ptr)
    requires s.Ok() && n == s.head && n in s.key && s.CellOk(n)
    requires s.nodes[n].left == NULL && s.nodes[n].right == NULL
    requires s'.key == s.key - {n} && s'.head == NULL && s'.max == s.max
    ensures s'.Ok()
  {
    LiveInBounds(s);
    forall m | m in s.key ensures m == n {
      HeadIsPrefix(s, m);
      assert s.CellOk(m);
      if s.key[n] < s.key[m] {
        Descend(s, n, m);
      } else {
        SameKey(s, n, m);
      }
    }
  }

  /** Cells live in s' hold what they held in s. */
  ghost predicate KeepsContents(s: Shape, s': Shape) {
    && |s.nodes| == |s'.nodes|
    && forall m :: m in s'.key && 0 <= m < |s.nodes| ==>
         && m in s.key && s'.key[m] == s.key[m] && s'.nodes[m].glue == s.nodes[m].glue
         && s'.nodes[m].payload == s.nodes[m].payload && s'.nodes[m].prefix == s.nodes[m].prefix
  }

  lemma LeafRemoved(s: Shape, at: map<Bits, Ptr>, s': Shape, at': map<Bits, Ptr>, n: Ptr)
    requires s.Ok() && IndexOk(s, at) && s'.Ok()
    requires n in s.key && s.CellOk(n) && !s.nodes[n].glue && n !in s'.key
    requires KeepsContents(s, s')
    requires forall m :: m in s.key && m !in s'.key && m != n ==> 0 <= m < |s.nodes| && s.nodes[m].glue
    requires at' == at - {s.key[n]}
    ensures IndexOk(s', at') && Removed(at, s.nodes, at', s'.nodes, s.key[n])
  {
    LiveInBounds(s');
    IndexShrunk(s, s', at, n);
    StoredInBounds(s', at');
  }

  lemma AbsentRemoved(s: Shape, at: map<Bits, Ptr>, first: Ptr, free: seq<Ptr>, k: Bits)
    requires StateOk(s, at, first, free) && k !in at
    ensures Removed(at, s.nodes, at, s.nodes, k) && !Fork(at.Keys, k)
    ensures WellFormedMemory(s.nodes, s.head, s.max, first)
  {
    NothingRemoved(s, at, k);
    StateIsWellFormed(s, at, first, free);
  }

  lemma NothingRemoved(s: Shape, at: map<Bits, Ptr>, k: Bits)
    requires s.Ok() && IndexOk(s, at) && k !in at
    ensures Removed(at, s.nodes, at, s.nodes, k)
  {
    StoredInBounds(s, at);
    assert at - {k} == at;
  }

  lemma FoundCell(s: Shape, at: map<Bits, Ptr>, n: Ptr)
    requires s.Ok() && IndexOk(s, at) && exists k :: k in at && at[k] == n
    ensures n in s.key && s.CellOk(n) && !s.nodes[n].glue && s.key[n] in at && at[s.key[n]] == n
    ensures Fork(at.Keys, s.key[n]) <==> s.nodes[n].left != NULL && s.nodes[n].right != NULL
  {
    assert s.CellOk(n);
    ForkIsTwoChildren(s, at, n);
  }

  lemma NothingStored(s: Shape, at: map<Bits, Ptr>)
    requires s.Ok() && IndexOk(s, at)
    ensures s.head == NULL ==> at == map[]
  {
    if s.head == NULL { EmptyIndex(s, at); }
  }

  lemma ExactStep(s: Shape, at: map<Bits, Ptr>, prefix: Netaddr<bv8>, n: Ptr)
    requires s.Ok() && IndexOk(s, at) && ValidAddr(prefix) && n in s.key && s.CellOk(n)
    requires |s.key[n]| < prefix.bitlen && (Key(prefix) in at ==> s.key[n] <= Key(prefix))
    ensures var c := s.nodes[n].Child(BitAt(prefix.bytes, |s.key[n]|));
            && (c != NULL ==> c in s.key && |s.key[n]| < |s.key[c]|)
            && (Key(prefix) in at ==> c != NULL && s.key[c] <= Key(prefix))
  {
    if Key(prefix) in at {
      assert s.CellOk(at[Key(prefix)]);
      Descend(s, n, at[Key(prefix)]);
      assert s.CellOk(s.nodes[n].Child(Key(prefix)[|s.key[n]|]));
    }
  }

  lemma ExactEnd(s: Shape, at: map<Bits, Ptr>, prefix: Netaddr<bv8>, n: Ptr)
    requires s.Ok() && IndexOk(s, at) && ValidAddr(prefix) && n in s.key && s.CellOk(n)
    requires |s.key[n]| >= prefix.bitlen && (Key(prefix) in at ==> s.key[n] <= Key(prefix))
    ensures Key(prefix) in at ==> at[Key(prefix)] == n
    ensures |s.key[n]| == prefix.bitlen && !s.nodes[n].glue ==>
              (CompWithMask(s.nodes[n].prefix.bytes, prefix.bytes, prefix.bitlen) <==> Key(prefix) in at)
    ensures Key(prefix) in at ==> |s.key[n]| == prefix.bitlen && !s.nodes[n].glue
  {
    if Key(prefix) in at {
      assert s.CellOk(at[Key(prefix)]);
      SameKey(s, n, at[Key(prefix)]);
    }
    if !s.nodes[n].glue {
      CompWithMaskIsPrefixEquality(s.nodes[n].prefix.bytes, prefix.bytes, prefix.bitlen);
    }
  }

  lemma EmptyIndex(s: Shape, at: map<Bits, Ptr>)
    requires s.Ok() && IndexOk(s, at) && s.head == NULL
    ensures at == map[] && s.key == map[]
  {
    assert forall k :: k !in at;
  }

  ghost function CellsFrom(lo: nat, hi: nat): (s: set<Ptr>)
    ensures forall n :: n in s <==> lo <= n < hi
    decreases hi - lo
  {
    if lo < hi then {lo} + CellsFrom(lo + 1, hi) else {}
  }

  lemma NothingChanged(before: seq<PNode>, after: seq<PNode>)
    requires before <= after
    ensures SameOutside(before, after, {})
  {
  }

  lemma StillTheSame(first: seq<PNode>, before: seq<PNode>, after: seq<PNode>, n: Ptr)
    requires SameOutside(first, before, {}) && SameOutside(before, after, {n}) && |first| <= n && |before| == |after|
    ensures SameOutside(first, after, {})
  {
  }

  lemma NextCell(live: set<Ptr>, lo: nat, hi: nat)
    requires lo < hi && lo !in live
    ensures lo in live + CellsFrom(lo, hi)
    ensures live + CellsFrom(lo, hi) - {lo} == live + CellsFrom(lo + 1, hi)
  {
    assert CellsFrom(lo, hi) == {lo} + CellsFrom(lo + 1, hi);
  }

  lemma NoMoreCells(live: set<Ptr>, n: nat)
    ensures live + CellsFrom(n, n) == live
  {
  }

  lemma PageAdded(before: seq<PNode>, after: seq<PNode>, first: Ptr, free: seq<Ptr>, live: set<Ptr>)
    requires FreeOk(before, first, free, live) && SameOutside(before, after, {})
    requires forall n :: n in live ==> 0 <= n < |before|
    ensures FreeOk(after, first, free, live + CellsFrom(|before|, |after|))
  {
  }

  lemma FreePushed(before: seq<PNode>, after: seq<PNode>, free: seq<Ptr>, n: Ptr, live: set<Ptr>)
    requires FreeOk(before, CellAt(free, 0), free, live)
    requires 0 <= n < |before| == |after| && SameOutside(before, after, {n}) && n in live
    requires after[n].next == CellAt(free, 0)
    ensures FreeOk(after, n, [n] + free, live - {n})
  {
    var free' := [n] + free;
    forall i | 0 <= i < |free'|
      ensures 0 <= free'[i] < |after| && free'[i] !in live - {n}
      ensures after[free'[i]].next == CellAt(free', i + 1)
    {
      assert CellAt(free', i + 1) == CellAt(free, i);
      if i > 0 {
        assert free'[i] == free[i - 1];
      }
    }
    assert forall m :: m in free ==> m in free';
  }

  lemma FreePopped(nodes: seq<PNode>, free: seq<Ptr>, live: set<Ptr>)
    requires free != [] && FreeOk(nodes, free[0], free, live)
    ensures FreeOk(nodes, nodes[free[0]].next, free[1..], live + {free[0]})
  {
    var free' := free[1..];
    forall i | 0 <= i < |free'|
      ensures 0 <= free'[i] < |nodes| && free'[i] !in live + {free[0]}
      ensures nodes[free'[i]].next == CellAt(free', i + 1)
    {
      assert free'[i] == free[i + 1];
      assert CellAt(free', i + 1) == CellAt(free, i + 2);
    }
    forall n | 0 <= n < |nodes| ensures n in live + {free[0]} || n in free' {
      if n in free && n != free[0] {
        var i :| 0 <= i < |free| && free[i] == n;
        assert free'[i - 1] == n;
      }
    }
  }
}
