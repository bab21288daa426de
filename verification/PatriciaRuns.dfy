/** Whole runs of insertions and removals on one trie. */
module PatriciaRuns {
  import opened Netaddr
  import opened PatriciaShape
  import opened PatriciaTrie

  datatype Op = Insert(prefix: Netaddr<bv8>) | Remove(prefix: Netaddr<bv8>)

  ghost predicate ValidOps(ops: seq<Op>, max: nat) {
    forall i :: 0 <= i < |ops| ==> ValidAddr(ops[i].prefix) && ops[i].prefix.bitlen <= max
  }

  ghost function Apply(before: set<Bits>, op: Op): set<Bits>
    requires ValidAddr(op.prefix)
  {
    if op.Insert? then before + {Key(op.prefix)} else before - {Key(op.prefix)}
  }

  /** Not the insertion of an unseen supernet, nor the removal of a forked prefix. */
  ghost predicate Allowed(before: set<Bits>, op: Op)
    requires ValidAddr(op.prefix)
  {
    if op.Insert? then !UnseenSupernet(before, Key(op.prefix)) else !Fork(before, Key(op.prefix))
  }

  /** The set the operations describe. */
  ghost function SetAfter(ops: seq<Op>): set<Bits>
    requires ValidOps(ops, 128)
  {
    if ops == [] then {} else Apply(SetAfter(ops[..|ops| - 1]), ops[|ops| - 1])
  }

  ghost predicate InDomain(ops: seq<Op>)
    requires ValidOps(ops, 128)
  {
    ops == [] || (InDomain(ops[..|ops| - 1]) && Allowed(SetAfter(ops[..|ops| - 1]), ops[|ops| - 1]))
  }

  lemma {:induction false} InDomainPrefix(ops: seq<Op>, n: nat)
    requires ValidOps(ops, 128) && InDomain(ops) && n <= |ops|
    ensures InDomain(ops[..n])
  {
    if n < |ops| {
      var front := ops[..|ops| - 1];
      InDomainPrefix(front, n);
      assert front[..n] == ops[..n];
    } else {
      assert ops[..n] == ops;
    }
  }

  lemma NextOp(ops: seq<Op>, i: nat)
    requires ValidOps(ops, 128) && InDomain(ops) && i < |ops|
    ensures Allowed(SetAfter(ops[..i]), ops[i])
    ensures SetAfter(ops[..i + 1]) == Apply(SetAfter(ops[..i]), ops[i])
  {
    InDomainPrefix(ops, i + 1);
    assert ops[..i + 1][..i] == ops[..i];
  }

  /** One allowed operation keeps the trie well formed and changes its set as said. */
  method Step(pt: Trie, op: Op)
    requires pt.Valid() && ValidAddr(op.prefix) && op.prefix.bitlen <= pt.maxbitlen
    requires Allowed(pt.Stored(), op)
    modifies pt
    ensures pt.Valid() && pt.maxbitlen == old(pt.maxbitlen)
    ensures pt.Stored() == Apply(old(pt.Stored()), op)
  {
    if op.Insert? {
      var r, inserted := pt.InsertN(op.prefix);
    } else {
      var payload := pt.RemoveN(op.prefix);
    }
  }

  /** After any such run the trie is well formed and holds exactly that set. */
  method Replay(family: Family, ops: seq<Op>) returns (pt: Trie)
    requires ValidOps(ops, if family == AF_INET6 then 128 else 32) && InDomain(ops)
    ensures pt.Valid() && pt.Stored() == SetAfter(ops)
  {
    pt := new Trie(family);
    var i := 0;
    while i < |ops|
      invariant 0 <= i <= |ops| && fresh(pt)
      invariant pt.Valid() && pt.maxbitlen == if family == AF_INET6 then 128 else 32
      invariant pt.Stored() == SetAfter(ops[..i])
    {
      NextOp(ops, i);
      Step(pt, ops[i]);
      i := i + 1;
    }
    assert ops[..i] == ops;
  }

  /** A search after the run finds the prefix exactly when the set has it. */
  method ReplayAndSearch(family: Family, ops: seq<Op>, prefix: Netaddr<bv8>) returns (found: bool)
    requires ValidOps(ops, if family == AF_INET6 then 128 else 32) && InDomain(ops) && ValidAddr(prefix)
    ensures found <==> Key(prefix) in SetAfter(ops)
  {
    var pt := Replay(family, ops);
    var r := pt.SearchExactN(prefix);
    found := r != NULL;
    StoredInBounds(pt.Live(), pt.at);
  }

  // ---- The two branches that fail ----------------------------------------

  /** Any prefix inserted into a trie that holds a longer one within it, and
      nothing else, cannot be found. */
  method InsertSupernet(family: Family, subnet: Netaddr<bv8>, prefix: Netaddr<bv8>) returns (pt: Trie)
    requires ValidAddr(subnet) && subnet.bitlen <= (if family == AF_INET6 then 128 else 32)
    requires ValidAddr(prefix) && Key(prefix) < Key(subnet)
    ensures Misses(pt.nodes, pt.head, prefix)
  {
    pt := new Trie(family);
    var r, inserted := pt.InsertN(subnet);
    assert Key(subnet) in pt.Stored();
    r, inserted := pt.InsertN(prefix);
  }

  /** Any prefix removed from a trie that holds one on each side below it leaves
      no well formed trie behind. */
  method RemoveForked(family: Family, prefix: Netaddr<bv8>, low: Netaddr<bv8>, high: Netaddr<bv8>) returns (pt: Trie)
    requires ValidAddr(prefix) && ValidAddr(low) && ValidAddr(high)
    requires low.bitlen <= (if family == AF_INET6 then 128 else 32)
    requires high.bitlen <= (if family == AF_INET6 then 128 else 32)
    requires Under(Key(prefix), false, Key(low)) && Under(Key(prefix), true, Key(high))
    ensures !WellFormedMemory(pt.nodes, pt.head, pt.maxbitlen, pt.freenodes)
  {
    hide WellFormedMemory, StateOk, Removed, UnseenSupernet;
    ghost var k, l, h := Key(prefix), Key(low), Key(high);
    SidesApart(k, l, h);
    pt := new Trie(family);
    Step(pt, Insert(prefix));
    assert pt.Stored() == {k};
    Step(pt, Insert(low));
    assert pt.Stored() == {k, l};
    Step(pt, Insert(high));
    assert pt.Stored() == {k, l, h};
    var payload := pt.RemoveN(prefix);
  }

  lemma SidesApart(k: Bits, l: Bits, h: Bits)
    requires Under(k, false, l) && Under(k, true, h)
    ensures !UnseenSupernet({}, k) && !UnseenSupernet({k}, l) && !UnseenSupernet({k, l}, h)
    ensures Fork({k, l, h}, k)
  {
    assert !(h < l) && !(h < k) && !(l < k);
  }

  /** An IPv4 prefix of so many bits, the first octet and the second given. */
  function Ipv4(bitlen: nat, first: bv8, second: bv8): (a: Netaddr<bv8>)
    requires bitlen <= 32
    ensures ValidAddr(a) && a.bitlen == bitlen
  {
    Netaddr(AF_INET, bitlen, [first, second] + seq(14, i => 0))
  }

  lemma TenSlashEight()
    ensures var p, low, high := Ipv4(8, 10, 0), Ipv4(9, 10, 0), Ipv4(9, 10, 0x80);
            Under(Key(p), false, Key(low)) && Under(Key(p), true, Key(high))
  {
    var p, low, high := Ipv4(8, 10, 0), Ipv4(9, 10, 0), Ipv4(9, 10, 0x80);
    assert forall i :: 0 <= i < 8 ==> BitAt(p.bytes, i) == BitAt(low.bytes, i) == BitAt(high.bytes, i);
    assert Key(low)[..8] == Key(p) && Key(high)[..8] == Key(p);
    assert !BitAt(low.bytes, 8) && BitAt(high.bytes, 8);
  }

  /** 10.0.0.0/9 and then 10.0.0.0/8, which is not found. */
  method LoseTenSlashEight() returns (pt: Trie)
    ensures Misses(pt.nodes, pt.head, Ipv4(8, 10, 0))
  {
    TenSlashEight();
    pt := InsertSupernet(AF_INET, Ipv4(9, 10, 0), Ipv4(8, 10, 0));
  }

  /** 10.0.0.0/8, 10.0.0.0/9 and 10.128.0.0/9, and the first removed. */
  method BreakTenSlashEight() returns (pt: Trie)
    ensures !WellFormedMemory(pt.nodes, pt.head, pt.maxbitlen, pt.freenodes)
  {
    TenSlashEight();
    pt := RemoveForked(AF_INET, Ipv4(8, 10, 0), Ipv4(9, 10, 0), Ipv4(9, 10, 0x80));
  }
}
