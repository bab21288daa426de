/** The searches and queries of src/patriciatrie.c side by side on one trie, and
    the order of its walk in octets. */
module PatriciaAgree {
  import opened Netaddr
  import opened PatriciaShape
  import opened PatriciaTrie
  import opened PatriciaQueries
  import opened PatriciaWalk

  /** The cells of a list of supernets: shorter prefixes first, the prefix itself
      last exactly when it was found, and the best match last of the others. */
  ghost predicate Tells(cells: seq<PNode>, list: seq<Ptr>, bitlen: nat, exact: Ptr, best: Ptr) {
    var n := |list|;
    && (forall i :: 0 <= i < n ==> 0 <= list[i] < |cells|)
    && (forall i, j :: 0 <= i < j < n ==> cells[list[i]].prefix.bitlen < cells[list[j]].prefix.bitlen)
    && (exact != NULL <==> n > 0 && cells[list[n - 1]].prefix.bitlen == bitlen)
    && (exact != NULL ==> list[n - 1] == exact)
    && var above := if exact != NULL then list[..n - 1] else list;
       && best == (if above == [] then NULL else above[|above| - 1])
       && (forall i :: 0 <= i < |above| ==> cells[above[i]].prefix.bitlen < bitlen)
  }

  /** Five questions about one prefix. The list of supernets ends in the prefix
      itself exactly when it is found, the best match is the last of the others,
      there is a list at all exactly when the prefix is a subnet, and a prefix
      that is found is its own supernet. */
  method AskAll(pt: Trie, prefix: Netaddr<bv8>)
    returns (exact: Ptr, best: Ptr, subnet: bool, supernet: bool, list: seq<Ptr>)
    requires pt.Valid() && ValidAddr(prefix) && prefix.bitlen <= pt.maxbitlen
    ensures Tells(pt.nodes, list, prefix.bitlen, exact, best)
    ensures subnet <==> list != []
    ensures exact != NULL ==> supernet && subnet
  {
    hide Shape.Ok, IndexOk, AllSupernets, AllSeen, IsBest, FreeOk, Tells;
    exact := pt.SearchExactN(prefix);
    best := SearchBestN(pt, prefix);
    subnet := IsSubnetOfN(pt, prefix);
    supernet := IsSupernetOfN(pt, prefix);
    var ok, res := GetSupernetsOfN(pt, prefix);
    list := if ok then res[..|res| - 1] else [];
    AnswersAgree(pt.Live(), pt.at, Key(prefix), list, exact, best);
  }

  /** The prefixes of the cells. */
  ghost function KeysOf(s: Shape, list: seq<Ptr>): (ks: seq<Bits>)
    requires forall i :: 0 <= i < |list| ==> list[i] in s.key
    ensures |ks| == |list| && forall i :: 0 <= i < |list| ==> ks[i] == s.key[list[i]]
  {
    seq(|list|, i requires 0 <= i < |list| => s.key[list[i]])
  }

  /** All the stored prefixes of k, k included, from short to long. */
  ghost predicate Chain(stored: set<Bits>, ks: seq<Bits>, k: Bits) {
    && (forall i :: 0 <= i < |ks| ==> ks[i] in stored && ks[i] <= k)
    && (forall i, j :: 0 <= i < j < |ks| ==> ks[i] < ks[j])
    && (forall q :: q in stored && q <= k ==> q in ks)
  }

  lemma LastOfChain(stored: set<Bits>, ks: seq<Bits>, k: Bits)
    requires Chain(stored, ks, k)
    ensures k in stored <==> ks != [] && |ks[|ks| - 1]| == |k|
    ensures k in stored ==> ks[|ks| - 1] == k
    ensures forall i :: 0 <= i < |ks| - 1 ==> ks[i] < k
  {
    if k in stored {
      var i :| 0 <= i < |ks| && ks[i] == k;
      assert i < |ks| - 1 ==> ks[i] < ks[|ks| - 1] <= k;
    }
    if ks != [] && |ks[|ks| - 1]| == |k| {
      assert ks[|ks| - 1] == k;
    }
    forall i | 0 <= i < |ks| - 1 ensures ks[i] < k {
      assert ks[i] < ks[|ks| - 1];
    }
  }

  /** The longest proper one is the last but k itself. */
  lemma BestOfChain(stored: set<Bits>, ks: seq<Bits>, k: Bits, b: Bits)
    requires Chain(stored, ks, k) && b in stored && b < k && forall q :: q in stored && q < k ==> q <= b
    ensures var n := if k in stored then |ks| - 1 else |ks|;
            n > 0 && ks[n - 1] == b
  {
    LastOfChain(stored, ks, k);
    var n := if k in stored then |ks| - 1 else |ks|;
    var i :| 0 <= i < |ks| && ks[i] == b;
    assert i < n;
    if ks[n - 1] != k {
      assert ks[n - 1] <= b;
    }
  }

  lemma ListIsChain(s: Shape, at: map<Bits, Ptr>, k: Bits, list: seq<Ptr>)
    requires s.Ok() && IndexOk(s, at) && AllSupernets(s, at, k, list)
    ensures forall i :: 0 <= i < |list| ==>
              && list[i] in s.key && 0 <= list[i] < |s.nodes|
              && s.nodes[list[i]].prefix.bitlen == |s.key[list[i]]|
              && s.key[list[i]] in at && at[s.key[list[i]]] == list[i]
    ensures Chain(at.Keys, KeysOf(s, list), k)
  {
    forall i | 0 <= i < |list|
      ensures list[i] in s.key && 0 <= list[i] < |s.nodes| && s.nodes[list[i]].prefix.bitlen == |s.key[list[i]]|
      ensures s.key[list[i]] in at && at[s.key[list[i]]] == list[i] && s.key[list[i]] <= k
    {
      assert ListedAt(s, at, k, list[i]);
      assert s.CellOk(list[i]);
    }
    var ks := KeysOf(s, list);
    forall q | q in at.Keys && q <= k ensures q in ks {
      assert s.CellOk(at[q]);
      var i :| 0 <= i < |list| && list[i] == at[q];
      assert ks[i] == q;
    }
  }

  lemma AnswersAgree(s: Shape, at: map<Bits, Ptr>, k: Bits, list: seq<Ptr>, exact: Ptr, best: Ptr)
    requires s.Ok() && IndexOk(s, at) && AllSupernets(s, at, k, list) && IsBest(at, k, best)
    requires exact == if k in at then at[k] else NULL
    ensures Tells(s.nodes, list, |k|, exact, best)
    ensures (exists q :: q in at.Keys && q <= k) <==> list != []
    ensures exact != NULL ==> k in at.Keys
  {
    var ks := KeysKnown(s, at, k, list, best);
    hide Shape.Ok, IndexOk, AllSupernets, IsBest, Tells;
    KeysTell(s, at, k, list, ks, exact, best);
  }

  /** What the cells of the list, the best one and the stored prefixes have to do with each other. */
  lemma KeysKnown(s: Shape, at: map<Bits, Ptr>, k: Bits, list: seq<Ptr>, best: Ptr) returns (ks: seq<Bits>)
    requires s.Ok() && IndexOk(s, at) && AllSupernets(s, at, k, list) && IsBest(at, k, best)
    ensures |ks| == |list|
    ensures forall i :: 0 <= i < |list| ==>
              && 0 <= list[i] < |s.nodes| && s.nodes[list[i]].prefix.bitlen == |ks[i]|
              && ks[i] in at && at[ks[i]] == list[i]
    ensures forall i, j :: 0 <= i < j < |ks| ==> |ks[i]| < |ks[j]|
    ensures k in at <==> ks != [] && |ks[|ks| - 1]| == |k|
    ensures k in at ==> ks[|ks| - 1] == k && at[k] != NULL
    ensures forall i :: 0 <= i < |ks| ==> ks[i] <= k
    ensures var n := if k in at then |list| - 1 else |list|;
            best == if n <= 0 then NULL else list[n - 1]
    ensures (exists q :: q in at.Keys && q <= k) <==> list != []
  {
    ListIsChain(s, at, k, list);
    StoredIsReal(s, at);
    hide Shape.Ok, IndexOk, AllSupernets, IsBest;
    ks := KeysOf(s, list);
    BestIsListed(s, at, k, list, ks, best);
    LastOfChain(at.Keys, ks, k);
    ChainHas(at.Keys, ks, k);
    hide Chain;
  }

  /** The same from the prefixes to the cells. */
  lemma KeysTell(s: Shape, at: map<Bits, Ptr>, k: Bits, list: seq<Ptr>, ks: seq<Bits>, exact: Ptr, best: Ptr)
    requires |ks| == |list|
    requires forall i :: 0 <= i < |list| ==>
               && 0 <= list[i] < |s.nodes| && s.nodes[list[i]].prefix.bitlen == |ks[i]|
               && ks[i] in at && at[ks[i]] == list[i]
    requires forall i, j :: 0 <= i < j < |ks| ==> |ks[i]| < |ks[j]|
    requires k in at <==> ks != [] && |ks[|ks| - 1]| == |k|
    requires k in at ==> ks[|ks| - 1] == k && at[k] != NULL
    requires forall i :: 0 <= i < |ks| ==> ks[i] <= k
    requires exact == if k in at then at[k] else NULL
    requires var n := if k in at then |list| - 1 else |list|;
             best == if n <= 0 then NULL else list[n - 1]
    ensures Tells(s.nodes, list, |k|, exact, best)
  {
    var n := |list|;
    var above := if exact != NULL then list[..n - 1] else list;
    forall i | 0 <= i < |above| ensures s.nodes[above[i]].prefix.bitlen < |k| {
      assert above[i] == list[i] && ks[i] <= k;
      if i < n - 1 {
        assert |ks[i]| < |ks[n - 1]| <= |k|;
      }
    }
  }

  lemma ChainHas(stored: set<Bits>, ks: seq<Bits>, k: Bits)
    requires Chain(stored, ks, k)
    ensures (exists q :: q in stored && q <= k) <==> ks != []
    ensures forall i :: 0 <= i < |ks| ==> ks[i] <= k
    ensures forall i, j :: 0 <= i < j < |ks| ==> |ks[i]| < |ks[j]|
  {
    if ks != [] {
      assert ks[0] in stored && ks[0] <= k;
    }
  }

  lemma StoredIsReal(s: Shape, at: map<Bits, Ptr>)
    requires s.Ok() && IndexOk(s, at)
    ensures forall q :: q in at ==> at[q] != NULL
  {
    forall q | q in at ensures at[q] != NULL {
      assert s.CellOk(at[q]);
    }
  }

  lemma BestIsListed(s: Shape, at: map<Bits, Ptr>, k: Bits, list: seq<Ptr>, ks: seq<Bits>, best: Ptr)
    requires Chain(at.Keys, ks, k) && IsBest(at, k, best) && |ks| == |list|
    requires forall i :: 0 <= i < |ks| ==> ks[i] in at && at[ks[i]] == list[i]
    requires forall q :: q in at ==> at[q] != NULL
    ensures var n := if k in at then |list| - 1 else |list|;
            best == if n <= 0 then NULL else list[n - 1]
  {
    LastOfChain(at.Keys, ks, k);
    var n := if k in at then |list| - 1 else |list|;
    if best != NULL {
      var b :| b in at && at[b] == best && b < k && forall q :: q in at && q < k ==> q <= b;
      BestOfChain(at.Keys, ks, k, b);
    }
  }

  // ---- Order -------------------------------------------------------------

  /** What comes before in the walk contains the other, or its address is smaller
      at the first octet in which the two differ. */
  lemma OrderInOctets(a: Netaddr<bv8>, b: Netaddr<bv8>)
    requires ValidAddr(a) && ValidAddr(b) && Precedes(Key(a), Key(b))
    ensures Key(a) <= Key(b) ||
            exists j: nat :: j < 16 && a.bytes[..j] == b.bytes[..j] && a.bytes[j] < b.bytes[j]
  {
    var k, l := Key(a), Key(b);
    if !(k < l) {
      var i :| 0 <= i < |k| && i < |l| && k[..i] == l[..i] && !k[i] && l[i];
      forall m | 0 <= m < i ensures BitAt(a.bytes, m) == BitAt(b.bytes, m) {
        assert k[m] == k[..i][m] && l[m] == l[..i][m];
      }
      FirstDifference(a.bytes, b.bytes, i);
    }
  }

  lemma FirstDifference(x: seq<bv8>, y: seq<bv8>, i: nat)
    requires |x| == |y| == 16 && i < 128 && (forall m :: 0 <= m < i ==> BitAt(x, m) == BitAt(y, m))
    requires !BitAt(x, i) && BitAt(y, i)
    ensures x[..i / 8] == y[..i / 8] && x[i / 8] < y[i / 8]
  {
    var j := i / 8;
    forall m | 0 <= m < j ensures x[m] == y[m] {
      OctetBits(x, y, m, 8, i);
      SameOctet(x[m], y[m]);
    }
    OctetBits(x, y, j, i % 8, i);
    SmallerOctet(x[j], y[j], i % 8);
  }

  lemma OctetBits(x: seq<bv8>, y: seq<bv8>, m: nat, n: nat, i: nat)
    requires |x| == |y| == 16 && m < 16 && n <= 8 && 8 * m + n <= i < 128
    requires forall k :: 0 <= k < i ==> BitAt(x, k) == BitAt(y, k)
    ensures forall r :: 0 <= r < n ==> ByteBit(x[m], r) == ByteBit(y[m], r)
  {
    forall r | 0 <= r < n ensures ByteBit(x[m], r) == ByteBit(y[m], r) {
      var k := 8 * m + r;
      assert k / 8 == m && k % 8 == r;
      assert BitAt(x, k) == BitAt(y, k);
    }
  }

  lemma SameOctet(x: bv8, y: bv8)
    requires forall r :: 0 <= r < 8 ==> ByteBit(x, r) == ByteBit(y, r)
    ensures x == y
  {
    assert ByteBit(x, 0) == ByteBit(y, 0) && ByteBit(x, 1) == ByteBit(y, 1);
    assert ByteBit(x, 2) == ByteBit(y, 2) && ByteBit(x, 3) == ByteBit(y, 3);
    assert ByteBit(x, 4) == ByteBit(y, 4) && ByteBit(x, 5) == ByteBit(y, 5);
    assert ByteBit(x, 6) == ByteBit(y, 6) && ByteBit(x, 7) == ByteBit(y, 7);
  }

  lemma SmallerOctet(x: bv8, y: bv8, k: nat)
    requires k < 8 && (forall r :: 0 <= r < k ==> ByteBit(x, r) == ByteBit(y, r))
    requires !ByteBit(x, k) && ByteBit(y, k)
    ensures x < y
  {
    assert k > 0 ==> ByteBit(x, 0) == ByteBit(y, 0);
    assert k > 1 ==> ByteBit(x, 1) == ByteBit(y, 1);
    assert k > 2 ==> ByteBit(x, 2) == ByteBit(y, 2);
    assert k > 3 ==> ByteBit(x, 3) == ByteBit(y, 3);
    assert k > 4 ==> ByteBit(x, 4) == ByteBit(y, 4);
    assert k > 5 ==> ByteBit(x, 5) == ByteBit(y, 5);
    assert k > 6 ==> ByteBit(x, 6) == ByteBit(y, 6);
  }
}
