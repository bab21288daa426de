/** Read-only questions about a Patricia trie (src/patriciatrie.c), each answered
    by one descent and each proved equal to a scan of the stored prefixes. */
module PatriciaQueries {
  import opened Netaddr
  import opened PatriciaShape
  import opened PatriciaTrie

  /** The bits of the address decide the way down. */
  function Toward(nodes: seq<PNode>, prefix: Netaddr<bv8>, n: Ptr): Ptr
    requires 0 <= n < |nodes| && |prefix.bytes| == 16 && nodes[n].prefix.bitlen < 128
  {
    nodes[n].Child(BitAt(prefix.bytes, nodes[n].prefix.bitlen))
  }

  /** Every stored prefix comparable with k, at n or below it but not n itself,
      is at or below the next cell on the way. */
  lemma NextOnTheWay(s: Shape, at: map<Bits, Ptr>, prefix: Netaddr<bv8>, n: Ptr)
    requires s.Ok() && IndexOk(s, at) && ValidAddr(prefix)
    requires n in s.key && s.CellOk(n) && |s.key[n]| < prefix.bitlen
    ensures var c := Toward(s.nodes, prefix, n);
            && (c != NULL ==> c in s.key && s.CellOk(c) && s.key[n] < s.key[c])
            && forall q :: q in at && (q <= Key(prefix) || Key(prefix) <= q) && s.key[n] <= q
                           && (s.nodes[n].glue || q != s.key[n]) ==>
                 c != NULL && s.key[c] <= q
  {
    var c := Toward(s.nodes, prefix, n);
    if c != NULL { assert s.CellOk(c); }
    forall q | q in at && (q <= Key(prefix) || Key(prefix) <= q) && s.key[n] <= q
               && (s.nodes[n].glue || q != s.key[n])
      ensures c != NULL && s.key[c] <= q
    {
      assert s.CellOk(at[q]);
      if q == s.key[n] {
        SameKey(s, n, at[q]);
      } else {
        Descend(s, n, at[q]);
        assert Key(prefix)[|s.key[n]|] == q[|s.key[n]|];
        assert s.CellOk(s.nodes[n].Child(q[|s.key[n]|]));
      }
    }
  }

  lemma MatchIsPrefix(s: Shape, prefix: Netaddr<bv8>, n: Ptr)
    requires n in s.key && s.CellOk(n) && !s.nodes[n].glue && ValidAddr(prefix)
    ensures |s.key[n]| <= prefix.bitlen ==>
              (CompWithMask(s.nodes[n].prefix.bytes, prefix.bytes, |s.key[n]|) <==> s.key[n] <= Key(prefix))
    ensures prefix.bitlen <= |s.key[n]| ==>
              (CompWithMask(s.nodes[n].prefix.bytes, prefix.bytes, prefix.bitlen) <==> Key(prefix) <= s.key[n])
  {
    var a, k := s.nodes[n].prefix, Key(prefix);
    if |s.key[n]| <= prefix.bitlen {
      CompWithMaskIsPrefixEquality(a.bytes, prefix.bytes, |s.key[n]|);
      assert k[..|s.key[n]|] == AddrBits(prefix.bytes)[..|s.key[n]|];
    }
    if prefix.bitlen <= |s.key[n]| {
      CompWithMaskIsPrefixEquality(a.bytes, prefix.bytes, prefix.bitlen);
      assert s.key[n][..prefix.bitlen] == AddrBits(a.bytes)[..prefix.bitlen];
    }
  }

  /** A real live cell holds a stored prefix. */
  lemma CellIsStored(s: Shape, at: map<Bits, Ptr>, n: Ptr)
    requires s.Ok() && IndexOk(s, at) && n in s.key && s.CellOk(n) && !s.nodes[n].glue
    ensures s.key[n] in at && at[s.key[n]] == n
  {
  }

  lemma AllBelowHead(s: Shape, at: map<Bits, Ptr>)
    requires s.Ok() && IndexOk(s, at)
    ensures s.head == NULL ==> at == map[]
    ensures s.head != NULL ==> s.CellOk(s.head) && forall q :: q in at ==> s.key[s.head] <= q
  {
    if s.head == NULL {
      EmptyIndex(s, at);
    } else {
      assert s.CellOk(s.head);
      forall q | q in at ensures s.key[s.head] <= q {
        assert s.CellOk(at[q]);
        HeadIsPrefix(s, at[q]);
      }
    }
  }

  // ---- Best match -----------------------------------------------------------

  /** `last` is the longest proper supernet of k above n, and any longer one is
      at n or below it. */
  ghost predicate BestSoFar(s: Shape, at: map<Bits, Ptr>, k: Bits, n: Ptr, last: Ptr) {
    && n in s.key && s.CellOk(n)
    && (last != NULL ==>
          last in s.key && s.CellOk(last) && !s.nodes[last].glue && s.key[last] < k && s.key[last] <= s.key[n])
    && forall q :: q in at && q < k ==> (last != NULL && q <= s.key[last]) || s.key[n] <= q
  }

  ghost predicate IsBest(at: map<Bits, Ptr>, k: Bits, last: Ptr) {
    && (last == NULL ==> forall q :: q in at ==> !(q < k))
    && (last != NULL ==> exists b :: b in at && at[b] == last && b < k && forall q :: q in at && q < k ==> q <= b)
  }

  lemma BestStart(s: Shape, at: map<Bits, Ptr>, k: Bits)
    requires s.Ok() && IndexOk(s, at)
    ensures if s.head == NULL then IsBest(at, k, NULL) else BestSoFar(s, at, k, s.head, NULL)
  {
    AllBelowHead(s, at);
  }

  lemma BestNext(s: Shape, at: map<Bits, Ptr>, prefix: Netaddr<bv8>, n: Ptr, last: Ptr)
    requires s.Ok() && IndexOk(s, at) && ValidAddr(prefix) && BestSoFar(s, at, Key(prefix), n, last)
    requires |s.key[n]| < prefix.bitlen && (s.nodes[n].glue || last == n)
    ensures var c := Toward(s.nodes, prefix, n);
            if c == NULL then IsBest(at, Key(prefix), last)
            else BestSoFar(s, at, Key(prefix), c, last) && |s.key[n]| < |s.key[c]|
  {
    var c, k := Toward(s.nodes, prefix, n), Key(prefix);
    NextOnTheWay(s, at, prefix, n);
    forall q | q in at && q < k
      ensures (last != NULL && q <= s.key[last]) || (c != NULL && s.key[c] <= q)
    {
    }
    if c == NULL {
      BestChosen(s, at, k, last);
    }
  }

  lemma BestChosen(s: Shape, at: map<Bits, Ptr>, k: Bits, last: Ptr)
    requires s.Ok() && IndexOk(s, at)
    requires last != NULL ==> last in s.key && s.CellOk(last) && !s.nodes[last].glue && s.key[last] < k
    requires forall q :: q in at && q < k ==> last != NULL && q <= s.key[last]
    ensures IsBest(at, k, last)
  {
    if last != NULL {
      CellIsStored(s, at, last);
    }
  }

  /** patsearchbestn: the longest stored proper supernet, or NULL. */
  method SearchBestN(pt: Trie, prefix: Netaddr<bv8>) returns (last: Ptr)
    requires pt.Live().Ok() && IndexOk(pt.Live(), pt.at) && ValidAddr(prefix)
    ensures IsBest(pt.at, Key(prefix), last)
  {
    ghost var s, at, k := pt.Live(), pt.at, Key(prefix);
    BestStart(s, at, k);
    last := NULL;
    if pt.head == NULL {
      return;
    }
    var n := pt.head;
    while pt.nodes[n].prefix.bitlen < prefix.bitlen
      invariant BestSoFar(s, at, k, n, last)
      decreases pt.maxbitlen - pt.nodes[n].prefix.bitlen
    {
      if !pt.nodes[n].glue {
        MatchIsPrefix(s, prefix, n);
        if pt.nodes[n].prefix.bitlen <= prefix.bitlen
           && CompWithMask(pt.nodes[n].prefix.bytes, prefix.bytes, pt.nodes[n].prefix.bitlen) {
          last := n;
        } else {
          BestChosen(s, at, k, last);
          break;
        }
      }
      BestNext(s, at, prefix, n, last);
      n := Toward(pt.nodes, prefix, n);
      if n == NULL {
        return;
      }
    }
    BestChosen(s, at, k, last);
  }

  // ---- Covered by a stored prefix --------------------------------------------

  /** The supernets of k are at n or below it. */
  ghost predicate SupernetsBelow(s: Shape, at: map<Bits, Ptr>, k: Bits, n: Ptr) {
    && (n != NULL ==> n in s.key && s.CellOk(n))
    && forall q :: q in at && q <= k ==> n != NULL && s.key[n] <= q
  }

  lemma GlueNext(s: Shape, at: map<Bits, Ptr>, prefix: Netaddr<bv8>, n: Ptr)
    requires s.Ok() && IndexOk(s, at) && ValidAddr(prefix) && SupernetsBelow(s, at, Key(prefix), n)
    requires n != NULL && |s.key[n]| < prefix.bitlen && s.nodes[n].glue
    ensures SupernetsBelow(s, at, Key(prefix), Toward(s.nodes, prefix, n))
    ensures var c := Toward(s.nodes, prefix, n); c != NULL ==> |s.key[n]| < |s.key[c]|
  {
    NextOnTheWay(s, at, prefix, n);
  }

  /** At a real cell, or past the length of k, its own prefix decides. */
  lemma SupernetDecided(s: Shape, at: map<Bits, Ptr>, prefix: Netaddr<bv8>, n: Ptr)
    requires s.Ok() && IndexOk(s, at) && ValidAddr(prefix) && SupernetsBelow(s, at, Key(prefix), n)
    requires n != NULL ==> !s.nodes[n].glue || prefix.bitlen <= |s.key[n]|
    ensures (exists q :: q in at.Keys && q <= Key(prefix)) <==>
            n != NULL && !s.nodes[n].glue && s.key[n] <= Key(prefix)
  {
    if n != NULL && !s.nodes[n].glue {
      CellIsStored(s, at, n);
    }
    if q :| q in at.Keys && q <= Key(prefix) {
      if s.nodes[n].glue {
        assert s.CellOk(at[q]);
        SameKey(s, n, at[q]);
      }
    }
  }

  /** A stored prefix is seen to contain k if it is k or is shorter than the
      addresses are, which makes a difference only to a k longer than those. */
  ghost predicate SeenAbove(at: map<Bits, Ptr>, k: Bits, max: nat, q: Bits) {
    q in at.Keys && q <= k && (|q| < max || q == k)
  }

  /** At a real cell that is shorter than k. */
  lemma SupernetSeen(s: Shape, at: map<Bits, Ptr>, prefix: Netaddr<bv8>, n: Ptr)
    requires s.Ok() && IndexOk(s, at) && ValidAddr(prefix) && SupernetsBelow(s, at, Key(prefix), n)
    requires n != NULL && !s.nodes[n].glue && |s.key[n]| < prefix.bitlen
    ensures (exists q :: SeenAbove(at, Key(prefix), s.max, q)) <==> |s.key[n]| < s.max && s.key[n] <= Key(prefix)
  {
    CellIsStored(s, at, n);
    StoredInBounds(s, at);
    if |s.key[n]| < s.max && s.key[n] <= Key(prefix) {
      assert SeenAbove(at, Key(prefix), s.max, s.key[n]);
    }
  }

  /** Past the length of k. */
  lemma SupernetSeenAtEnd(s: Shape, at: map<Bits, Ptr>, prefix: Netaddr<bv8>, n: Ptr)
    requires s.Ok() && IndexOk(s, at) && ValidAddr(prefix) && SupernetsBelow(s, at, Key(prefix), n)
    requires n != NULL ==> prefix.bitlen <= |s.key[n]|
    ensures (exists q :: SeenAbove(at, Key(prefix), s.max, q)) <==>
            n != NULL && !s.nodes[n].glue && s.key[n] <= Key(prefix)
  {
    SupernetDecided(s, at, prefix, n);
    if n != NULL && !s.nodes[n].glue && s.key[n] <= Key(prefix) {
      CellIsStored(s, at, n);
      assert SeenAbove(at, Key(prefix), s.max, s.key[n]);
    }
  }

  lemma ShortOnesAreSeen(s: Shape, at: map<Bits, Ptr>, k: Bits)
    requires s.Ok() && IndexOk(s, at) && |k| <= s.max
    ensures forall q :: q in at.Keys && q <= k <==> SeenAbove(at, k, s.max, q)
  {
  }

  /** patissubnetofn: does some stored prefix contain this one? */
  method IsSubnetOfN(pt: Trie, prefix: Netaddr<bv8>) returns (r: bool)
    requires pt.Live().Ok() && IndexOk(pt.Live(), pt.at) && ValidAddr(prefix)
    ensures r <==> exists q :: SeenAbove(pt.at, Key(prefix), pt.maxbitlen, q)
    ensures prefix.bitlen <= pt.maxbitlen ==> (r <==> exists q :: q in pt.at.Keys && q <= Key(prefix))
  {
    ghost var s, at, k := pt.Live(), pt.at, Key(prefix);
    AllBelowHead(s, at);
    if |k| <= s.max {
      ShortOnesAreSeen(s, at, k);
    }
    var n := pt.head;
    while n != NULL && pt.nodes[n].prefix.bitlen < prefix.bitlen
      invariant SupernetsBelow(s, at, k, n)
      decreases if n == NULL then 0 else 1 + pt.maxbitlen - pt.nodes[n].prefix.bitlen
    {
      if !pt.nodes[n].glue {
        MatchIsPrefix(s, prefix, n);
        SupernetSeen(s, at, prefix, n);
        return pt.nodes[n].prefix.bitlen < pt.maxbitlen
               && CompWithMask(pt.nodes[n].prefix.bytes, prefix.bytes, pt.nodes[n].prefix.bitlen);
      }
      GlueNext(s, at, prefix, n);
      n := Toward(pt.nodes, prefix, n);
    }
    SupernetDecided(s, at, prefix, n);
    SupernetSeenAtEnd(s, at, prefix, n);
    if n != NULL && !pt.nodes[n].glue {
      MatchIsPrefix(s, prefix, n);
    }
    r := n != NULL && !pt.nodes[n].glue && pt.nodes[n].prefix.bitlen <= prefix.bitlen
         && CompWithMask(pt.nodes[n].prefix.bytes, prefix.bytes, prefix.bitlen);
  }

  // ---- Covering a stored prefix ----------------------------------------------

  /** The subnets of k are at n or below it. */
  ghost predicate SubnetsBelow(s: Shape, at: map<Bits, Ptr>, k: Bits, n: Ptr) {
    && (n != NULL ==> n in s.key && s.CellOk(n))
    && forall q :: q in at && k <= q ==> n != NULL && s.key[n] <= q
  }

  lemma SubnetsNext(s: Shape, at: map<Bits, Ptr>, prefix: Netaddr<bv8>, n: Ptr)
    requires s.Ok() && IndexOk(s, at) && ValidAddr(prefix) && SubnetsBelow(s, at, Key(prefix), n)
    requires n != NULL && |s.key[n]| < prefix.bitlen
    ensures SubnetsBelow(s, at, Key(prefix), Toward(s.nodes, prefix, n))
    ensures var c := Toward(s.nodes, prefix, n); c != NULL ==> |s.key[n]| < |s.key[c]|
  {
    NextOnTheWay(s, at, prefix, n);
  }

  /** Once at least as long as k, every real cell further down answers the same. */
  lemma SubnetDecided(s: Shape, at: map<Bits, Ptr>, prefix: Netaddr<bv8>, n: Ptr, m: Ptr)
    requires s.Ok() && IndexOk(s, at) && ValidAddr(prefix) && SubnetsBelow(s, at, Key(prefix), n)
    requires n != NULL && prefix.bitlen <= |s.key[n]|
    requires m in s.key && s.CellOk(m) && !s.nodes[m].glue && s.key[n] <= s.key[m]
    ensures (exists q :: q in at.Keys && Key(prefix) <= q) <==>
            CompWithMask(s.nodes[m].prefix.bytes, prefix.bytes, prefix.bitlen)
  {
    MatchIsPrefix(s, prefix, m);
    CellIsStored(s, at, m);
  }

  /** The first loop of patissupernetofn. */
  method DescendPast(pt: Trie, prefix: Netaddr<bv8>) returns (start: Ptr)
    requires pt.Live().Ok() && IndexOk(pt.Live(), pt.at) && ValidAddr(prefix)
    ensures SubnetsBelow(pt.Live(), pt.at, Key(prefix), start)
    ensures start != NULL ==> prefix.bitlen <= |pt.key[start]|
  {
    ghost var s, at, k := pt.Live(), pt.at, Key(prefix);
    AllBelowHead(s, at);
    start := pt.head;
    while start != NULL && pt.nodes[start].prefix.bitlen < prefix.bitlen
      invariant SubnetsBelow(s, at, k, start)
      decreases if start == NULL then 0 else 1 + pt.maxbitlen - pt.nodes[start].prefix.bitlen
    {
      SubnetsNext(s, at, prefix, start);
      start := Toward(pt.nodes, prefix, start);
    }
  }

  /** patissupernetofn: does this prefix contain some stored one? The walk only
      ever goes left through glue, so its pop is never reached. */
  method IsSupernetOfN(pt: Trie, prefix: Netaddr<bv8>) returns (r: bool)
    requires pt.Live().Ok() && IndexOk(pt.Live(), pt.at) && ValidAddr(prefix)
    ensures r <==> exists q :: q in pt.at.Keys && Key(prefix) <= q
  {
    ghost var s, at, k := pt.Live(), pt.at, Key(prefix);
    var start := DescendPast(pt, prefix);
    hide IndexOk;
    var stack := new Ptr[pt.maxbitlen + 1];
    var sp := 0;
    var next := start;
    while next != NULL
      invariant start == NULL ==> next == NULL
      invariant start != NULL ==> next in s.key && s.CellOk(next) && s.key[start] <= s.key[next]
                                  && sp <= |s.key[next]|
      decreases if next == NULL then 0 else 1 + pt.maxbitlen - pt.nodes[next].prefix.bitlen
    {
      var node := next;
      if !pt.nodes[node].glue {
        SubnetDecided(s, at, prefix, start, node);
        return CompWithMask(pt.nodes[node].prefix.bytes, prefix.bytes, prefix.bitlen);
      }
      if pt.nodes[next].left != NULL {
        if pt.nodes[next].right != NULL {
          stack[sp] := pt.nodes[next].right;
          sp := sp + 1;
        }
        assert s.CellOk(s.nodes[next].left);
        next := pt.nodes[next].left;
      } else {
        assert false;
      }
    }
    return false;
  }

  // ---- All supernets ----------------------------------------------------------

  ghost predicate ListedAt(s: Shape, at: map<Bits, Ptr>, k: Bits, r: Ptr) {
    r in s.key && s.key[r] in at && at[s.key[r]] == r && s.key[r] <= k
  }

  /** res lists supernets of k (k itself included), shortest first. */
  ghost predicate SupernetList(s: Shape, at: map<Bits, Ptr>, k: Bits, res: seq<Ptr>) {
    && (forall i :: 0 <= i < |res| ==> ListedAt(s, at, k, res[i]))
    && (forall i, j :: 0 <= i < j < |res| && res[i] in s.key && res[j] in s.key ==> s.key[res[i]] < s.key[res[j]])
  }

  /** ... and any that is missing is at n or below it. */
  ghost predicate SupernetsSoFar(s: Shape, at: map<Bits, Ptr>, k: Bits, n: Ptr, res: seq<Ptr>) {
    && SupernetList(s, at, k, res)
    && (n != NULL ==> n in s.key && s.CellOk(n) && |res| <= |s.key[n]|
                      && forall i :: 0 <= i < |res| && res[i] in s.key ==> s.key[res[i]] < s.key[n])
    && |res| <= |k| + 1
    && (forall q :: q in at && q <= k ==> at[q] in res || (n != NULL && s.key[n] <= q))
  }

  lemma SupernetListed(s: Shape, at: map<Bits, Ptr>, k: Bits, n: Ptr, res: seq<Ptr>)
    requires s.Ok() && IndexOk(s, at) && SupernetsSoFar(s, at, k, n, res)
    requires n != NULL && !s.nodes[n].glue && s.key[n] <= k
    ensures SupernetList(s, at, k, res + [n])
    ensures forall q :: q in at && q <= k ==> at[q] in res + [n] || s.key[n] < q
  {
    CellIsStored(s, at, n);
    forall q | q in at && q <= k ensures at[q] in res + [n] || s.key[n] < q {
      if at[q] in res {
      } else if q == s.key[n] {
        assert (res + [n])[|res|] == n;
      }
    }
  }

  /** One turn of the loop: go on with the cell listed if it is real, or stop. */
  lemma SupernetsNext(s: Shape, at: map<Bits, Ptr>, prefix: Netaddr<bv8>, n: Ptr, res: seq<Ptr>)
    requires s.Ok() && IndexOk(s, at) && ValidAddr(prefix) && SupernetsSoFar(s, at, Key(prefix), n, res)
    requires n != NULL && |s.key[n]| < prefix.bitlen
    ensures if s.nodes[n].glue || s.key[n] <= Key(prefix) then
              var c := Toward(s.nodes, prefix, n);
              && SupernetsSoFar(s, at, Key(prefix), c, if s.nodes[n].glue then res else res + [n])
              && (c != NULL ==> |s.key[n]| < |s.key[c]|)
            else
              AllSupernets(s, at, Key(prefix), res)
  {
    if s.nodes[n].glue || s.key[n] <= Key(prefix) {
      SupernetsStep(s, at, prefix, n, res);
    } else {
      SupernetsEnd(s, at, prefix, n, res);
    }
  }

  lemma SupernetsStep(s: Shape, at: map<Bits, Ptr>, prefix: Netaddr<bv8>, n: Ptr, res: seq<Ptr>)
    requires s.Ok() && IndexOk(s, at) && ValidAddr(prefix) && SupernetsSoFar(s, at, Key(prefix), n, res)
    requires n != NULL && |s.key[n]| < prefix.bitlen && (s.nodes[n].glue || s.key[n] <= Key(prefix))
    ensures var c := Toward(s.nodes, prefix, n);
            && SupernetsSoFar(s, at, Key(prefix), c, if s.nodes[n].glue then res else res + [n])
            && (c != NULL ==> |s.key[n]| < |s.key[c]|)
  {
    NextOnTheWay(s, at, prefix, n);
    if !s.nodes[n].glue {
      SupernetListed(s, at, Key(prefix), n, res);
    }
    hide Shape.Ok, Shape.CellOk, IndexOk, Toward, SupernetList, ValidAddr;
    var c := Toward(s.nodes, prefix, n);
    if s.nodes[n].glue {
      NearerThroughGlue(s, at, prefix, n, c, res);
    } else {
      NearerThroughListed(s, at, prefix, n, c, res);
    }
  }

  lemma NearerThroughGlue(s: Shape, at: map<Bits, Ptr>, prefix: Netaddr<bv8>, n: Ptr, c: Ptr, res: seq<Ptr>)
    requires ValidAddr(prefix) && SupernetsSoFar(s, at, Key(prefix), n, res) && n != NULL
    requires c != NULL ==> c in s.key && s.CellOk(c) && s.key[n] < s.key[c]
    requires forall q :: q in at && q <= Key(prefix) && s.key[n] <= q ==> c != NULL && s.key[c] <= q
    ensures SupernetsSoFar(s, at, Key(prefix), c, res)
  {
    hide Shape.CellOk, SupernetList, ValidAddr;
  }

  lemma NearerThroughListed(s: Shape, at: map<Bits, Ptr>, prefix: Netaddr<bv8>, n: Ptr, c: Ptr, res: seq<Ptr>)
    requires ValidAddr(prefix) && SupernetsSoFar(s, at, Key(prefix), n, res) && n != NULL
    requires c != NULL ==> c in s.key && s.CellOk(c) && s.key[n] < s.key[c]
    requires |s.key[n]| < prefix.bitlen && SupernetList(s, at, Key(prefix), res + [n])
    requires forall q :: q in at && q <= Key(prefix) ==> at[q] in res + [n] || s.key[n] < q
    requires forall q :: q in at && q <= Key(prefix) && s.key[n] < q ==> c != NULL && s.key[c] <= q
    ensures SupernetsSoFar(s, at, Key(prefix), c, res + [n])
  {
    hide Shape.CellOk, SupernetList, ValidAddr;
  }

  ghost predicate AllSupernets(s: Shape, at: map<Bits, Ptr>, k: Bits, res: seq<Ptr>) {
    SupernetList(s, at, k, res) && forall q :: q in at && q <= k ==> at[q] in res
  }

  /** The cell the descent stops at is the last one that can be a supernet. */
  lemma SupernetsEnd(s: Shape, at: map<Bits, Ptr>, prefix: Netaddr<bv8>, n: Ptr, res: seq<Ptr>)
    requires s.Ok() && IndexOk(s, at) && ValidAddr(prefix) && SupernetsSoFar(s, at, Key(prefix), n, res)
    requires n != NULL && s.nodes[n].glue ==> prefix.bitlen <= |s.key[n]|
    requires n != NULL && !s.nodes[n].glue && s.key[n] <= Key(prefix) ==> prefix.bitlen <= |s.key[n]|
    ensures AllSupernets(s, at, Key(prefix),
                         if n != NULL && !s.nodes[n].glue && s.key[n] <= Key(prefix) then res + [n] else res)
  {
    var k := Key(prefix);
    if n != NULL && !s.nodes[n].glue && s.key[n] <= k {
      SupernetListed(s, at, k, n, res);
    } else {
      forall q | q in at && q <= k ensures at[q] in res {
        if at[q] !in res && s.nodes[n].glue {
          assert s.CellOk(at[q]);
          SameKey(s, n, at[q]);
        }
      }
    }
  }

  /** res lists exactly the stored prefixes that are seen to contain k. */
  ghost predicate AllSeen(s: Shape, at: map<Bits, Ptr>, k: Bits, res: seq<Ptr>) {
    && SupernetList(s, at, k, res)
    && (forall i :: 0 <= i < |res| && res[i] in s.key ==> SeenAbove(at, k, s.max, s.key[res[i]]))
    && forall q :: SeenAbove(at, k, s.max, q) ==> at[q] in res
  }

  ghost predicate AllShort(s: Shape, res: seq<Ptr>) {
    forall i :: 0 <= i < |res| && res[i] in s.key ==> |s.key[res[i]]| < s.max
  }

  /** For a k that is no longer than the addresses are, these are all of them. */
  ghost predicate SupernetsFound(s: Shape, at: map<Bits, Ptr>, k: Bits, res: seq<Ptr>) {
    AllSeen(s, at, k, res) && (|k| <= s.max ==> AllSupernets(s, at, k, res))
  }

  lemma AllAreSeen(s: Shape, at: map<Bits, Ptr>, k: Bits, res: seq<Ptr>)
    requires AllSupernets(s, at, k, res)
    requires forall i :: 0 <= i < |res| && res[i] in s.key ==> |s.key[res[i]]| < s.max || s.key[res[i]] == k
    ensures SupernetsFound(s, at, k, res)
  {
    forall i | 0 <= i < |res| && res[i] in s.key ensures SeenAbove(at, k, s.max, s.key[res[i]]) {
      assert ListedAt(s, at, k, res[i]);
    }
  }

  /** At a cell of full length, on the way to a k that is longer. */
  lemma FullLengthEnds(s: Shape, at: map<Bits, Ptr>, k: Bits, n: Ptr, res: seq<Ptr>)
    requires s.Ok() && IndexOk(s, at) && SupernetsSoFar(s, at, k, n, res) && AllShort(s, res)
    requires n != NULL && s.max <= |s.key[n]| < |k|
    ensures SupernetsFound(s, at, k, res)
  {
    forall i | 0 <= i < |res| && res[i] in s.key ensures SeenAbove(at, k, s.max, s.key[res[i]]) {
      assert ListedAt(s, at, k, res[i]);
    }
    forall q | SeenAbove(at, k, s.max, q) ensures at[q] in res {
      assert s.CellOk(at[q]);
    }
  }

  /** The loop stops at a real cell that is shorter than k. */
  lemma StopsAtReal(s: Shape, at: map<Bits, Ptr>, prefix: Netaddr<bv8>, n: Ptr, res: seq<Ptr>)
    requires s.Ok() && IndexOk(s, at) && ValidAddr(prefix) && SupernetsSoFar(s, at, Key(prefix), n, res)
    requires n != NULL && !s.nodes[n].glue && |s.key[n]| < prefix.bitlen && AllShort(s, res)
    requires !(|s.key[n]| < s.max && s.key[n] <= Key(prefix))
    ensures SupernetsFound(s, at, Key(prefix), res)
  {
    hide SupernetList, AllSeen;
    if s.key[n] <= Key(prefix) {
      FullLengthEnds(s, at, Key(prefix), n, res);
    } else {
      SupernetsEnd(s, at, prefix, n, res);
      AllAreSeen(s, at, Key(prefix), res);
    }
  }

  /** It goes past the length of k. */
  lemma StopsBehind(s: Shape, at: map<Bits, Ptr>, prefix: Netaddr<bv8>, n: Ptr, res: seq<Ptr>)
    requires s.Ok() && IndexOk(s, at) && ValidAddr(prefix) && SupernetsSoFar(s, at, Key(prefix), n, res)
    requires n != NULL ==> prefix.bitlen <= |s.key[n]|
    requires AllShort(s, res)
    ensures SupernetsFound(s, at, Key(prefix),
                           if n != NULL && !s.nodes[n].glue && s.key[n] <= Key(prefix) then res + [n] else res)
  {
    hide SupernetList, AllSeen, AllSupernets;
    SupernetsEnd(s, at, prefix, n, res);
    AllAreSeen(s, at, Key(prefix), if n != NULL && !s.nodes[n].glue && s.key[n] <= Key(prefix) then res + [n] else res);
  }

  /** NULL or a cell whose length is that of its bits. */
  ghost predicate LiveAt(s: Shape, n: Ptr) {
    n != NULL ==> n in s.key && 0 <= n < |s.nodes| && |s.key[n]| == s.nodes[n].prefix.bitlen <= s.max
  }

  lemma SoFarIsPlaced(s: Shape, at: map<Bits, Ptr>, k: Bits, n: Ptr, res: seq<Ptr>)
    requires SupernetsSoFar(s, at, k, n, res)
    ensures LiveAt(s, n) && |res| <= |k| + 1
    ensures n != NULL ==> n in s.key && s.CellOk(n)
  {
  }

  lemma ShortSnoc(s: Shape, n: Ptr, res: seq<Ptr>)
    requires AllShort(s, res) && n in s.key && |s.key[n]| < s.max
    ensures AllShort(s, res + [n])
  {
  }

  /** patgetsupernetsofn: NULL for an empty trie, else the list of stored
      supernets, the prefix itself included, with a NULL at its end. Every store
      is within the bitlen + 2 slots allocated. */
  method GetSupernetsOfN(pt: Trie, prefix: Netaddr<bv8>) returns (ok: bool, res: seq<Ptr>)
    requires pt.Live().Ok() && IndexOk(pt.Live(), pt.at) && ValidAddr(prefix)
    ensures ok <==> pt.head != NULL
    ensures ok ==> 0 < |res| <= prefix.bitlen + 2 && res[|res| - 1] == NULL
    ensures SupernetsFound(pt.Live(), pt.at, Key(prefix), if ok then res[..|res| - 1] else [])
  {
    ghost var s, at, k := pt.Live(), pt.at, Key(prefix);
    AllBelowHead(s, at);
    res := [];
    assert SupernetsSoFar(s, at, k, pt.head, res) && AllShort(s, res);
    SoFarIsPlaced(s, at, k, pt.head, res);
    assert s.max <= 128;
    hide SupernetsSoFar, SupernetsFound, AllSupernets, AllShort, IndexOk, Shape.Ok, Shape.CellOk;
    if pt.head == NULL {
      StopsBehind(s, at, prefix, NULL, res);
      return false, res;
    }
    ok := true;
    var n := pt.head;
    while n != NULL && pt.nodes[n].prefix.bitlen < prefix.bitlen
      invariant SupernetsSoFar(s, at, k, n, res) && AllShort(s, res) && LiveAt(s, n)
      decreases if n == NULL then 0 else 1 + pt.maxbitlen - pt.nodes[n].prefix.bitlen
    {
      SoFarIsPlaced(s, at, k, n, res);
      SupernetsNext(s, at, prefix, n, res);
      if !pt.nodes[n].glue {
        MatchIsPrefix(s, prefix, n);
        if pt.nodes[n].prefix.bitlen < pt.maxbitlen
           && CompWithMask(pt.nodes[n].prefix.bytes, prefix.bytes, pt.nodes[n].prefix.bitlen) {
          ShortSnoc(s, n, res);
          res := res + [n];
        } else {
          StopsAtReal(s, at, prefix, n, res);
          return true, Terminated(prefix, res);
        }
      }
      n := Toward(pt.nodes, prefix, n);
      SoFarIsPlaced(s, at, k, n, res);
    }
    SoFarIsPlaced(s, at, k, n, res);
    StopsBehind(s, at, prefix, n, res);
    if n != NULL && !pt.nodes[n].glue {
      MatchIsPrefix(s, prefix, n);
    }
    if n != NULL && !pt.nodes[n].glue && pt.nodes[n].prefix.bitlen <= prefix.bitlen
       && CompWithMask(pt.nodes[n].prefix.bytes, prefix.bytes, prefix.bitlen) {
      assert |res| < prefix.bitlen + 2;
      res := res + [n];
    }
    res := Terminated(prefix, res);
  }

  /** The final store, res[i] = NULL. */
  function Terminated(prefix: Netaddr<bv8>, res: seq<Ptr>): (r: seq<Ptr>)
    requires |res| < prefix.bitlen + 2
    ensures 0 < |r| <= prefix.bitlen + 2 && r[|r| - 1] == NULL && r[..|r| - 1] == res
  {
    res + [NULL]
  }
}
