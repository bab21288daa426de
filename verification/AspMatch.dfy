/** The streaming AS path matchers of the filter machine (src/filterintrin.c):
    the pattern is on the stack, the path comes one AS at a time from an
    iteration over a message. */
module AspMatch {
  import opened AsPath
  import opened Wrappers

  const AS_ANY: int := -1

  type Path = seq<nat>

  type Pattern = seq<int>

  // ---- What the matchers are for -----------------------------------------

  predicate Accepts(cell: int, asn: nat) {
    cell == asn || cell == AS_ANY
  }

  /** The whole of w matches, position by position. */
  ghost predicate Matches(p: Pattern, w: Path) {
    |w| == |p| && forall i :: 0 <= i < |p| ==> Accepts(p[i], w[i])
  }

  ghost predicate WindowMatches(p: Pattern, path: Path, k: nat) {
    k + |p| <= |path| && Matches(p, path[k..k + |p|])
  }

  ghost predicate SomeWindow(p: Pattern, path: Path) {
    exists k: nat :: WindowMatches(p, path, k)
  }

  ghost predicate PrefixMatches(p: Pattern, path: Path) {
    WindowMatches(p, path, 0)
  }

  ghost predicate SuffixMatches(p: Pattern, path: Path) {
    |p| <= |path| && Matches(p, path[|path| - |p|..])
  }

  /** The four questions, asked about the same pattern and path: the exact match
      is a prefix and a suffix of the same length, and either end is a window. */
  lemma HowTheyRelate(p: Pattern, path: Path)
    ensures Matches(p, path) <==> |p| == |path| && PrefixMatches(p, path) && SuffixMatches(p, path)
    ensures PrefixMatches(p, path) || SuffixMatches(p, path) ==> SomeWindow(p, path)
  {
    if |p| == |path| {
      assert path[0..0 + |p|] == path && path[|path| - |p|..] == path;
    }
    if SuffixMatches(p, path) {
      var k := |path| - |p|;
      assert path[k..k + |p|] == path[k..];
      assert WindowMatches(p, path, k);
    }
  }

  /** The four answers, position by position; -1 stands for any AS. */
  lemma AnswersAre(p: Pattern, path: Path)
    ensures SomeWindow(p, path) <==>
            exists k: nat :: k + |p| <= |path| && forall i :: 0 <= i < |p| ==> p[i] == -1 || p[i] == path[k..][i]
    ensures PrefixMatches(p, path) <==>
            |p| <= |path| && forall i :: 0 <= i < |p| ==> p[i] == -1 || p[i] == path[i]
    ensures SuffixMatches(p, path) <==>
            |p| <= |path| && forall i :: 0 <= i < |p| ==> p[i] == -1 || p[i] == path[|path| - |p| + i]
    ensures Matches(p, path) <==>
            |p| == |path| && forall i :: 0 <= i < |p| ==> p[i] == -1 || p[i] == path[i]
  {
    forall k: nat | k + |p| <= |path|
      ensures WindowMatches(p, path, k) <==> forall i :: 0 <= i < |p| ==> p[i] == -1 || p[i] == path[k..][i]
    {
      var w := path[k..k + |p|];
      assert forall i :: 0 <= i < |p| ==> w[i] == path[k..][i];
      assert Matches(p, w) <==> forall i :: 0 <= i < |p| ==> Accepts(p[i], w[i]);
    }
    if |p| <= |path| {
      var w := path[|path| - |p|..];
      assert forall i :: 0 <= i < |p| ==> w[i] == path[|path| - |p| + i];
    }
    if SomeWindow(p, path) {
      var k: nat :| WindowMatches(p, path, k);
    }
    if k: nat :| k + |p| <= |path| && forall i :: 0 <= i < |p| ==> p[i] == -1 || p[i] == path[k..][i] {
      assert WindowMatches(p, path, k);
    }
  }

  // ---- The machine -------------------------------------------------------

  /** The AS numbers an iteration yields. */
  ghost function Numbers(es: seq<Entry>): (path: Path)
    ensures |path| == |es| && forall i :: 0 <= i < |es| ==> path[i] == es[i].asn
  {
    seq(|es|, i requires 0 <= i < |es| => es[i].asn)
  }

  class Matcher {
    const it: AsPathIterator
    ghost const path: Path       // all that the iteration has to yield
    ghost var read: nat          // how much of it nextaspath_r has yielded
    var stack: seq<int>          // ASes before a match, one truth value after it

    ghost predicate Valid()
      reads this, it
    {
      it.Valid() && read <= |path| && Numbers(it.Upcoming()) == path[read..]
    }

    constructor (iteration: AsPathIterator, pattern: Pattern)
      requires iteration.Valid()
      ensures Valid() && it == iteration && path == Numbers(iteration.Upcoming()) && read == 0 && stack == pattern
    {
      it, path, read, stack := iteration, Numbers(iteration.Upcoming()), 0, pattern;
    }

    /** nextaspath_r */
    method NextAs() returns (r: Option<nat>)
      requires Valid()
      modifies this`read, it
      ensures Valid() && read <= |path|
      ensures r == if old(read) < |path| then Some(path[old(read)]) else None
      ensures read == if r.Some? then old(read) + 1 else old(read)
    {
      ghost var ahead := it.Upcoming();
      assert |Numbers(ahead)| == |path[read..]|;
      var ent := it.Next();
      if ent.None? {
        return None;
      }
      assert path[read] == path[read..][0] == Numbers(ahead)[0] == ent.value.asn;
      assert Numbers(it.Upcoming()) == Numbers(ahead)[1..] == path[read + 1..];
      read := read + 1;
      return Some(ent.value.asn);
    }

    /** vm_clearstack, then one cell. */
    method Answer(value: bool)
      modifies this`stack
      ensures stack == [if value then 1 else 0]
    {
      stack := [];
      stack := stack + [if value then 1 else 0];
    }

    /** The buffer holds what was read of the window that starts at `start`. */
    ghost predicate Holds(asbuf: array<nat>, buffered: nat, start: nat)
      reads this, it, asbuf
    {
      && Valid() && read <= |path|
      && buffered <= asbuf.Length == |stack|
      && start + buffered == read <= |path|
      && forall j :: 0 <= j < buffered ==> asbuf[j] == path[start + j]
    }

    /** One pass of the inner loop of vm_exec_aspmatch: compares the window,
        reading as it goes. None: the path ended. */
    method TryWindow(asbuf: array<nat>, filled: nat, ghost start: nat) returns (r: Option<bool>, buffered: nat)
      requires Holds(asbuf, filled, start)
      modifies this`read, it, asbuf
      ensures Holds(asbuf, buffered, start)
      ensures r == Some(true) ==> WindowMatches(stack, path, start)
      ensures r == Some(false) ==> buffered > 0 && !WindowMatches(stack, path, start)
      ensures r == None ==> start + |stack| > |path|
    {
      hide Matcher.Valid;
      buffered := filled;
      var i := 0;
      while i < |stack|
        invariant i <= |stack| && Holds(asbuf, buffered, start)
        invariant i <= buffered
        invariant forall j :: 0 <= j < i ==> Accepts(stack[j], path[start + j])
      {
        if i == buffered {
          var ent := NextAs();
          if ent.None? {
            return None, buffered;
          }
          asbuf[buffered] := ent.value;
          buffered := buffered + 1;
        }
        if stack[i] != asbuf[i] && stack[i] != AS_ANY {
          if start + |stack| <= |path| {
            assert path[start..start + |stack|][i] == path[start + i];
          }
          return Some(false), buffered;
        }
        i := i + 1;
      }
      return Some(true), buffered;
    }

    /** memmove(asbuf, asbuf + 1, (buffered - 1) * sizeof(*asbuf)) */
    method Slide(asbuf: array<nat>, buffered: nat)
      requires 0 < buffered <= asbuf.Length
      modifies asbuf
      ensures forall j :: 0 <= j < buffered - 1 ==> asbuf[j] == old(asbuf[j + 1])
    {
      var j := 0;
      while j < buffered - 1
        invariant j <= buffered - 1
        invariant forall k :: 0 <= k < j ==> asbuf[k] == old(asbuf[k + 1])
        invariant forall k :: j <= k < buffered ==> asbuf[k] == old(asbuf[k])
      {
        asbuf[j] := asbuf[j + 1];
        j := j + 1;
      }
    }

    /** vm_exec_aspmatch, on an iteration just started. */
    method ExecMatch()
      requires Valid() && read == 0
      modifies this, it
      ensures stack == [if SomeWindow(old(stack), path) then 1 else 0]
    {
      hide Matcher.Valid;
      var asbuf := new nat[|stack|](_ => 0);
      var buffered := 0;
      ghost var start, pattern := 0, stack;
      while true
        invariant stack == pattern && fresh(asbuf) && Holds(asbuf, buffered, start)
        invariant forall k: nat :: k < start ==> !WindowMatches(pattern, path, k)
        decreases |path| - start
      {
        var r;
        r, buffered := TryWindow(asbuf, buffered, start);
        if r.None? {
          assert forall k: nat :: k >= start ==> !WindowMatches(pattern, path, k);
          Answer(false);
          return;
        }
        if r.value {
          Answer(true);
          return;
        }
        Slide(asbuf, buffered);
        buffered := buffered - 1;
        start := start + 1;
      }
    }

    /** The loop that vm_exec_aspstarts and vm_exec_aspexact share: how far the
        path follows the pattern. */
    method Follow() returns (i: nat)
      requires Valid() && read == 0
      modifies this`read, it
      ensures Valid() && i <= |stack| && read <= |path|
      ensures i == |stack| <==> PrefixMatches(stack, path)
      ensures i == |stack| ==> read == i
    {
      hide Matcher.Valid;
      i := 0;
      while i < |stack|
        invariant Valid() && i <= |stack| && read == i <= |path|
        invariant forall j :: 0 <= j < i ==> Accepts(stack[j], path[j])
      {
        var ent := NextAs();
        if ent.None? {
          break;
        }
        if stack[i] != ent.value && stack[i] != AS_ANY {
          if |stack| <= |path| {
            assert path[0..0 + |stack|][i] == path[i];
          }
          break;
        }
        i := i + 1;
      }
    }

    /** vm_exec_aspstarts */
    method ExecStarts()
      requires Valid() && read == 0
      modifies this, it
      ensures stack == [if PrefixMatches(old(stack), path) then 1 else 0]
    {
      hide Matcher.Valid;
      var i := Follow();
      Answer(i == |stack|);
    }

    /** vm_exec_aspexact */
    method ExecExact()
      requires Valid() && read == 0
      modifies this, it
      ensures stack == [if Matches(old(stack), path) then 1 else 0]
    {
      hide Matcher.Valid;
      var i := Follow();
      ghost var pattern := stack;
      var ent := NextAs();
      if |pattern| == |path| {
        assert path[0..0 + |pattern|] == path;
      }
      Answer(ent.None? && i == |stack|);
    }

    /** The buffer holds the last n of the ASes seen, as many as it has room for. */
    ghost predicate HoldsLast(asbuf: array<nat>, n: nat, seen: nat)
      reads this, asbuf
    {
      && asbuf.Length == |stack| && seen <= |path|
      && n == (if seen < |stack| then seen else |stack|)
      && forall j :: 0 <= j < n ==> asbuf[j] == path[seen - n + j]
    }

    /** One more of them, the first making room for it. */
    method SlideIn(asbuf: array<nat>, n: nat, asn: nat, ghost seen: nat) returns (m: nat)
      requires HoldsLast(asbuf, n, seen) && stack != [] && seen < |path| && asn == path[seen]
      modifies asbuf
      ensures HoldsLast(asbuf, m, seen + 1)
    {
      m := n;
      if m == |stack| {
        Slide(asbuf, m);
        m := m - 1;
      }
      asbuf[m] := asn;
      m := m + 1;
    }

    /** vm_exec_aspends; with an empty pattern the window that it slides along a
        path has no room. */
    method ExecEnds()
      requires Valid() && read == 0 && (path == [] || stack != [])
      modifies this, it
      ensures stack == [if SuffixMatches(old(stack), path) then 1 else 0]
    {
      hide Matcher.Valid;
      var asbuf := new nat[|stack|](_ => 0);
      var n := 0;
      var ent := NextAs();
      while ent.Some?
        invariant stack == old(stack) && fresh(asbuf) && Valid() && read <= |path|
        invariant ent.Some? ==> read > 0 && ent.value == path[read - 1]
        invariant ent.None? ==> read == |path|
        invariant HoldsLast(asbuf, n, if ent.Some? then read - 1 else read)
        decreases |path| - read + if ent.Some? then 1 else 0
      {
        n := SlideIn(asbuf, n, ent.value, read - 1);
        ent := NextAs();
      }
      ghost var pattern, tail := stack, if |stack| <= |path| then path[|path| - |stack|..] else [];
      var lengthMatch := n == |stack|;
      if !lengthMatch {
        Answer(false);
        return;
      }
      var i := 0;
      while i < n
        invariant i <= n && forall j :: 0 <= j < i ==> Accepts(pattern[j], tail[j])
      {
        if asbuf[i] != stack[i] && stack[i] != AS_ANY {
          assert !Accepts(pattern[i], tail[i]);
          break;
        }
        i := i + 1;
      }
      Answer(i == n);
    }
  }
}
