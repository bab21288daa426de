/** Which texts the parser of src/json.c takes, which it calls incomplete, and
    which it refuses, by what stands where in the text. */
module JsonGrammar {
  import NumberText
  import opened JsonText
  import opened JsonParse
  import opened JsonRoundTrip
  import opened Wrappers

  // ---- What stands where -------------------------------------------------

  ghost predicate Blank(t: string, p: nat, q: nat) {
    p <= q <= |t| && forall i :: p <= i < q ==> t[i] as int in {9, 10, 11, 12, 13, 32}
  }

  /** From a quote to the first one after it that has no backslash before it. */
  ghost predicate StringAt(t: string, p: nat, q: nat) {
    && p + 2 <= q <= |t| && t[p] == '"' && t[q - 1] == '"' && t[q - 2] != '\\'
    && forall i :: p < i < q - 1 && t[i] == '"' ==> t[i - 1] == '\\'
  }

  ghost predicate OpenString(t: string, p: nat) {
    && p < |t| && t[p] == '"'
    && forall i :: p < i < |t| && t[i] == '"' ==> t[i - 1] == '\\'
  }

  /** Digits, perhaps behind a minus, and as many of them as there are. */
  ghost predicate NumberAt(t: string, p: nat, q: nat) {
    && p < q <= |t| && (t[p] == '-' ==> p + 1 < q)
    && (t[p] == '-' || '0' <= t[p] <= '9')
    && (forall i :: p < i < q ==> '0' <= t[i] <= '9')
    && (q < |t| ==> !('0' <= t[q] <= '9'))
  }

  ghost predicate WordAt(t: string, p: nat, q: nat) {
    p < q <= |t| && t[p..q] in {"true", "false"}
  }

  /** A value without spaces before it. */
  ghost predicate BareAt(t: string, s: nat, q: nat)
    decreases q - s, 0
  {
    && s < q <= |t|
    && (StringAt(t, s, q) || NumberAt(t, s, q) || WordAt(t, s, q)
        || exists n: nat :: AggregateAt(t, s, q, n))
  }

  /** Brackets or braces around n elements. */
  ghost predicate AggregateAt(t: string, s: nat, q: nat, n: nat)
    decreases q - s, -1
  {
    && s + 1 < q <= |t|
    && ((t[s] == '[' && t[q - 1] == ']') || (t[s] == '{' && t[q - 1] == '}'))
    && RestAt(t, s + 1, q - 1, t[s] == '{', true, n)
  }

  ghost predicate ValueAt(t: string, p: nat, q: nat)
    decreases q - p, 1
  {
    exists s: nat :: p <= s < q && Blank(t, p, s) && BareAt(t, s, q)
  }

  /** A name, a colon and a value. */
  ghost predicate MemberAt(t: string, p: nat, q: nat)
    decreases q - p, 2
  {
    exists s: nat, k: nat, c: nat :: p <= s < k <= c < q <= |t|
      && Blank(t, p, s) && StringAt(t, s, k) && ColonAt(t, k, c) && ValueAt(t, c + 1, q)
  }

  ghost predicate ElementAt(t: string, p: nat, q: nat, obj: bool)
    decreases q - p, 3
  {
    if obj then MemberAt(t, p, q) else ValueAt(t, p, q)
  }

  /** A comma or a colon on its own, which the source takes for the first element
      of an array. */
  ghost predicate MarkAt(t: string, p: nat, q: nat) {
    p < q <= |t| && Blank(t, p, q - 1) && t[q - 1] in {',', ':'}
  }

  ghost predicate CommaAt(t: string, p: nat, c: nat) {
    c < |t| && Blank(t, p, c) && t[c] == ','
  }

  ghost predicate ColonAt(t: string, k: nat, c: nat) {
    c < |t| && Blank(t, k, c) && t[c] == ':'
  }

  ghost predicate TurnAt(t: string, p: nat, q: nat, obj: bool, first: bool)
    decreases q - p, 4
  {
    if first then ElementAt(t, p, q, obj) || (!obj && MarkAt(t, p, q))
    else exists c: nat :: p <= c < q && CommaAt(t, p, c) && ElementAt(t, c + 1, q, obj)
  }

  /** n more elements and what separates them, up to the closing bracket. */
  ghost predicate RestAt(t: string, p: nat, q: nat, obj: bool, first: bool, n: nat)
    decreases q - p, 5
  {
    if n == 0 then Blank(t, p, q)
    else exists m: nat :: p < m <= q && TurnAt(t, p, m, obj, first) && RestAt(t, m, q, obj, false, n - 1)
  }

  // ---- What is cut short ---------------------------------------------------

  /** From p the text ends too early: in spaces, in a string, or in brackets. */
  ghost predicate CutAt(t: string, p: nat, strings: bool)
    decreases |t| - p, 0
  {
    || Blank(t, p, |t|)
    || (exists s: nat :: p <= s < |t| && Blank(t, p, s)
          && ((strings && OpenString(t, s)) || (t[s] in {'[', '{'} && CutRest(t, s + 1, t[s] == '{', true))))
  }

  /** Some whole elements, perhaps none, and one that is cut short. */
  ghost predicate CutRest(t: string, p: nat, obj: bool, first: bool)
    decreases |t| - p, 3
  {
    || CutTurn(t, p, obj, first)
    || exists m: nat :: p < m <= |t| && TurnAt(t, p, m, obj, first) && CutRest(t, m, obj, false)
  }

  ghost predicate CutTurn(t: string, p: nat, obj: bool, first: bool)
    decreases |t| - p, 2
  {
    || CutAt(t, p, true)
    || if first then obj && CutMember(t, p)
       else exists c: nat :: p <= c && CommaAt(t, p, c) && (CutAt(t, c + 1, true) || (obj && CutMember(t, c + 1)))
  }

  /** A name, and an end before the value, or in it. What stands where the colon
      should is looked at as well: brackets may be cut short there, too. */
  ghost predicate CutMember(t: string, p: nat)
    decreases |t| - p, 1
  {
    exists s: nat, k: nat :: p <= s < k <= |t| && Blank(t, p, s) && StringAt(t, s, k)
      && (CutAt(t, k, false) || exists c: nat :: k <= c < |t| && ColonAt(t, k, c) && CutAt(t, c + 1, true))
  }

  // ---- Spaces ------------------------------------------------------------

  lemma {:induction false} Skipped(t: string, p: nat)
    requires p <= |t|
    ensures var s := NumberText.SkipSpace(t, p);
            Blank(t, p, s) && (s < |t| ==> !NumberText.IsSpace(t[s]))
    decreases |t| - p
  {
    if p < |t| && NumberText.IsSpace(t[p]) {
      Skipped(t, p + 1);
    }
  }

  /** Where the spaces end is one place. */
  lemma SolidIs(t: string, p: nat, s: nat)
    requires Blank(t, p, s) && (s < |t| ==> !NumberText.IsSpace(t[s]))
    ensures NumberText.SkipSpace(t, p) == s && NumberText.SkipSpace(t, s) == s
  {
    Skipped(t, p);
    Skipped(t, s);
  }

  lemma BareIsSolid(t: string, s: nat, q: nat)
    requires BareAt(t, s, q)
    ensures !NumberText.IsSpace(t[s]) && !Punctuation(t[s])
  {
    WordStarts(t, s, q);
  }

  lemma WordStarts(t: string, s: nat, q: nat)
    ensures WordAt(t, s, q) ==> t[s] in {'t', 'f'}
  {
    if WordAt(t, s, q) {
      assert t[s..q][0] == t[s];
    }
  }

  lemma ValueStarts(t: string, p: nat, q: nat)
    requires p <= |t|
    ensures var s := NumberText.SkipSpace(t, p);
            ValueAt(t, p, q) <==> s < |t| && s < q && BareAt(t, s, q)
  {
    Skipped(t, p);
    if ValueAt(t, p, q) {
      var s: nat :| p <= s < q && Blank(t, p, s) && BareAt(t, s, q);
      BareIsSolid(t, s, q);
      SolidIs(t, p, s);
    }
  }

  // ---- Tokens ------------------------------------------------------------

  predicate Accepts(r: Result, q: nat) {
    r.Ok? && After(r.tok) == q
  }

  lemma {:induction false} EndOfString(t: string, p: nat)
    requires 0 < p <= |t|
    ensures var q := StringEnd(t, p);
            && (q < |t| ==> t[q] == '"' && t[q - 1] != '\\')
            && forall i :: p <= i < q && t[i] == '"' ==> t[i - 1] == '\\'
    decreases |t| - p
  {
    if p < |t| && !(t[p] == QUOTE && t[p - 1] != BACKSLASH) {
      EndOfString(t, p + 1);
    }
  }

  lemma StringIff(t: string, s: nat, q: nat)
    requires s < |t| && t[s] == '"'
    ensures StringAt(t, s, q) <==> StringTok(t, s + 1).Ok? && StringTok(t, s + 1).tok.next == q
    ensures OpenString(t, s) <==> StringTok(t, s + 1) == Fail(JSON_INCOMPLETE)
  {
    EndOfString(t, s + 1);
  }

  lemma {:induction false} EndOfDigits(t: string, p: nat)
    requires p <= |t|
    ensures var q := DigitsEnd(t, p);
            && (forall i :: p <= i < q ==> '0' <= t[i] <= '9')
            && (q < |t| ==> !('0' <= t[q] <= '9'))
    decreases |t| - p
  {
    if p < |t| && Digit(t[p]) {
      EndOfDigits(t, p + 1);
    }
  }

  lemma NumberIff(t: string, s: nat, q: nat)
    requires s < |t|
    ensures NumberAt(t, s, q) <==> NumberTok(t, s) == Ok(Tok(JSON_NUM, 0, s, q, q))
    ensures NumberTok(t, s).Fail? ==> NumberTok(t, s) == Fail(JSON_BAD_SYNTAX)
  {
    var k := if t[s] == '-' then s + 1 else s;
    EndOfDigits(t, k);
  }

  lemma PrimitiveIff(t: string, s: nat, q: nat)
    requires s < |t| && t[s] !in {'"', '[', '{'}
    ensures NumberAt(t, s, q) || WordAt(t, s, q) <==> Accepts(PrimitiveTok(t, s), q)
    ensures NumberAt(t, s, q) ==> PrimitiveTok(t, s) == Ok(Tok('f', 0, s, q, q))
    ensures WordAt(t, s, q) ==> PrimitiveTok(t, s) == Ok(Tok('b', if t[s..q] == "true" then 1 else 0, s, q, q))
    ensures PrimitiveTok(t, s).Fail? ==> PrimitiveTok(t, s) == Fail(JSON_BAD_SYNTAX)
    ensures PrimitiveTok(t, s).Ok? ==> PrimitiveTok(t, s).tok.kind in {JSON_BOOL, JSON_NUM}
  {
    NumberIff(t, s, q);
    Prefixes(t, s, q, "true");
    Prefixes(t, s, q, "false");
    if "true" <= t[s..] || "false" <= t[s..] {
      assert t[s..][0] == t[s];
      assert !NumberAt(t, s, q);
    }
  }

  lemma Prefixes(t: string, s: nat, q: nat, w: string)
    requires s < |t| && w != ""
    ensures s < q <= |t| && t[s..q] == w <==> w <= t[s..] && q == s + |w|
  {
    if w <= t[s..] {
      assert t[s..][..|w|] == t[s..s + |w|];
    }
    if s < q <= |t| && t[s..q] == w {
      assert t[s..][..q - s] == t[s..q];
    }
  }

  // ---- What is accepted --------------------------------------------------

  function Closer(kind: char): char {
    if kind == '{' then '}' else ']'
  }

  /** One element with what comes before it; JSON_END where the bracket closes. */
  function Turn(t: string, p: nat, kind: char, count: nat): (r: Result)
    requires p <= |t|
    ensures r.Ok? ==> p < After(r.tok) <= |t|
  {
    var first := Rec(t, p, ELEMENT);
    if first.Fail? then first
    else if Closing(first.tok.kind) then Fail(JSON_END)
    else Element(t, first.tok, kind, count)
  }

  /** The loop of jsonparseaggregate, turn by turn. */
  lemma ByTurns(t: string, start: nat, p: nat, kind: char, count: nat)
    requires 0 < start <= p <= |t|
    ensures var s, r := NumberText.SkipSpace(t, p), Turn(t, p, kind, count);
            Elements(t, start, p, kind, count) ==
            if s < |t| && Closing(t[s]) then
              if t[s] == Closer(kind) then Ok(Tok(kind, count, start - 1, s + 1, start)) else Fail(JSON_BAD_SYNTAX)
            else if r.Fail? then r
            else Elements(t, start, After(r.tok), kind, count + 1)
    ensures var s := NumberText.SkipSpace(t, p);
            s < |t| && Closing(t[s]) ==> Turn(t, p, kind, count) == Fail(JSON_END)
  {
    FirstToken(t, p, ELEMENT);
  }

  /** Where the first token of any kind stands, and what it is. */
  lemma FirstToken(t: string, p: nat, flags: JsonParse.Flags)
    requires p <= |t|
    ensures var s := NumberText.SkipSpace(t, p);
            && (s < |t| && Punctuation(t[s]) ==>
                  Rec(t, p, flags) == if flags.punct then Ok(Tok(t[s], 0, s, s + 1, s + 1)) else Fail(JSON_BAD_SYNTAX))
            && (s < |t| && !Punctuation(t[s]) ==>
                  && (Rec(t, p, flags).Ok? ==> !Punctuation(Rec(t, p, flags).tok.kind))
                  && (flags.primitives ==> Rec(t, p, flags) == Rec(t, s, PRIMITIVE)))
            && (s == |t| ==> Rec(t, p, flags) == Fail(if flags.end then JSON_END else JSON_INCOMPLETE))
  {
    Skipped(t, p);
    var s := NumberText.SkipSpace(t, p);
    SolidIs(t, p, s);
    if s < |t| && Aggregate(t[s]) {
      CountGrows(t, s + 1, s + 1, t[s], 0);
    }
  }

  lemma {:induction false} CountGrows(t: string, start: nat, p: nat, kind: char, count: nat)
    requires 0 < start <= p <= |t|
    ensures var r := Elements(t, start, p, kind, count);
            r.Ok? ==> r.tok.value >= count && r.tok.kind == kind && r.tok.start == start - 1 && r.tok.next == start
    decreases |t| - p
  {
    var first := Rec(t, p, ELEMENT);
    if first.Ok? && !Closing(first.tok.kind) {
      var r := Element(t, first.tok, kind, count);
      if r.Ok? {
        CountGrows(t, start, After(r.tok), kind, count + 1);
      }
    }
  }

  lemma {:induction false} ValueIff(t: string, p: nat, q: nat)
    requires p <= |t|
    ensures ValueAt(t, p, q) <==> Accepts(Rec(t, p, PRIMITIVE), q)
    decreases |t| - p, 2
  {
    Skipped(t, p);
    var s := NumberText.SkipSpace(t, p);
    ValueStarts(t, p, q);
    FirstToken(t, p, PRIMITIVE);
    if s < |t| {
      BareIff(t, s, q);
    }
  }

  lemma {:induction false} BareIff(t: string, s: nat, q: nat)
    requires s < |t| && !NumberText.IsSpace(t[s])
    ensures BareAt(t, s, q) <==> !Punctuation(t[s]) && Accepts(Rec(t, s, PRIMITIVE), q)
    decreases |t| - s, 1
  {
    SolidIs(t, s, s);
    WordStarts(t, s, q);
    var r := Rec(t, s, PRIMITIVE);
    if Aggregate(t[s]) {
      CountGrows(t, s + 1, s + 1, t[s], 0);
      forall n: nat ensures AggregateAt(t, s, q, n) <==> r == Ok(Tok(t[s], n, s, q, s + 1)) {
        AggregateIff(t, s, q, n);
      }
      if Accepts(r, q) {
        assert AggregateAt(t, s, q, r.tok.value);
      }
    } else if Punctuation(t[s]) {
      if BareAt(t, s, q) {
        BareIsSolid(t, s, q);
      }
    } else if t[s] == '"' {
      StringIff(t, s, q);
    } else {
      PrimitiveIff(t, s, q);
    }
  }

  lemma {:induction false} AggregateIff(t: string, s: nat, q: nat, n: nat)
    requires s < |t| && Aggregate(t[s])
    ensures AggregateAt(t, s, q, n) <==> Rec(t, s, PRIMITIVE) == Ok(Tok(t[s], n, s, q, s + 1))
    decreases |t| - s, 0
  {
    SolidIs(t, s, s);
    if q > 0 {
      RestIff(t, s + 1, s + 1, t[s], 0, q - 1, n);
    }
  }

  lemma {:induction false} RestIff(t: string, start: nat, p: nat, kind: char, count: nat, q: nat, n: nat)
    requires 0 < start <= p <= |t| && Aggregate(kind)
    ensures q < |t| && t[q] == Closer(kind) && RestAt(t, p, q, kind == '{', count == 0, n) <==>
            Elements(t, start, p, kind, count) == Ok(Tok(kind, count + n, start - 1, q + 1, start))
    decreases |t| - p, 7
  {
    hide TurnAt, Turn, Rec, Element;
    var s, r := NumberText.SkipSpace(t, p), Turn(t, p, kind, count);
    Skipped(t, p);
    ByTurns(t, start, p, kind, count);
    var obj, none := kind == '{', count == 0;
    forall m: nat ensures TurnAt(t, p, m, obj, none) <==> Accepts(r, m) {
      TurnIff(t, p, m, kind, count);
    }
    if r.Ok? {
      CountGrows(t, start, After(r.tok), kind, count + 1);
      if n > 0 {
        RestIff(t, start, After(r.tok), kind, count + 1, q, n - 1);
        assert TurnAt(t, p, After(r.tok), obj, none);
      }
    }
    if n == 0 && q < |t| && Blank(t, p, q) && t[q] == Closer(kind) {
      SolidIs(t, p, q);
    }
  }

  lemma {:induction false} TurnIff(t: string, p: nat, m: nat, kind: char, count: nat)
    requires p <= |t| && Aggregate(kind)
    ensures TurnAt(t, p, m, kind == '{', count == 0) <==> Accepts(Turn(t, p, kind, count), m)
    decreases |t| - p, 6
  {
    if count == 0 {
      FirstTurnIff(t, p, m, kind);
    } else {
      LaterTurnIff(t, p, m, kind, count);
    }
  }

  lemma {:induction false} FirstTurnIff(t: string, p: nat, m: nat, kind: char)
    requires p <= |t| && Aggregate(kind)
    ensures TurnAt(t, p, m, kind == '{', true) <==> Accepts(Turn(t, p, kind, 0), m)
    decreases |t| - p, 5
  {
    hide Rec, ElementAt;
    Skipped(t, p);
    FirstToken(t, p, ELEMENT);
    ElementIff(t, p, m, kind, ELEMENT);
    if MarkAt(t, p, m) {
      SolidIs(t, p, m - 1);
    }
  }

  lemma {:induction false} LaterTurnIff(t: string, p: nat, m: nat, kind: char, count: nat)
    requires p <= |t| && Aggregate(kind) && count > 0
    ensures TurnAt(t, p, m, kind == '{', false) <==> Accepts(Turn(t, p, kind, count), m)
    decreases |t| - p, 5
  {
    hide Rec, ElementAt;
    Skipped(t, p);
    FirstToken(t, p, ELEMENT);
    var s := NumberText.SkipSpace(t, p);
    forall c: nat | CommaAt(t, p, c) ensures c == s {
      SolidIs(t, p, c);
    }
    if s < |t| && t[s] == ',' {
      assert CommaAt(t, p, s);
      FirstToken(t, s + 1, PRIMITIVE);
      ElementIff(t, s + 1, m, kind, PRIMITIVE);
    }
  }

  /** The rest of a turn, from the first token of the element. */
  function Content(t: string, r: Result, kind: char): Result
    requires r.Ok? ==> r.tok.next <= |t|
  {
    if r.Fail? || kind != '{' then r
    else if r.tok.kind != JSON_STR then Fail(JSON_BAD_SYNTAX)
    else
      var colon := Rec(t, r.tok.next, PUNCT);
      if colon.Fail? then colon
      else if colon.tok.kind != ':' then Fail(JSON_BAD_SYNTAX)
      else Rec(t, colon.tok.next, PRIMITIVE)
  }

  lemma {:induction false} ElementIff(t: string, p: nat, m: nat, kind: char, flags: JsonParse.Flags)
    requires p <= |t| && Aggregate(kind) && flags.primitives && !flags.end
    ensures var s, r := NumberText.SkipSpace(t, p), Content(t, Rec(t, p, flags), kind);
            ElementAt(t, p, m, kind == '{') <==> (s < |t| ==> !Punctuation(t[s])) && Accepts(r, m)
    decreases |t| - p, 4
  {
    Skipped(t, p);
    var s, r := NumberText.SkipSpace(t, p), Rec(t, p, flags);
    FirstToken(t, p, flags);
    FirstToken(t, p, PRIMITIVE);
    if kind != '{' {
      ValueIff(t, p, m);
    } else {
      MemberIff(t, p, m, flags);
    }
  }

  lemma {:induction false} MemberIff(t: string, p: nat, m: nat, flags: JsonParse.Flags)
    requires p <= |t| && flags.primitives && !flags.end
    ensures MemberAt(t, p, m) <==> Accepts(Content(t, Rec(t, p, flags), '{'), m)
    decreases |t| - p, 3
  {
    hide Rec, ValueAt;
    Skipped(t, p);
    NameIff(t, p, flags);
    var s, r := NumberText.SkipSpace(t, p), Rec(t, p, flags);
    if r.Ok? && r.tok.kind == JSON_STR {
      var k := r.tok.next;
      Skipped(t, k);
      ColonIff(t, k);
      var c := NumberText.SkipSpace(t, k);
      if c < |t| && t[c] == ':' {
        ValueIff(t, c + 1, m);
        if ValueAt(t, c + 1, m) {
          ValueEnds(t, c + 1, m);
          assert ColonAt(t, k, c);
          assert MemberAt(t, p, m);
        }
      }
    }
    if MemberAt(t, p, m) {
      MemberParts(t, p, m);
    }
  }

  lemma ValueEnds(t: string, p: nat, q: nat)
    requires ValueAt(t, p, q)
    ensures p < q <= |t|
  {
  }

  /** The parts of a member are where the parser looks for them. */
  lemma MemberParts(t: string, p: nat, m: nat)
    requires p <= |t| && MemberAt(t, p, m)
    ensures var s := NumberText.SkipSpace(t, p);
            && s < |t| && t[s] == '"' && StringTok(t, s + 1).Ok?
            && var k := StringTok(t, s + 1).tok.next; var c := NumberText.SkipSpace(t, k);
               c < |t| && t[c] == ':' && ValueAt(t, c + 1, m)
  {
    hide ValueAt;
    var s: nat, k: nat, c: nat :| p <= s < k <= c < m <= |t|
      && Blank(t, p, s) && StringAt(t, s, k) && ColonAt(t, k, c) && ValueAt(t, c + 1, m);
    SolidIs(t, p, s);
    SolidIs(t, k, c);
    StringIff(t, s, k);
  }

  lemma NameIff(t: string, p: nat, flags: JsonParse.Flags)
    requires p <= |t| && flags.primitives
    ensures var s, r := NumberText.SkipSpace(t, p), Rec(t, p, flags);
            && (r.Ok? && r.tok.kind == JSON_STR <==> s < |t| && t[s] == '"' && StringTok(t, s + 1).Ok?)
            && (s < |t| && t[s] == '"' ==> r == StringTok(t, s + 1))
            && (r.Ok? && r.tok.kind == JSON_STR ==> r.tok.next <= |t| && StringAt(t, s, r.tok.next))
  {
    Skipped(t, p);
    var s := NumberText.SkipSpace(t, p);
    FirstToken(t, p, flags);
    SolidIs(t, p, s);
    hide Elements;
    if s < |t| {
      if t[s] == '"' {
        var r := StringTok(t, s + 1);
        StringIff(t, s, if r.Ok? then r.tok.next else 0);
      } else if Aggregate(t[s]) {
        CountGrows(t, s + 1, s + 1, t[s], 0);
      } else if !Punctuation(t[s]) {
        PrimitiveIff(t, s, 0);
      }
    }
  }

  lemma ColonIff(t: string, k: nat)
    requires k <= |t|
    ensures var c, r := NumberText.SkipSpace(t, k), Rec(t, k, PUNCT);
            && (r.Ok? && r.tok.kind == ':' <==> c < |t| && t[c] == ':')
            && (c < |t| && t[c] == ':' ==> r == Ok(Tok(':', 0, c, c + 1, c + 1)))
  {
    FirstToken(t, k, PUNCT);
  }

  // ---- What is incomplete --------------------------------------------------

  lemma CutStarts(t: string, p: nat, strings: bool)
    requires p <= |t|
    ensures var s := NumberText.SkipSpace(t, p);
            CutAt(t, p, strings) <==>
            s < |t| ==> (strings && OpenString(t, s)) || (Aggregate(t[s]) && CutRest(t, s + 1, t[s] == '{', true))
  {
    hide CutRest;
    Skipped(t, p);
    if Blank(t, p, |t|) {
      SolidIs(t, p, |t|);
    }
    forall s: nat | s < |t| && Blank(t, p, s) && t[s] in {'"', '[', '{'} ensures NumberText.SkipSpace(t, p) == s {
      SolidIs(t, p, s);
    }
  }

  lemma {:induction false} CutIff(t: string, p: nat, flags: JsonParse.Flags)
    requires p <= |t| && !flags.end
    ensures CutAt(t, p, flags.primitives) <==> Rec(t, p, flags) == Fail(JSON_INCOMPLETE)
    decreases |t| - p, 1
  {
    CutStarts(t, p, flags.primitives);
    Skipped(t, p);
    var s := NumberText.SkipSpace(t, p);
    if s < |t| {
      if Aggregate(t[s]) {
        CutRestIff(t, s + 1, s + 1, t[s], 0);
      } else if t[s] == '"' {
        StringIff(t, s, 0);
      } else {
        PrimitiveIff(t, s, 0);
      }
    }
  }

  lemma {:induction false} CutRestIff(t: string, start: nat, p: nat, kind: char, count: nat)
    requires 0 < start <= p <= |t| && Aggregate(kind)
    ensures CutRest(t, p, kind == '{', count == 0) <==> Elements(t, start, p, kind, count) == Fail(JSON_INCOMPLETE)
    decreases |t| - p, 4
  {
    hide TurnAt, Turn, Rec, Element, CutTurn;
    var r := Turn(t, p, kind, count);
    ByTurns(t, start, p, kind, count);
    CutTurnIff(t, p, kind, count);
    var obj, none := kind == '{', count == 0;
    forall m: nat ensures TurnAt(t, p, m, obj, none) <==> Accepts(r, m) {
      TurnIff(t, p, m, kind, count);
    }
    if r.Ok? {
      CutRestIff(t, start, After(r.tok), kind, count + 1);
      assert TurnAt(t, p, After(r.tok), obj, none);
    }
  }

  lemma {:induction false} CutTurnIff(t: string, p: nat, kind: char, count: nat)
    requires p <= |t| && Aggregate(kind)
    ensures CutTurn(t, p, kind == '{', count == 0) <==> Turn(t, p, kind, count) == Fail(JSON_INCOMPLETE)
    decreases |t| - p, 3
  {
    hide Rec, CutAt, CutMember;
    Skipped(t, p);
    FirstToken(t, p, ELEMENT);
    CutIff(t, p, ELEMENT);
    var s := NumberText.SkipSpace(t, p);
    if count == 0 {
      CutContentIff(t, p, kind, ELEMENT);
    } else {
      forall c: nat | CommaAt(t, p, c) ensures c == s {
        SolidIs(t, p, c);
      }
      if s < |t| && t[s] == ',' {
        assert CommaAt(t, p, s);
        CutContentIff(t, s + 1, kind, PRIMITIVE);
      }
    }
  }

  lemma {:induction false} CutContentIff(t: string, p: nat, kind: char, flags: JsonParse.Flags)
    requires p <= |t| && Aggregate(kind) && flags.primitives && !flags.end
    ensures CutAt(t, p, true) || (kind == '{' && CutMember(t, p)) <==>
            Content(t, Rec(t, p, flags), kind) == Fail(JSON_INCOMPLETE)
    decreases |t| - p, 2
  {
    hide Rec, CutAt;
    CutIff(t, p, flags);
    NameIff(t, p, flags);
    Skipped(t, p);
    var s, r := NumberText.SkipSpace(t, p), Rec(t, p, flags);
    if r.Ok? && r.tok.kind == JSON_STR {
      var k := r.tok.next;
      Skipped(t, k);
      ColonIff(t, k);
      CutIff(t, k, PUNCT);
      var c := NumberText.SkipSpace(t, k);
      if c < |t| && t[c] == ':' {
        assert ColonAt(t, k, c);
        CutIff(t, c + 1, PRIMITIVE);
      }
    }
    if CutMember(t, p) {
      CutMemberParts(t, p);
    }
  }

  lemma CutMemberParts(t: string, p: nat)
    requires p <= |t| && CutMember(t, p)
    ensures var s := NumberText.SkipSpace(t, p);
            && s < |t| && t[s] == '"' && StringTok(t, s + 1).Ok?
            && var k := StringTok(t, s + 1).tok.next; var c := NumberText.SkipSpace(t, k);
               CutAt(t, k, false) || (c < |t| && t[c] == ':' && CutAt(t, c + 1, true))
  {
    hide CutAt;
    var s: nat, k: nat :| p <= s < k <= |t| && Blank(t, p, s) && StringAt(t, s, k)
      && (CutAt(t, k, false) || exists c: nat :: k <= c < |t| && ColonAt(t, k, c) && CutAt(t, c + 1, true));
    SolidIs(t, p, s);
    StringIff(t, s, k);
    forall c: nat | ColonAt(t, k, c) ensures c == NumberText.SkipSpace(t, k) {
      SolidIs(t, k, c);
    }
  }

  // ---- The verdict ---------------------------------------------------------

  /** What a value is told as: its kind, the truth of a boolean or the size of an
      aggregate, where it starts and ends, and where to go on, which for an
      aggregate is inside. */
  ghost predicate TokenAt(t: string, s: nat, q: nat, tok: Tok) {
    || (StringAt(t, s, q) && tok == Tok('s', 0, s + 1, q - 1, q))
    || (NumberAt(t, s, q) && tok == Tok('f', 0, s, q, q))
    || (WordAt(t, s, q) && tok == Tok('b', if t[s..q] == "true" then 1 else 0, s, q, q))
    || (tok.value >= 0 && AggregateAt(t, s, q, tok.value) && tok == Tok(t[s], tok.value, s, q, s + 1))
  }

  /** A value without spaces before it is read as its token, and anything else is
      not read as a value. */
  lemma TokenIff(t: string, s: nat, q: nat, tok: Tok)
    requires s < |t|
    ensures TokenAt(t, s, q, tok) <==>
            && !NumberText.IsSpace(t[s]) && !Punctuation(t[s])
            && Rec(t, s, PRIMITIVE) == Ok(tok) && After(tok) == q
  {
    hide AggregateAt;
    WordStarts(t, s, q);
    if tok.value >= 0 && AggregateAt(t, s, q, tok.value) {
      AggregateStarts(t, s, q, tok.value);
    }
    if !NumberText.IsSpace(t[s]) {
      SolidIs(t, s, s);
      if Aggregate(t[s]) {
        CountGrows(t, s + 1, s + 1, t[s], 0);
        if tok.value >= 0 {
          AggregateIff(t, s, q, tok.value);
        }
      } else if t[s] == '"' {
        StringIff(t, s, q);
      } else if !Punctuation(t[s]) {
        PrimitiveIff(t, s, q);
      }
    }
  }

  /** jsonparse on a whole text: an aggregate behind spaces, of so many elements,
      or spaces only, or an aggregate cut short; all else is bad syntax. */
  method Check(t: string) returns (r: Result)
    ensures forall s: nat, q: nat, n: nat :: Blank(t, 0, s) && AggregateAt(t, s, q, n) ==>
              r == Ok(Tok(t[s], n, s, q, s + 1))
    ensures r.Ok? ==> exists s: nat, q: nat, n: nat :: Blank(t, 0, s) && AggregateAt(t, s, q, n)
    ensures r == Fail(JSON_END) <==> Blank(t, 0, |t|)
    ensures r == Fail(JSON_INCOMPLETE) <==> exists s: nat :: Blank(t, 0, s) && CutAggregate(t, s)
  {
    RootAccepted(t);
    RootIncomplete(t);
    r := Parse(t, None);
  }

  ghost predicate CutAggregate(t: string, s: nat) {
    s < |t| && t[s] in {'[', '{'} && CutRest(t, s + 1, t[s] == '{', true)
  }

  lemma RootAccepted(t: string)
    ensures var r := Next(t, 0, JsonParse.Flags(false, false, true));
            && (forall s: nat, q: nat, n: nat :: Blank(t, 0, s) && AggregateAt(t, s, q, n) ==>
                  r == Ok(Tok(t[s], n, s, q, s + 1)))
            && (r.Ok? ==> exists s: nat, q: nat, n: nat :: Blank(t, 0, s) && AggregateAt(t, s, q, n))
  {
    hide AggregateAt, Rec, Elements;
    RootIs(t);
    var s := NumberText.SkipSpace(t, 0);
    Skipped(t, 0);
    forall s': nat, q: nat, n: nat | Blank(t, 0, s') && AggregateAt(t, s', q, n)
      ensures s' == s < |t| && Aggregate(t[s])
    {
      AggregateStarts(t, s', q, n);
      SolidIs(t, 0, s');
    }
    if s < |t| && Aggregate(t[s]) {
      var r := Elements(t, s + 1, s + 1, t[s], 0);
      CountGrows(t, s + 1, s + 1, t[s], 0);
      forall q: nat, n: nat ensures AggregateAt(t, s, q, n) <==> r == Ok(Tok(t[s], n, s, q, s + 1)) {
        AggregateIff(t, s, q, n);
        RecAggregate(t, s);
      }
      if r.Ok? {
        assert AggregateAt(t, s, r.tok.end, r.tok.value);
      }
    }
  }

  lemma RecAggregate(t: string, s: nat)
    requires s < |t| && Aggregate(t[s])
    ensures Rec(t, s, PRIMITIVE) == Elements(t, s + 1, s + 1, t[s], 0)
  {
    SolidIs(t, s, s);
  }

  lemma RootIncomplete(t: string)
    ensures var r := Next(t, 0, JsonParse.Flags(false, false, true));
            && (r == Fail(JSON_END) <==> Blank(t, 0, |t|))
            && (r == Fail(JSON_INCOMPLETE) <==> exists s: nat :: Blank(t, 0, s) && CutAggregate(t, s))
  {
    hide CutRest, Rec, Elements;
    RootIs(t);
    var s := NumberText.SkipSpace(t, 0);
    Skipped(t, 0);
    if Blank(t, 0, |t|) {
      SolidIs(t, 0, |t|);
    }
    forall s': nat | Blank(t, 0, s') && CutAggregate(t, s') ensures s' == s {
      SolidIs(t, 0, s');
    }
    if s < |t| && Aggregate(t[s]) {
      CutRestIff(t, s + 1, s + 1, t[s], 0);
      NoEnd(t, s + 1, s + 1, t[s], 0);
      assert Blank(t, 0, s) && CutRest(t, s + 1, t[s] == '{', true) ==> CutAggregate(t, s);
    }
  }

  lemma AggregateStarts(t: string, s: nat, q: nat, n: nat)
    requires AggregateAt(t, s, q, n)
    ensures s < |t| && Aggregate(t[s])
  {
  }

  lemma RootIs(t: string)
    ensures var s, r := NumberText.SkipSpace(t, 0), Next(t, 0, JsonParse.Flags(false, false, true));
            r == if s == |t| then Fail(JSON_END)
                 else if Aggregate(t[s]) then Elements(t, s + 1, s + 1, t[s], 0)
                 else Fail(JSON_BAD_SYNTAX)
  {
    var s := NumberText.SkipSpace(t, 0);
    if s < |t| && Aggregate(t[s]) {
      CountGrows(t, s + 1, s + 1, t[s], 0);
    }
  }

  /** Inside brackets the end of the text is never taken for the end. */
  lemma {:induction false} NoEnd(t: string, start: nat, p: nat, kind: char, count: nat)
    requires 0 < start <= p <= |t|
    ensures Elements(t, start, p, kind, count) != Fail(JSON_END)
    decreases |t| - p, 2
  {
    hide Rec, Element;
    NoEndAt(t, p, ELEMENT);
    var first := Rec(t, p, ELEMENT);
    if first.Ok? && !Closing(first.tok.kind) {
      NoEndIn(t, p, first.tok, kind, count);
      var r := Element(t, first.tok, kind, count);
      if r.Ok? {
        NoEnd(t, start, After(r.tok), kind, count + 1);
      }
    }
  }

  lemma {:induction false} NoEndIn(t: string, p: nat, first: Tok, kind: char, count: nat)
    requires p < first.next <= |t| && first.end <= |t|
    ensures Element(t, first, kind, count) != Fail(JSON_END)
    decreases |t| - p, 1
  {
    hide Rec;
    NoEndAt(t, first.next, PRIMITIVE);
    var r := if count == 0 then Ok(first)
             else if first.kind != ',' then Fail(JSON_BAD_SYNTAX)
             else Rec(t, first.next, PRIMITIVE);
    if r.Ok? {
      NoEndAt(t, r.tok.next, PUNCT);
      var colon := Rec(t, r.tok.next, PUNCT);
      if colon.Ok? {
        NoEndAt(t, colon.tok.next, PRIMITIVE);
      }
    }
  }

  lemma {:induction false} NoEndAt(t: string, p: nat, flags: JsonParse.Flags)
    requires p <= |t| && !flags.end
    ensures Rec(t, p, flags) != Fail(JSON_END)
    decreases |t| - p, 0
  {
    var s := NumberText.SkipSpace(t, p);
    if s < |t| {
      if Aggregate(t[s]) {
        NoEnd(t, s + 1, s + 1, t[s], 0);
      } else {
        PrimitiveError(t, s);
      }
    }
  }

  lemma PrimitiveError(t: string, s: nat)
    requires s < |t|
    ensures PrimitiveTok(t, s) != Fail(JSON_END)
  {
  }

  // ---- Inside what was accepted --------------------------------------------

  lemma {:induction false} SkipBlank(t: string, p: nat, s: nat)
    requires Blank(t, p, s)
    ensures NumberText.SkipSpace(t, p) == NumberText.SkipSpace(t, s)
    decreases s - p
  {
    if p < s {
      SkipBlank(t, p + 1, s);
    }
  }

  lemma BlankYields(t: string, p: nat, s: nat)
    requires Blank(t, p, s)
    ensures Yields(t, p, [], s)
  {
    SkipBlank(t, p, s);
    assert Rec(t, p, ANY) == Rec(t, s, ANY);
    assert Next(t, p, ANY) == Next(t, s, ANY);
    assert [] + Stream(t, s) == Stream(t, s);
  }

  lemma PunctYields(t: string, p: nat, s: nat)
    requires Blank(t, p, s) && s < |t| && Punctuation(t[s])
    ensures Yields(t, p, [], s + 1)
  {
    hide Yields;
    BlankYields(t, p, s);
    YieldsPunct(t, s);
    YieldsBoth(t, p, [], s, [], s + 1);
    var none: seq<Tok> := [];
    assert none + none == none;
  }

  /** The token of a value, and those inside of it. */
  lemma {:induction false} ValueYields(t: string, p: nat, q: nat) returns (toks: seq<Tok>)
    requires ValueAt(t, p, q)
    ensures Yields(t, p, toks, q)
    decreases q - p, 1
  {
    hide Yields, Rec, AggregateAt;
    var s: nat :| p <= s < q && Blank(t, p, s) && BareAt(t, s, q);
    BlankYields(t, p, s);
    BareIsSolid(t, s, q);
    BareIff(t, s, q);
    var tok := Rec(t, s, PRIMITIVE).tok;
    TokenIff(t, s, q, tok);
    SolidIs(t, s, s);
    FirstToken(t, s, ANY);
    YieldsOne(t, s, tok);
    YieldsBoth(t, p, [], s, [tok], tok.next);
    toks := [] + [tok];
    if Aggregate(tok.kind) {
      var inner := InsideYields(t, s, q, tok.value);
      YieldsBoth(t, p, toks, s + 1, inner, q);
      toks := toks + inner;
    }
  }

  /** What the source says of an aggregate that was accepted: reading its tokens
      one by one does not fail before its end. */
  lemma {:induction false} InsideYields(t: string, s: nat, q: nat, n: nat) returns (toks: seq<Tok>)
    requires AggregateAt(t, s, q, n)
    ensures Yields(t, s + 1, toks, q)
    decreases q - s, 0
  {
    hide Yields, RestAt;
    var inner := RestYields(t, s + 1, q - 1, t[s] == '{', true, n);
    YieldsPunct(t, q - 1);
    YieldsBoth(t, s + 1, inner, q - 1, [], q);
    toks := inner + [];
  }

  lemma {:induction false} RestYields(t: string, p: nat, q: nat, obj: bool, first: bool, n: nat)
    returns (toks: seq<Tok>)
    requires RestAt(t, p, q, obj, first, n)
    ensures Yields(t, p, toks, q)
    decreases q - p, 5
  {
    hide Yields, TurnAt;
    if n == 0 {
      BlankYields(t, p, q);
      return [];
    }
    var m: nat :| p < m <= q && TurnAt(t, p, m, obj, first) && RestAt(t, m, q, obj, false, n - 1);
    var x := TurnYields(t, p, m, obj, first);
    var y := RestYields(t, m, q, obj, false, n - 1);
    YieldsBoth(t, p, x, m, y, q);
    return x + y;
  }

  lemma {:induction false} TurnYields(t: string, p: nat, q: nat, obj: bool, first: bool) returns (toks: seq<Tok>)
    requires TurnAt(t, p, q, obj, first)
    ensures Yields(t, p, toks, q)
    decreases q - p, 4
  {
    hide Yields, ElementAt;
    if first && ElementAt(t, p, q, obj) {
      toks := ElementYields(t, p, q, obj);
    } else if first {
      PunctYields(t, p, q - 1);
      toks := [];
    } else {
      var c: nat :| p <= c < q && CommaAt(t, p, c) && ElementAt(t, c + 1, q, obj);
      PunctYields(t, p, c);
      var x := ElementYields(t, c + 1, q, obj);
      YieldsBoth(t, p, [], c + 1, x, q);
      toks := [] + x;
    }
  }

  lemma {:induction false} ElementYields(t: string, p: nat, q: nat, obj: bool) returns (toks: seq<Tok>)
    requires ElementAt(t, p, q, obj)
    ensures Yields(t, p, toks, q)
    decreases q - p, 3
  {
    if obj {
      toks := MemberYields(t, p, q);
    } else {
      toks := ValueYields(t, p, q);
    }
  }

  lemma {:induction false} MemberYields(t: string, p: nat, q: nat) returns (toks: seq<Tok>)
    requires MemberAt(t, p, q)
    ensures Yields(t, p, toks, q)
    decreases q - p, 2
  {
    hide Yields, ValueAt, Rec;
    var s: nat, k: nat, c: nat :| p <= s < k <= c < q <= |t|
      && Blank(t, p, s) && StringAt(t, s, k) && ColonAt(t, k, c) && ValueAt(t, c + 1, q);
    BlankYields(t, p, s);
    var tok := Tok('s', 0, s + 1, k - 1, k);
    TokenIff(t, s, k, tok);
    SolidIs(t, s, s);
    FirstToken(t, s, ANY);
    YieldsOne(t, s, tok);
    PunctYields(t, k, c);
    var x := ValueYields(t, c + 1, q);
    YieldsBoth(t, p, [], s, [tok], k);
    YieldsBoth(t, p, [] + [tok], k, [], c + 1);
    YieldsBoth(t, p, [] + [tok] + [], c + 1, x, q);
    toks := [] + [tok] + [] + x;
  }

  /** Behind an aggregate with nothing but spaces after it the stream ends; "[,]"
      is such an aggregate, of size 1 and with no token inside. */
  lemma AcceptedIsRead(t: string, s: nat, q: nat, n: nat)
    requires AggregateAt(t, s, q, n) && Blank(t, q, |t|)
    ensures StreamError(t, s + 1) == JSON_END
  {
    var toks := InsideYields(t, s, q, n);
    BlankYields(t, q, |t|);
  }

  lemma LoneComma()
    ensures AggregateAt("[,]", 0, 3, 1)
    ensures Next("[,]", 1, ANY) == Fail(JSON_END)
  {
    var t := "[,]";
    assert RestAt(t, 2, 2, false, false, 0);
    assert TurnAt(t, 1, 2, false, true);
    AggregateIff(t, 0, 3, 1);
    PunctReads(t, 1, ANY);
    PunctReads(t, 2, ANY);
  }
}
