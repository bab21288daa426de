/** The pull parser of src/json.c: every aggregate is checked to its end when it
    is met, and then entered again, token by token. Positions index the text;
    the position past its end holds the NUL. */
module JsonParse {
  import NumberText
  import opened JsonText
  import opened Wrappers

  datatype Error = JSON_END | JSON_INCOMPLETE | JSON_BAD_SYNTAX

  const JSON_BOOL: char := 'b'
  const JSON_NUM: char := 'f'
  const JSON_STR: char := 's'
  const JSON_ARR: char := '['
  const JSON_OBJ: char := '{'

  /** jsontok_t; `value` is the truth of a boolean or the size of an aggregate. */
  datatype Tok = Tok(kind: char, value: int, start: nat, end: nat, next: nat)

  datatype Result = Ok(tok: Tok) | Fail(error: Error)

  datatype Flags = Flags(primitives: bool, punct: bool, end: bool)

  const ELEMENT := Flags(true, true, false)
  const PRIMITIVE := Flags(true, false, false)
  const PUNCT := Flags(false, true, false)

  predicate Aggregate(kind: char) {
    kind == JSON_ARR || kind == JSON_OBJ
  }

  predicate Closing(kind: char) {
    kind == ']' || kind == '}'
  }

  predicate Punctuation(kind: char) {
    kind == ',' || kind == ':' || Closing(kind)
  }

  // ---- Tokens ------------------------------------------------------------

  /** The quote that ends a string: the first without a backslash before it. */
  function StringEnd(t: string, p: nat): (q: nat)
    requires 0 < p <= |t|
    ensures p <= q <= |t|
    decreases |t| - p
  {
    if p == |t| || (t[p] == QUOTE && t[p - 1] != BACKSLASH) then p else StringEnd(t, p + 1)
  }

  /** jsonstring */
  function StringTok(t: string, p: nat): Result
    requires 0 < p <= |t|
  {
    var q := StringEnd(t, p);
    if q == |t| then Fail(JSON_INCOMPLETE) else Ok(Tok(JSON_STR, 0, p, q, q + 1))
  }

  function DigitsEnd(t: string, p: nat): (q: nat)
    requires p <= |t|
    ensures p <= q <= |t|
    decreases |t| - p
  {
    if p < |t| && Digit(t[p]) then DigitsEnd(t, p + 1) else p
  }

  /** jsonnum, where strtod meets an integer. */
  function NumberTok(t: string, p: nat): Result
    requires p < |t|
  {
    var k := if t[p] == '-' then p + 1 else p;
    var q := DigitsEnd(t, k);
    if q == k then Fail(JSON_BAD_SYNTAX) else Ok(Tok(JSON_NUM, 0, p, q, q))
  }

  /** The default branch of jsonparserec. */
  function PrimitiveTok(t: string, p: nat): Result
    requires p < |t|
  {
    if "true" <= t[p..] then Ok(Tok(JSON_BOOL, 1, p, p + 4, p + 4))
    else if "false" <= t[p..] then Ok(Tok(JSON_BOOL, 0, p, p + 5, p + 5))
    else NumberTok(t, p)
  }

  // ---- Recursive descent -------------------------------------------------

  predicate Advances(t: string, p: nat, r: Result) {
    r.Ok? ==> p < r.tok.next <= |t| && p < r.tok.end <= |t|
  }

  /** jsonparserec */
  function Rec(t: string, p: nat, flags: Flags): (r: Result)
    requires p <= |t|
    ensures Advances(t, p, r)
    decreases |t| - p, 0
  {
    var q := NumberText.SkipSpace(t, p);
    if q == |t| then Fail(if flags.end then JSON_END else JSON_INCOMPLETE)
    else
      var c := t[q];
      if Aggregate(c) then Elements(t, q + 1, q + 1, c, 0)
      else if Punctuation(c) then
        if flags.punct then Ok(Tok(c, 0, q, q + 1, q + 1)) else Fail(JSON_BAD_SYNTAX)
      else if !flags.primitives then Fail(JSON_BAD_SYNTAX)
      else if c == QUOTE then StringTok(t, q + 1)
      else PrimitiveTok(t, q)
  }

  /** Where an element ends that starts with this token. */
  function After(tok: Tok): nat {
    if Aggregate(tok.kind) then tok.end else tok.next
  }

  /** One turn of the loop of jsonparseaggregate, from its first token on: a
      comma unless it is the first, then in an object a key and a colon. The
      result is the token of the value. */
  function Element(t: string, first: Tok, kind: char, count: nat): (r: Result)
    requires first.next <= |t| && first.end <= |t|
    ensures r.Ok? ==> first == r.tok || (first.next < r.tok.next <= |t| && first.next < r.tok.end <= |t|)
    decreases |t| - first.next, 1
  {
    var r := if count == 0 then Ok(first)
             else if first.kind != ',' then Fail(JSON_BAD_SYNTAX)
             else Rec(t, first.next, PRIMITIVE);
    if r.Fail? || kind != JSON_OBJ then r
    else if r.tok.kind != JSON_STR then Fail(JSON_BAD_SYNTAX)
    else
      var colon := Rec(t, r.tok.next, PUNCT);
      if colon.Fail? then colon
      else if colon.tok.kind != ':' then Fail(JSON_BAD_SYNTAX)
      else Rec(t, colon.tok.next, PRIMITIVE)
  }

  /** The loop of jsonparseaggregate, with `count` elements behind it. */
  function Elements(t: string, start: nat, p: nat, kind: char, count: nat): (r: Result)
    requires 0 < start <= p <= |t|
    ensures r.Ok? ==> r.tok.next == start && p < r.tok.end <= |t|
    decreases |t| - p, 2
  {
    var first := Rec(t, p, ELEMENT);
    if first.Fail? then first
    else if Closing(first.tok.kind) then
      if first.tok.kind == (if kind == JSON_OBJ then '}' else ']')
      then Ok(Tok(kind, count, start - 1, first.tok.end, start))
      else Fail(JSON_BAD_SYNTAX)
    else
      var r := Element(t, first.tok, kind, count);
      if r.Fail? then r else Elements(t, start, After(r.tok), kind, count + 1)
  }

  /** jsonparse, from a position on: punctuation is passed over. */
  function Next(t: string, p: nat, flags: Flags): (r: Result)
    requires p <= |t|
    ensures Advances(t, p, r)
    decreases |t| - p
  {
    var r := Rec(t, p, flags);
    if r.Ok? && Punctuation(r.tok.kind) then Next(t, r.tok.next, flags) else r
  }

  // ---- The same, as the source runs it -----------------------------------

  method SkipSpaces(t: string, p: nat) returns (q: nat)
    requires p <= |t|
    ensures q == NumberText.SkipSpace(t, p)
  {
    q := p;
    while q < |t| && NumberText.IsSpace(t[q])
      invariant p <= q <= |t| && NumberText.SkipSpace(t, q) == NumberText.SkipSpace(t, p)
    {
      q := q + 1;
    }
  }

  method ParseString(t: string, p: nat) returns (r: Result)
    requires 0 < p <= |t|
    ensures r == StringTok(t, p)
  {
    var q := p;
    while q < |t| && !(t[q] == QUOTE && t[q - 1] != BACKSLASH)
      invariant p <= q <= |t| && StringEnd(t, q) == StringEnd(t, p)
    {
      q := q + 1;
    }
    if q == |t| {
      return Fail(JSON_INCOMPLETE);
    }
    return Ok(Tok(JSON_STR, 0, p, q, q + 1));
  }

  method ParseRec(t: string, p: nat, flags: Flags) returns (r: Result)
    requires p <= |t|
    ensures r == Rec(t, p, flags)
    decreases |t| - p, 0
  {
    var q := SkipSpaces(t, p);
    if q == |t| {
      return Fail(if flags.end then JSON_END else JSON_INCOMPLETE);
    }
    var c := t[q];
    if Aggregate(c) {
      r := ParseAggregate(t, q + 1, c);
    } else if Punctuation(c) {
      if !flags.punct {
        return Fail(JSON_BAD_SYNTAX);
      }
      return Ok(Tok(c, 0, q, q + 1, q + 1));
    } else if !flags.primitives {
      return Fail(JSON_BAD_SYNTAX);
    } else if c == QUOTE {
      r := ParseString(t, q + 1);
    } else {
      r := PrimitiveTok(t, q);
    }
  }

  method ParseAggregate(t: string, start: nat, kind: char) returns (r: Result)
    requires 0 < start <= |t| && Aggregate(kind)
    ensures r == Elements(t, start, start, kind, 0)
    decreases |t| - start, 2
  {
    var p, count := start, 0;
    while true
      invariant start <= p <= |t|
      invariant Elements(t, start, p, kind, count) == Elements(t, start, start, kind, 0)
      decreases |t| - p
    {
      var first := ParseRec(t, p, ELEMENT);
      if first.Fail? {
        return first;
      }
      if Closing(first.tok.kind) {
        if first.tok.kind != (if kind == JSON_OBJ then '}' else ']') {
          return Fail(JSON_BAD_SYNTAX);
        }
        return Ok(Tok(kind, count, start - 1, first.tok.end, start));
      }
      r := ParseElement(t, first.tok, kind, count);
      if r.Fail? {
        return;
      }
      p := After(r.tok);
      count := count + 1;
    }
  }

  method ParseElement(t: string, first: Tok, kind: char, count: nat) returns (r: Result)
    requires first.next <= |t| && first.end <= |t|
    ensures r == Element(t, first, kind, count)
    decreases |t| - first.next, 1
  {
    r := Ok(first);
    if count > 0 {
      if first.kind != ',' {
        return Fail(JSON_BAD_SYNTAX);
      }
      r := ParseRec(t, first.next, PRIMITIVE);
      if r.Fail? {
        return;
      }
    }
    if kind == JSON_OBJ {
      if r.tok.kind != JSON_STR {
        return Fail(JSON_BAD_SYNTAX);
      }
      r := ParseRec(t, r.tok.next, PUNCT);
      if r.Fail? {
        return;
      }
      if r.tok.kind != ':' {
        return Fail(JSON_BAD_SYNTAX);
      }
      r := ParseRec(t, r.tok.next, PRIMITIVE);
    }
  }

  /** jsonparse: None is the zeroed token of a first call. */
  method Parse(t: string, last: Option<nat>) returns (r: Result)
    requires last.Some? ==> last.value <= |t|
    ensures r == match last
                 case None => Next(t, 0, Flags(false, false, true))
                 case Some(p) => Next(t, p, Flags(true, true, true))
  {
    var p, flags := 0, Flags(false, false, true);
    if last.Some? {
      p, flags := last.value, Flags(true, true, true);
    }
    ghost var p0 := p;
    r := ParseRec(t, p, flags);
    while r.Ok? && Punctuation(r.tok.kind)
      invariant p <= |t| && r == Rec(t, p, flags) && Next(t, p, flags) == Next(t, p0, flags)
      decreases |t| - p
    {
      p := r.tok.next;
      r := ParseRec(t, p, flags);
    }
  }
}
