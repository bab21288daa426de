/** What the encoder wrote, the parser yields: the tree in preorder, sizes and
    all, and then the end of the text. */
module JsonRoundTrip {
  import NumberText
  import opened JsonText
  import opened JsonParse
  import opened Slices

  /** What may stand behind a value. */
  predicate Ended(t: string, p: nat) {
    p < |t| ==> t[p] in {',', ']', '}'}
  }

  // ---- Strings -----------------------------------------------------------

  lemma {:induction false} EscapeEnds(s: string)
    requires s != ""
    ensures Escape(s) != "" && (Escape(s)[|Escape(s)| - 1] == BACKSLASH <==> EndsInBackslash(s))
    decreases |s|
  {
    if |s| > 1 {
      EscapeEnds(s[1..]);
    } else {
      assert s[1..] == "";
      assert Escape(s) == Escaped(s[0]);
    }
  }

  /** The scan passes over escaped text, wherever a quote stands in it. */
  lemma {:induction false} ScanEscaped(t: string, p: nat, s: string)
    requires NoNul(s) && 0 < p && At(t, p, Escape(s))
    ensures p <= |t| && StringEnd(t, p) == StringEnd(t, p + |Escape(s)|)
    decreases |s|
  {
    if s != "" {
      var e := Escaped(s[0]);
      AtBoth(t, p, e, Escape(s[1..]));
      AtIndex(t, p, e, 0);
      if |e| == 2 {
        AtIndex(t, p, e, 1);
      }
      ScanEscaped(t, p + |e|, s[1..]);
    }
  }

  /** A written string ends at its closing quote, if and only if it does not end
      in a backslash itself. */
  lemma StringReadsBack(t: string, p: nat, s: string)
    requires NoNul(s) && 0 < p && At(t, p, Escape(s) + [QUOTE]) && t[p - 1] == QUOTE
    ensures StringEnd(t, p) == p + |Escape(s)| <==> !EndsInBackslash(s)
  {
    var q := p + |Escape(s)|;
    AtBoth(t, p, Escape(s), [QUOTE]);
    AtIndex(t, q, [QUOTE], 0);
    ScanEscaped(t, p, s);
    if s != "" {
      EscapeEnds(s);
      AtIndex(t, p, Escape(s), |Escape(s)| - 1);
    }
  }

  /** A string that is one backslash: the parser takes the quote that closes it
      for an escaped one and runs over the end of the text. */
  lemma BackslashRunsOn()
    ensures Rec(Text(Str([BACKSLASH])), 0, ANY) == Fail(JSON_INCOMPLETE)
  {
    var t := Text(Str([BACKSLASH]));
    assert Escape([BACKSLASH]) == Escaped(BACKSLASH) + Escape([]);
    assert t == [QUOTE, BACKSLASH, BACKSLASH, QUOTE];
    NoSpace(t, 0);
    assert StringEnd(t, 4) == 4;
    assert StringEnd(t, 3) == StringEnd(t, 4);
    assert StringEnd(t, 1) == StringEnd(t, 2) == StringEnd(t, 3);
  }

  lemma {:induction false} ScanName(t: string, p: nat, name: string)
    requires PlainName(name) && 0 < p && At(t, p, name + [QUOTE]) && t[p - 1] != BACKSLASH
    ensures StringEnd(t, p) == p + |name|
    decreases |name|
  {
    AtIndex(t, p, name + [QUOTE], 0);
    if name != "" {
      assert name + [QUOTE] == [name[0]] + (name[1..] + [QUOTE]);
      AtBoth(t, p, [name[0]], name[1..] + [QUOTE]);
      assert name[0] in name && forall c :: c in name[1..] ==> c in name;
      assert t[p..p + 1][0] == t[p];
      ScanName(t, p + 1, name[1..]);
    }
  }

  // ---- Numbers -----------------------------------------------------------

  lemma {:induction false} DigitsRun(t: string, p: nat, q: nat)
    requires p <= q <= |t| && (forall i :: p <= i < q ==> Digit(t[i])) && (q < |t| ==> !Digit(t[q]))
    ensures DigitsEnd(t, p) == q
    decreases q - p
  {
    if p < q {
      DigitsRun(t, p + 1, q);
    }
  }

  lemma NumberReadsBack(t: string, p: nat, d: string)
    requires Integer(d) && At(t, p, d) && Ended(t, p + |d|)
    ensures p < |t| && NumberTok(t, p) == Ok(Tok(JSON_NUM, 0, p, p + |d|, p + |d|))
  {
    var k := if d[0] == '-' then 1 else 0;
    AtIndex(t, p, d, 0);
    forall i | p + k <= i < p + |d| ensures Digit(t[i]) {
      AtIndex(t, p, d, i - p);
    }
    DigitsRun(t, p + k, p + |d|);
  }

  // ---- The token of a value ----------------------------------------------

  function ItemCount(items: Items): nat {
    match items
    case NoItems => 0
    case Item(_, rest) => 1 + ItemCount(rest)
  }

  function FieldCount(fields: Fields): nat {
    match fields
    case NoFields => 0
    case Field(_, _, rest) => 1 + FieldCount(rest)
  }

  /** The token for a value whose text starts at p. */
  function TokOf(v: Value, p: nat): (tok: Tok)
    ensures !Punctuation(tok.kind) && After(tok) == p + |Text(v)|
  {
    var n := |Text(v)|;
    match v
    case Str(_) => Tok(JSON_STR, 0, p + 1, p + n - 1, p + n)
    case Num(_) => Tok(JSON_NUM, 0, p, p + n, p + n)
    case Bool(b) => Tok(JSON_BOOL, if b then 1 else 0, p, p + n, p + n)
    case Arr(items) => Tok(JSON_ARR, ItemCount(items), p, p + n, p + 1)
    case Obj(fields) => Tok(JSON_OBJ, FieldCount(fields), p, p + n, p + 1)
  }

  predicate Root(v: Value) {
    v.Arr? || v.Obj?
  }

  lemma NoSpace(t: string, p: nat)
    requires p < |t| && !NumberText.IsSpace(t[p])
    ensures NumberText.SkipSpace(t, p) == p
  {
  }

  lemma PunctReads(t: string, p: nat, flags: JsonParse.Flags)
    requires p < |t| && Punctuation(t[p]) && flags.punct
    ensures Rec(t, p, flags) == Ok(Tok(t[p], 0, p, p + 1, p + 1))
  {
    NoSpace(t, p);
  }

  lemma StrReads(t: string, p: nat, s: string, flags: JsonParse.Flags)
    requires ValidValue(Str(s)) && At(t, p, Text(Str(s))) && flags.primitives
    ensures Rec(t, p, flags) == Ok(TokOf(Str(s), p))
  {
    assert Text(Str(s)) == [QUOTE] + (Escape(s) + [QUOTE]);
    AtBoth(t, p, [QUOTE], Escape(s) + [QUOTE]);
    AtIndex(t, p, [QUOTE], 0);
    NoSpace(t, p);
    StringReadsBack(t, p + 1, s);
  }

  lemma NumReads(t: string, p: nat, d: string, flags: JsonParse.Flags)
    requires Integer(d) && At(t, p, d) && Ended(t, p + |d|) && flags.primitives
    ensures Rec(t, p, flags) == Ok(TokOf(Num(d), p))
  {
    AtIndex(t, p, d, 0);
    NoSpace(t, p);
    NumberReadsBack(t, p, d);
    assert t[p..][0] == t[p];
    assert "true"[0] == 't' && "false"[0] == 'f';
  }

  lemma BoolReads(t: string, p: nat, b: bool, flags: JsonParse.Flags)
    requires At(t, p, Text(Bool(b))) && flags.primitives
    ensures Rec(t, p, flags) == Ok(TokOf(Bool(b), p))
  {
    var s := Text(Bool(b));
    AtIndex(t, p, s, 0);
    NoSpace(t, p);
    assert t[p..][..|s|] == s;
    assert "true" <= t[p..] ==> t[p..][0] == 't';
  }

  lemma ArrayText(t: string, p: nat, items: Items)
    requires At(t, p, Text(Arr(items)))
    ensures At(t, p + 1, ItemsText(items, true) + "]")
    ensures |Text(Arr(items))| == |ItemsText(items, true)| + 2 && t[p] == '['
  {
    hide ItemsText;
    assert Text(Arr(items)) == "[" + (ItemsText(items, true) + "]");
    AtBoth(t, p, "[", ItemsText(items, true) + "]");
    AtIndex(t, p, "[", 0);
  }

  lemma ObjectText(t: string, p: nat, fields: Fields)
    requires At(t, p, Text(Obj(fields)))
    ensures At(t, p + 1, FieldsText(fields, true) + "}")
    ensures |Text(Obj(fields))| == |FieldsText(fields, true)| + 2 && t[p] == '{'
  {
    hide FieldsText;
    assert Text(Obj(fields)) == "{" + (FieldsText(fields, true) + "}");
    AtBoth(t, p, "{", FieldsText(fields, true) + "}");
    AtIndex(t, p, "{", 0);
  }

  /** What reading an aggregate is, from its opening bracket on. */
  lemma AggregateReads(t: string, p: nat, flags: JsonParse.Flags)
    requires p < |t| && Aggregate(t[p])
    ensures Rec(t, p, flags) == Elements(t, p + 1, p + 1, t[p], 0)
  {
    NoSpace(t, p);
  }

  /** A value's text gives the value's token, whatever surrounds it. */
  lemma {:induction false} ValueReads(t: string, p: nat, v: Value, flags: JsonParse.Flags)
    requires ValidValue(v) && At(t, p, Text(v)) && Ended(t, p + |Text(v)|)
    requires flags.primitives || Root(v)
    ensures Rec(t, p, flags) == Ok(TokOf(v, p))
    decreases v, 3
  {
    if v.Str? {
      StrReads(t, p, v.text, flags);
    } else if v.Num? {
      NumReads(t, p, v.digits, flags);
    } else if v.Bool? {
      BoolReads(t, p, v.value, flags);
    } else {
      hide Rec, Elements, Text;
      if v.Arr? {
        ArrayText(t, p, v.items);
        AggregateReads(t, p, flags);
        ItemsRead(t, p + 1, p + 1, v.items, 0, true, Rec(t, p, flags));
      } else {
        ObjectText(t, p, v.fields);
        AggregateReads(t, p, flags);
        FieldsRead(t, p + 1, p + 1, v.fields, 0, true, Rec(t, p, flags));
      }
    }
  }

  /** The closing bracket ends the loop with the count it has. */
  lemma EndReads(t: string, start: nat, p: nat, kind: char, count: nat, r: Result)
    requires 0 < start <= p && Aggregate(kind) && At(t, p, "" + (if kind == JSON_OBJ then "}" else "]"))
    requires r == Elements(t, start, p, kind, count)
    ensures r == Ok(Tok(kind, count, start - 1, p + 1, start))
  {
    AtIndex(t, p, "" + (if kind == JSON_OBJ then "}" else "]"), 0);
    PunctReads(t, p, ELEMENT);
  }

  /** One turn of the loop. */
  lemma ElementsStep(t: string, start: nat, p: nat, kind: char, count: nat, first: Tok, tok: Tok, r: Result)
    requires 0 < start <= p <= |t| && Rec(t, p, ELEMENT) == Ok(first) && !Closing(first.kind)
    requires Element(t, first, kind, count) == Ok(tok) && r == Elements(t, start, p, kind, count)
    ensures p < After(tok) <= |t|
    ensures r == Elements(t, start, After(tok), kind, count + 1)
  {
  }

  lemma {:induction false} FirstItem(t: string, start: nat, p: nat, v: Value, r: Result)
    requires ValidValue(v) && 0 < start <= p && At(t, p, Text(v)) && Ended(t, p + |Text(v)|)
    requires r == Elements(t, start, p, JSON_ARR, 0)
    ensures r == Elements(t, start, p + |Text(v)|, JSON_ARR, 1)
    decreases v, 4
  {
    hide Rec, Elements, Text, PlainName;
    ValueReads(t, p, v, ELEMENT);
    ElementsStep(t, start, p, JSON_ARR, 0, TokOf(v, p), TokOf(v, p), r);
  }

  /** A comma goes before any element but the first. */
  lemma CommaReads(t: string, start: nat, p: nat, kind: char, count: nat)
    requires 0 < start <= p && At(t, p, ",") && count > 0
    ensures var comma := Tok(',', 0, p, p + 1, p + 1);
            && Rec(t, p, ELEMENT) == Ok(comma)
            && (kind == JSON_ARR ==> Element(t, comma, kind, count) == Rec(t, p + 1, PRIMITIVE))
  {
    AtIndex(t, p, ",", 0);
    PunctReads(t, p, ELEMENT);
  }

  lemma {:induction false} LaterItem(t: string, start: nat, p: nat, v: Value, count: nat, r: Result)
    requires ValidValue(v) && 0 < start <= p && At(t, p, ",") && count > 0
    requires At(t, p + 1, Text(v)) && Ended(t, p + 1 + |Text(v)|) && r == Elements(t, start, p, JSON_ARR, count)
    ensures r == Elements(t, start, p + 1 + |Text(v)|, JSON_ARR, count + 1)
    decreases v, 4
  {
    hide Rec, Elements, Text, PlainName;
    ValueReads(t, p + 1, v, PRIMITIVE);
    CommaReads(t, start, p, JSON_ARR, count);
    ElementsStep(t, start, p, JSON_ARR, count, Tok(',', 0, p, p + 1, p + 1), TokOf(v, p + 1), r);
  }

  lemma {:induction false} ItemsRead(t: string, start: nat, p: nat, items: Items, count: nat, first: bool, r: Result)
    requires 0 < start <= p && ValidItems(items) && At(t, p, ItemsText(items, first) + "]") && first == (count == 0)
    requires r == Elements(t, start, p, JSON_ARR, count)
    ensures r == Ok(Tok(JSON_ARR, count + ItemCount(items), start - 1, p + |ItemsText(items, first)| + 1, start))
    decreases items, 2
  {
    hide Rec, Elements, Text, PlainName;
    match items
    case NoItems => EndReads(t, start, p, JSON_ARR, count, r);
    case Item(v, rest) =>
      var q := ItemTurn(t, start, p, v, rest, count, first, r);
      ItemsRead(t, start, q, rest, count + 1, false, r);
  }

  lemma {:induction false} ItemTurn(t: string, start: nat, p: nat, v: Value, rest: Items, count: nat, first: bool,
                                    r: Result) returns (q: nat)
    requires ValidValue(v) && 0 < start <= p && first == (count == 0)
    requires At(t, p, ItemsText(Item(v, rest), first) + "]") && r == Elements(t, start, p, JSON_ARR, count)
    ensures p <= q && At(t, q, ItemsText(rest, false) + "]") && r == Elements(t, start, q, JSON_ARR, count + 1)
    ensures q + |ItemsText(rest, false)| == p + |ItemsText(Item(v, rest), first)|
    decreases v, 7
  {
    hide Rec, Elements, Text, PlainName;
    ItemParts(t, p, v, rest, first);
    AnyItem(t, start, p, v, count, r);
    q := p + |Comma(!first)| + |Text(v)|;
  }

  lemma {:induction false} AnyItem(t: string, start: nat, p: nat, v: Value, count: nat, r: Result)
    requires ValidValue(v) && 0 < start <= p && At(t, p, Comma(count != 0))
    requires var k := p + |Comma(count != 0)|; At(t, k, Text(v)) && Ended(t, k + |Text(v)|)
    requires r == Elements(t, start, p, JSON_ARR, count)
    ensures var q := p + |Comma(count != 0)| + |Text(v)|;
            q <= |t| && r == Elements(t, start, q, JSON_ARR, count + 1)
    decreases v, 6
  {
    hide Rec, Elements, Text, PlainName;
    if count == 0 {
      FirstItem(t, start, p, v, r);
    } else {
      LaterItem(t, start, p, v, count, r);
    }
  }

  lemma ItemsTextIs(v: Value, rest: Items, first: bool)
    ensures ItemsText(Item(v, rest), first) == Comma(!first) + Text(v) + ItemsText(rest, false)
  {
  }

  lemma FieldsTextIs(name: string, v: Value, rest: Fields, first: bool)
    ensures FieldsText(Field(name, v, rest), first) ==
            Comma(!first) + NameText(name) + Text(v) + FieldsText(rest, false)
  {
  }

  lemma ItemParts(t: string, p: nat, v: Value, rest: Items, first: bool)
    requires At(t, p, ItemsText(Item(v, rest), first) + "]")
    ensures var c := Comma(!first); var q := p + |c| + |Text(v)|;
            && At(t, p, c) && At(t, p + |c|, Text(v)) && Ended(t, q) && At(t, q, ItemsText(rest, false) + "]")
            && |ItemsText(Item(v, rest), first)| == |c| + |Text(v)| + |ItemsText(rest, false)|
  {
    ItemsTextIs(v, rest, first);
    hide Text, ItemsText, Ended;
    var c, tail := Comma(!first), ItemsText(rest, false) + "]";
    Regroup(c, Text(v), ItemsText(rest, false), "]");
    AtBoth(t, p, c, Text(v) + tail);
    AtBoth(t, p + |c|, Text(v), tail);
    EndedByTail(t, p + |c| + |Text(v)|, rest);
  }

  lemma Regroup(a: string, b: string, c: string, d: string)
    ensures a + b + c + d == a + (b + (c + d))
  {
  }

  lemma EndedByTail(t: string, q: nat, rest: Items)
    requires At(t, q, ItemsText(rest, false) + "]")
    ensures Ended(t, q)
  {
    AtIndex(t, q, ItemsText(rest, false) + "]", 0);
  }

  lemma EndedByFields(t: string, q: nat, rest: Fields)
    requires At(t, q, FieldsText(rest, false) + "}")
    ensures Ended(t, q)
  {
    AtIndex(t, q, FieldsText(rest, false) + "}", 0);
  }

  /** A key and its colon. */
  lemma NameReads(t: string, p: nat, name: string, flags: JsonParse.Flags)
    requires PlainName(name) && At(t, p, NameText(name)) && flags.primitives
    ensures Rec(t, p, flags) == Ok(KeyTok(name, p))
    ensures Rec(t, p + |name| + 2, PUNCT) == Ok(Tok(':', 0, p + |name| + 2, p + |name| + 3, p + |name| + 3))
  {
    assert NameText(name) == [QUOTE] + ((name + [QUOTE]) + ":");
    AtBoth(t, p, [QUOTE], (name + [QUOTE]) + ":");
    AtBoth(t, p + 1, name + [QUOTE], ":");
    AtIndex(t, p, [QUOTE], 0);
    AtIndex(t, p + |name| + 2, ":", 0);
    NoSpace(t, p);
    ScanName(t, p + 1, name);
    PunctReads(t, p + |name| + 2, PUNCT);
  }

  function KeyTok(name: string, p: nat): Tok {
    Tok(JSON_STR, 0, p + 1, p + 1 + |name|, p + |name| + 2)
  }

  /** A key, its colon and the value, from the key on. */
  lemma {:induction false} KeyedValue(t: string, q: nat, name: string, v: Value, flags: JsonParse.Flags)
    requires PlainName(name) && ValidValue(v) && At(t, q, NameText(name)) && flags.primitives
    requires var k := q + |NameText(name)|; At(t, k, Text(v)) && Ended(t, k + |Text(v)|)
    ensures Rec(t, q, flags) == Ok(KeyTok(name, q))
    ensures Element(t, KeyTok(name, q), JSON_OBJ, 0) == Ok(TokOf(v, q + |NameText(name)|))
    decreases v, 4
  {
    hide Rec, Text, ValidValue, PlainName, At;
    NameReads(t, q, name, flags);
    ValueReads(t, q + |NameText(name)|, v, PRIMITIVE);
  }

  lemma {:induction false} FirstField(t: string, start: nat, q: nat, name: string, v: Value, r: Result)
    requires PlainName(name) && ValidValue(v) && 0 < start <= q && At(t, q, NameText(name))
    requires var k := q + |NameText(name)|; At(t, k, Text(v)) && Ended(t, k + |Text(v)|)
    requires r == Elements(t, start, q, JSON_OBJ, 0)
    ensures r == Elements(t, start, q + |NameText(name)| + |Text(v)|, JSON_OBJ, 1)
    decreases v, 5
  {
    hide Rec, Elements, Text, PlainName;
    KeyedValue(t, q, name, v, ELEMENT);
    ElementsStep(t, start, q, JSON_OBJ, 0, KeyTok(name, q), TokOf(v, q + |NameText(name)|), r);
  }

  /** Behind the comma an element is read like a first one. */
  lemma AfterComma(t: string, p: nat, kind: char, count: nat)
    requires p < |t| && count > 0 && Rec(t, p + 1, PRIMITIVE).Ok?
    ensures Element(t, Tok(',', 0, p, p + 1, p + 1), kind, count) == Element(t, Rec(t, p + 1, PRIMITIVE).tok, kind, 0)
  {
  }

  lemma {:induction false} LaterField(t: string, start: nat, p: nat, name: string, v: Value, count: nat, r: Result)
    requires PlainName(name) && ValidValue(v) && 0 < start <= p && At(t, p, ",") && count > 0
    requires At(t, p + 1, NameText(name))
    requires var k := p + 1 + |NameText(name)|; At(t, k, Text(v)) && Ended(t, k + |Text(v)|)
    requires r == Elements(t, start, p, JSON_OBJ, count)
    ensures r == Elements(t, start, p + 1 + |NameText(name)| + |Text(v)|, JSON_OBJ, count + 1)
    decreases v, 5
  {
    hide Rec, Elements, Text, PlainName;
    KeyedValue(t, p + 1, name, v, PRIMITIVE);
    CommaReads(t, start, p, JSON_OBJ, count);
    AfterComma(t, p, JSON_OBJ, count);
    ElementsStep(t, start, p, JSON_OBJ, count, Tok(',', 0, p, p + 1, p + 1), TokOf(v, p + 1 + |NameText(name)|), r);
  }

  lemma {:induction false} FieldsRead(t: string, start: nat, p: nat, fields: Fields, count: nat, first: bool, r: Result)
    requires 0 < start <= p && ValidFields(fields) && At(t, p, FieldsText(fields, first) + "}") && first == (count == 0)
    requires r == Elements(t, start, p, JSON_OBJ, count)
    ensures r == Ok(Tok(JSON_OBJ, count + FieldCount(fields), start - 1, p + |FieldsText(fields, first)| + 1, start))
    decreases fields, 2
  {
    hide Rec, Elements, Text, PlainName;
    match fields
    case NoFields => EndReads(t, start, p, JSON_OBJ, count, r);
    case Field(name, v, rest) =>
      var q := FieldTurn(t, start, p, name, v, rest, count, first, r);
      FieldsRead(t, start, q, rest, count + 1, false, r);
  }

  lemma {:induction false} FieldTurn(t: string, start: nat, p: nat, name: string, v: Value, rest: Fields, count: nat,
                                     first: bool, r: Result) returns (q: nat)
    requires PlainName(name) && ValidValue(v) && 0 < start <= p && first == (count == 0)
    requires At(t, p, FieldsText(Field(name, v, rest), first) + "}") && r == Elements(t, start, p, JSON_OBJ, count)
    ensures p < q && At(t, q, FieldsText(rest, false) + "}") && r == Elements(t, start, q, JSON_OBJ, count + 1)
    ensures q + |FieldsText(rest, false)| == p + |FieldsText(Field(name, v, rest), first)|
    decreases v, 7
  {
    hide Rec, Elements, Text, PlainName;
    FieldParts(t, p, name, v, rest, first);
    AnyField(t, start, p, name, v, count, r);
    q := p + |Comma(!first)| + |NameText(name)| + |Text(v)|;
  }

  lemma {:induction false} AnyField(t: string, start: nat, p: nat, name: string, v: Value, count: nat, r: Result)
    requires PlainName(name) && ValidValue(v) && 0 < start <= p && At(t, p, Comma(count != 0))
    requires var q := p + |Comma(count != 0)|; var k := q + |NameText(name)|;
             At(t, q, NameText(name)) && At(t, k, Text(v)) && Ended(t, k + |Text(v)|)
    requires r == Elements(t, start, p, JSON_OBJ, count)
    ensures var q := p + |Comma(count != 0)| + |NameText(name)| + |Text(v)|;
            q <= |t| && r == Elements(t, start, q, JSON_OBJ, count + 1)
    decreases v, 6
  {
    hide Rec, Elements, Text, PlainName;
    if count == 0 {
      FirstField(t, start, p, name, v, r);
    } else {
      LaterField(t, start, p, name, v, count, r);
    }
  }

  lemma FieldParts(t: string, p: nat, name: string, v: Value, rest: Fields, first: bool)
    requires At(t, p, FieldsText(Field(name, v, rest), first) + "}")
    ensures var c := Comma(!first); var k := p + |c| + |NameText(name)|; var q := k + |Text(v)|;
            && At(t, p, c) && At(t, p + |c|, NameText(name)) && At(t, k, Text(v)) && Ended(t, q)
            && At(t, q, FieldsText(rest, false) + "}")
            && |FieldsText(Field(name, v, rest), first)| ==
               |c| + |NameText(name)| + |Text(v)| + |FieldsText(rest, false)|
  {
    FieldsTextIs(name, v, rest, first);
    hide Text, FieldsText, NameText, Ended;
    var c, n, x, f := Comma(!first), NameText(name), Text(v), FieldsText(rest, false);
    FieldGrouping(c, n, x, f);
    AtFour(t, p, c, n, x, f + "}");
    EndedByFields(t, p + |c| + |n| + |x|, rest);
  }

  lemma AtFour(t: string, p: nat, a: string, b: string, c: string, d: string)
    requires At(t, p, a + (b + (c + d)))
    ensures At(t, p, a) && At(t, p + |a|, b) && At(t, p + |a| + |b|, c) && At(t, p + |a| + |b| + |c|, d)
  {
    AtBoth(t, p, a, b + (c + d));
    AtBoth(t, p + |a|, b, c + d);
    AtBoth(t, p + |a| + |b|, c, d);
  }

  lemma FieldGrouping(c: string, n: string, x: string, f: string)
    ensures c + n + x + f + "}" == c + (n + (x + (f + "}")))
  {
  }

  // ---- The stream of tokens ----------------------------------------------

  const ANY: JsonParse.Flags := JsonParse.Flags(true, true, true)

  /** What repeated calls of jsonparse yield from a position on. */
  function Stream(t: string, p: nat): seq<Tok>
    requires p <= |t|
    decreases |t| - p
  {
    var r := Next(t, p, ANY);
    if r.Ok? then [r.tok] + Stream(t, r.tok.next) else []
  }

  /** The last call: how the stream ends. */
  function StreamError(t: string, p: nat): Error
    requires p <= |t|
    decreases |t| - p
  {
    var r := Next(t, p, ANY);
    if r.Ok? then StreamError(t, r.tok.next) else r.error
  }

  /** The tokens of a tree whose text starts at p: every node before what is in
      it, every key before its value. */
  function Tokens(v: Value, p: nat): seq<Tok> {
    match v
    case Arr(items) => [TokOf(v, p)] + ItemTokens(items, p + 1, true)
    case Obj(fields) => [TokOf(v, p)] + FieldTokens(fields, p + 1, true)
    case _ => [TokOf(v, p)]
  }

  function ItemTokens(items: Items, p: nat, first: bool): seq<Tok> {
    match items
    case NoItems => []
    case Item(v, rest) =>
      var q := p + |Comma(!first)|;
      Tokens(v, q) + ItemTokens(rest, q + |Text(v)|, false)
  }

  function FieldTokens(fields: Fields, p: nat, first: bool): seq<Tok> {
    match fields
    case NoFields => []
    case Field(name, v, rest) =>
      var q := p + |Comma(!first)|;
      var k := q + |NameText(name)|;
      [KeyTok(name, q)] + Tokens(v, k) + FieldTokens(rest, k + |Text(v)|, false)
  }

  /** From p the stream yields these tokens, and then what it yields from q. */
  ghost predicate Yields(t: string, p: nat, toks: seq<Tok>, q: nat) {
    && p <= |t| && q <= |t|
    && Stream(t, p) == toks + Stream(t, q) && StreamError(t, p) == StreamError(t, q)
  }

  lemma YieldsNothing(t: string, p: nat)
    requires p <= |t|
    ensures Yields(t, p, [], p)
  {
    assert [] + Stream(t, p) == Stream(t, p);
  }

  lemma YieldsBoth(t: string, p: nat, x: seq<Tok>, q: nat, y: seq<Tok>, r: nat)
    requires Yields(t, p, x, q) && Yields(t, q, y, r)
    ensures Yields(t, p, x + y, r)
  {
    hide Stream, StreamError;
    assert x + (y + Stream(t, r)) == (x + y) + Stream(t, r);
  }

  lemma YieldsPunct(t: string, p: nat)
    requires p < |t| && Punctuation(t[p])
    ensures Yields(t, p, [], p + 1)
  {
    PunctReads(t, p, ANY);
    assert Next(t, p, ANY) == Next(t, p + 1, ANY);
    assert [] + Stream(t, p + 1) == Stream(t, p + 1);
  }

  lemma YieldsOne(t: string, p: nat, tok: Tok)
    requires p <= |t| && Rec(t, p, ANY) == Ok(tok) && !Punctuation(tok.kind)
    ensures Yields(t, p, [tok], tok.next)
  {
    assert Next(t, p, ANY) == Ok(tok);
  }

  /** A root token, then what is inside. */
  lemma YieldsTree(t: string, p: nat, v: Value, inside: seq<Tok>)
    requires Root(v) && p <= |t| && Rec(t, p, ANY) == Ok(TokOf(v, p)) && Yields(t, p + 1, inside, p + |Text(v)|)
    ensures Yields(t, p, [TokOf(v, p)] + inside, p + |Text(v)|)
  {
    hide Stream, StreamError, Rec, Text;
    YieldsOne(t, p, TokOf(v, p));
    YieldsBoth(t, p, [TokOf(v, p)], p + 1, inside, p + |Text(v)|);
  }

  lemma {:induction false} ArrayInside(t: string, p: nat, items: Items)
    requires ValidItems(items) && At(t, p, Text(Arr(items)))
    ensures Yields(t, p + 1, ItemTokens(items, p + 1, true), p + |Text(Arr(items))|)
    decreases items, 1
  {
    hide Yields, ItemTokens, Text, ItemsText;
    ArrayText(t, p, items);
    ItemsStream(t, p + 1, items, true);
  }

  lemma {:induction false} ObjectInside(t: string, p: nat, fields: Fields)
    requires ValidFields(fields) && At(t, p, Text(Obj(fields)))
    ensures Yields(t, p + 1, FieldTokens(fields, p + 1, true), p + |Text(Obj(fields))|)
    decreases fields, 1
  {
    hide Yields, FieldTokens, Text, FieldsText;
    ObjectText(t, p, fields);
    FieldsStream(t, p + 1, fields, true);
  }

  lemma {:induction false} ValueStreams(t: string, p: nat, v: Value)
    requires ValidValue(v) && At(t, p, Text(v)) && Ended(t, p + |Text(v)|)
    ensures Yields(t, p, Tokens(v, p), p + |Text(v)|)
    decreases v, 1
  {
    hide Yields, Rec, Text, ItemTokens, FieldTokens;
    ValueReads(t, p, v, ANY);
    if v.Arr? {
      ArrayInside(t, p, v.items);
      YieldsTree(t, p, v, ItemTokens(v.items, p + 1, true));
    } else if v.Obj? {
      ObjectInside(t, p, v.fields);
      YieldsTree(t, p, v, FieldTokens(v.fields, p + 1, true));
    } else {
      YieldsOne(t, p, TokOf(v, p));
    }
  }

  lemma YieldsThree(t: string, p: nat, q: nat, x: seq<Tok>, e: nat, y: seq<Tok>, end: nat)
    requires Yields(t, p, [], q) && Yields(t, q, x, e) && Yields(t, e, y, end)
    ensures Yields(t, p, x + y, end)
  {
    hide Yields;
    YieldsBoth(t, q, x, e, y, end);
    YieldsBoth(t, p, [], q, x + y, end);
    assert [] + (x + y) == x + y;
  }

  lemma YieldsComma(t: string, p: nat, first: bool)
    requires At(t, p, Comma(!first))
    ensures Yields(t, p, [], p + |Comma(!first)|)
  {
    if first {
      YieldsNothing(t, p);
    } else {
      AtIndex(t, p, ",", 0);
      YieldsPunct(t, p);
    }
  }

  lemma NoItemsStream(t: string, p: nat, first: bool)
    requires At(t, p, ItemsText(NoItems, first) + "]")
    ensures Yields(t, p, ItemTokens(NoItems, p, first), p + |ItemsText(NoItems, first)| + 1)
  {
    hide Yields;
    assert ItemsText(NoItems, first) + "]" == "]";
    AtIndex(t, p, "]", 0);
    YieldsPunct(t, p);
  }

  lemma {:induction false} ItemsStream(t: string, p: nat, items: Items, first: bool)
    requires ValidItems(items) && At(t, p, ItemsText(items, first) + "]")
    ensures Yields(t, p, ItemTokens(items, p, first), p + |ItemsText(items, first)| + 1)
    decreases items, 0
  {
    hide Yields, Text, ItemsText, ItemTokens, Tokens;
    if items.NoItems? {
      NoItemsStream(t, p, first);
    } else {
      var v, rest, q := items.value, items.rest, p + |Comma(!first)|;
      ItemParts(t, p, v, rest, first);
      YieldsComma(t, p, first);
      ValueStreams(t, q, v);
      ItemsStream(t, q + |Text(v)|, rest, false);
      YieldsItems(t, p, v, rest, first);
    }
  }

  lemma ItemTokensAre(v: Value, rest: Items, p: nat, first: bool)
    ensures var q := p + |Comma(!first)|;
            ItemTokens(Item(v, rest), p, first) == Tokens(v, q) + ItemTokens(rest, q + |Text(v)|, false)
  {
  }

  lemma YieldsItems(t: string, p: nat, v: Value, rest: Items, first: bool)
    requires var q := p + |Comma(!first)|; var e := q + |Text(v)|;
             && Yields(t, p, [], q) && Yields(t, q, Tokens(v, q), e)
             && Yields(t, e, ItemTokens(rest, e, false), e + |ItemsText(rest, false)| + 1)
    ensures Yields(t, p, ItemTokens(Item(v, rest), p, first), p + |ItemsText(Item(v, rest), first)| + 1)
  {
    hide Yields, Text, ItemsText, ItemTokens, Tokens;
    ItemsTextIs(v, rest, first);
    ItemTokensAre(v, rest, p, first);
    var q := p + |Comma(!first)|;
    var e := q + |Text(v)|;
    YieldsThree(t, p, q, Tokens(v, q), e, ItemTokens(rest, e, false), e + |ItemsText(rest, false)| + 1);
  }

  /** A key is yielded, its colon is not. */
  lemma NameStreams(t: string, p: nat, name: string)
    requires PlainName(name) && At(t, p, NameText(name))
    ensures Yields(t, p, [KeyTok(name, p)], p + |NameText(name)|)
  {
    hide Yields, Rec, PlainName;
    NameReads(t, p, name, ANY);
    YieldsOne(t, p, KeyTok(name, p));
    AtIndex(t, p, NameText(name), |name| + 2);
    YieldsPunct(t, p + |name| + 2);
    YieldsBoth(t, p, [KeyTok(name, p)], p + |name| + 2, [], p + |name| + 3);
    assert [KeyTok(name, p)] + [] == [KeyTok(name, p)];
  }

  lemma NoFieldsStream(t: string, p: nat, first: bool)
    requires At(t, p, FieldsText(NoFields, first) + "}")
    ensures Yields(t, p, FieldTokens(NoFields, p, first), p + |FieldsText(NoFields, first)| + 1)
  {
    hide Yields;
    assert FieldsText(NoFields, first) + "}" == "}";
    AtIndex(t, p, "}", 0);
    YieldsPunct(t, p);
  }

  lemma {:induction false} FieldsStream(t: string, p: nat, fields: Fields, first: bool)
    requires ValidFields(fields) && At(t, p, FieldsText(fields, first) + "}")
    ensures Yields(t, p, FieldTokens(fields, p, first), p + |FieldsText(fields, first)| + 1)
    decreases fields, 0
  {
    hide Yields, Text, FieldsText, FieldTokens, Tokens, NameText, PlainName;
    if fields.NoFields? {
      NoFieldsStream(t, p, first);
    } else {
      var name, v, rest, q := fields.name, fields.value, fields.rest, p + |Comma(!first)|;
      FieldParts(t, p, name, v, rest, first);
      var k := q + |NameText(name)|;
      YieldsComma(t, p, first);
      NameStreams(t, q, name);
      ValueStreams(t, k, v);
      YieldsBoth(t, q, [KeyTok(name, q)], k, Tokens(v, k), k + |Text(v)|);
      FieldsStream(t, k + |Text(v)|, rest, false);
      YieldsFields(t, p, name, v, rest, first);
    }
  }

  lemma FieldTokensAre(name: string, v: Value, rest: Fields, p: nat, first: bool)
    ensures var q := p + |Comma(!first)|; var k := q + |NameText(name)|;
            FieldTokens(Field(name, v, rest), p, first) ==
            [KeyTok(name, q)] + Tokens(v, k) + FieldTokens(rest, k + |Text(v)|, false)
  {
  }

  lemma YieldsFields(t: string, p: nat, name: string, v: Value, rest: Fields, first: bool)
    requires var q := p + |Comma(!first)|; var k := q + |NameText(name)|; var e := k + |Text(v)|;
             && Yields(t, p, [], q) && Yields(t, q, [KeyTok(name, q)] + Tokens(v, k), e)
             && Yields(t, e, FieldTokens(rest, e, false), e + |FieldsText(rest, false)| + 1)
    ensures Yields(t, p, FieldTokens(Field(name, v, rest), p, first), p + |FieldsText(Field(name, v, rest), first)| + 1)
  {
    hide Yields, Text, FieldsText, FieldTokens, Tokens, NameText;
    FieldsTextIs(name, v, rest, first);
    FieldTokensAre(name, v, rest, p, first);
    var q := p + |Comma(!first)|;
    var k := q + |NameText(name)|;
    var e := k + |Text(v)|;
    YieldsThree(t, p, q, [KeyTok(name, q)] + Tokens(v, k), e, FieldTokens(rest, e, false),
                e + |FieldsText(rest, false)| + 1);
  }

  // ---- Print, then parse -------------------------------------------------

  /** The first call wants an aggregate and gets the root; the calls after it
      give the rest of the tree, and the last one the end. */
  lemma PrintedTreeParses(v: Value)
    requires ValidValue(v) && Root(v)
    ensures var t := Text(v);
            && Next(t, 0, JsonParse.Flags(false, false, true)) == Ok(TokOf(v, 0))
            && Tokens(v, 0)[0] == TokOf(v, 0)
            && Stream(t, TokOf(v, 0).next) == Tokens(v, 0)[1..] && StreamError(t, TokOf(v, 0).next) == JSON_END
  {
    hide Stream, StreamError, Next, Text, ItemTokens, FieldTokens;
    var t := Text(v);
    assert t[0..0 + |t|] == t;
    RootReads(t, v);
    ValueStreams(t, 0, v);
    EndOfText(t);
    assert Tokens(v, 0) + [] == Tokens(v, 0);
    assert Stream(t, 0)[1..] == Stream(t, TokOf(v, 0).next);
  }

  lemma RootReads(t: string, v: Value)
    requires ValidValue(v) && Root(v) && At(t, 0, Text(v)) && Ended(t, |Text(v)|)
    ensures Next(t, 0, JsonParse.Flags(false, false, true)) == Ok(TokOf(v, 0))
    ensures Yields(t, 0, [TokOf(v, 0)], TokOf(v, 0).next)
  {
    hide Rec, Stream, StreamError, Text;
    ValueReads(t, 0, v, JsonParse.Flags(false, false, true));
    ValueReads(t, 0, v, ANY);
    YieldsOne(t, 0, TokOf(v, 0));
  }

  lemma EndOfText(t: string)
    ensures Stream(t, |t|) == [] && StreamError(t, |t|) == JSON_END
  {
  }
}
