/** Reading JSON text for what it means, by section 7 of RFC 8259: strings are
    decoded and trees are built from the tokens of the pull parser, and both give
    back what the encoder was given (src/strutil.c, src/json.c). */
module JsonDecode {
  import opened JsonText
  import opened JsonParse
  import opened JsonRoundTrip
  import opened JsonMeaning
  import opened Slices
  import opened Wrappers

  // ---- Strings -----------------------------------------------------------

  /** The character that a backslash and this one stand for. */
  function Unescaped(c: char): char {
    if c == 'b' then 8 as char
    else if c == 'f' then 12 as char
    else if c == 'n' then 10 as char
    else if c == 'r' then 13 as char
    else if c == 't' then 9 as char
    else c
  }

  function Unescape(s: string): string {
    if s == "" then ""
    else if s[0] as int == 92 && |s| > 1 then [Unescaped(s[1])] + Unescape(s[2..])
    else [s[0]] + Unescape(s[1..])
  }

  /** Which characters are escaped, by their codes, and that each is escaped by a
      backslash and a character that section 7 allows there. */
  lemma EscapedCodes(c: char)
    requires c != '\0'
    ensures if c as int in {8, 9, 10, 11, 12, 13, 34, 47, 92} then
              && |Escaped(c)| == 2 && Escaped(c)[0] as int == 92
              && Escaped(c)[1] in {'"', '\\', '/', 'b', 'f', 'n', 'r', 't'}
              && Unescaped(Escaped(c)[1]) == if c as int == 11 then 10 as char else c
            else
              Escaped(c) == [c]
  {
  }

  /** Decoding an escaped string gives the string, but for vertical tabs. */
  lemma {:induction false} UnescapeEscape(s: string)
    requires NoNul(s)
    ensures Unescape(Escape(s)) == PlainText(s)
    decreases |s|
  {
    if s != "" {
      assert s[0] in s && NoNul(s[1..]);
      UnescapeEscape(s[1..]);
      EscapedCodes(s[0]);
      var e, r := Escaped(s[0]), Escape(s[1..]);
      assert Escape(s) == e + r && (e + r)[0] == e[0];
      if |e| == 2 {
        assert (e + r)[1] == e[1] && (e + r)[2..] == r;
      } else {
        assert (e + r)[1..] == r;
      }
    }
  }

  lemma {:induction false} NothingToUnescape(s: string)
    requires BACKSLASH !in s
    ensures Unescape(s) == s
    decreases |s|
  {
    if s != "" {
      assert s[0] in s && BACKSLASH !in s[1..];
      NothingToUnescape(s[1..]);
      assert s == [s[0]] + s[1..];
    }
  }

  // ---- Text --------------------------------------------------------------

  /** Sections 3 and 7 of RFC 8259. */
  lemma LeafForms(s: string, n: string)
    ensures Text(Bool(true)) == "true" && Text(Bool(false)) == "false" && Text(Num(n)) == n
    ensures Text(Str(s)) == "\"" + Escape(s) + "\""
  {
    hide Escape;
  }

  /** Section 5: brackets, and commas between the values. */
  lemma ArrayForms(v: Value, rest: Items)
    ensures Text(Arr(NoItems)) == "[]"
    ensures Text(Arr(Item(v, rest))) == "[" + ItemsText(Item(v, rest), true) + "]"
    ensures ItemsText(Item(v, NoItems), true) == Text(v)
    ensures rest.Item? ==> ItemsText(Item(v, rest), true) == Text(v) + "," + ItemsText(rest, true)
  {
    hide Text;
    EmptyArray();
    ArrayOf(Item(v, rest));
    ItemsTextIs(v, NoItems, true);
    ItemsTextIs(v, rest, true);
    NoItemsText();
    var x := Text(v);
    assert "" + x + "" == x;
    if rest.Item? {
      ItemsTextIs(rest.value, rest.rest, false);
      ItemsTextIs(rest.value, rest.rest, true);
      var y, z := Text(rest.value), ItemsText(rest.rest, false);
      assert "" + x + ("," + y + z) == x + "," + ("" + y + z);
    }
  }

  lemma EmptyArray()
    ensures Text(Arr(NoItems)) == "[]"
  {
  }

  lemma ArrayOf(items: Items)
    ensures Text(Arr(items)) == "[" + ItemsText(items, true) + "]"
  {
  }

  lemma NoItemsText()
    ensures ItemsText(NoItems, false) == ""
  {
  }

  /** Section 4: braces, names in quotes, colons, and commas between the members. */
  lemma ObjectForms(n: string, v: Value, rest: Fields)
    ensures Text(Obj(NoFields)) == "{}"
    ensures Text(Obj(Field(n, v, rest))) == "{" + FieldsText(Field(n, v, rest), true) + "}"
    ensures FieldsText(Field(n, v, NoFields), true) == "\"" + n + "\":" + Text(v)
    ensures rest.Field? ==>
              FieldsText(Field(n, v, rest), true) == "\"" + n + "\":" + Text(v) + "," + FieldsText(rest, true)
  {
    hide Text;
    EmptyObject();
    ObjectOf(Field(n, v, rest));
    FieldsTextIs(n, v, NoFields, true);
    NoFieldsText();
    NameForm(n);
    var x, name := Text(v), NameText(n);
    assert "" + name + x + "" == name + x;
    if rest.Field? {
      SecondField(n, v, rest);
    }
  }

  lemma SecondField(n: string, v: Value, rest: Fields)
    requires rest.Field?
    ensures FieldsText(Field(n, v, rest), true) == NameText(n) + Text(v) + "," + FieldsText(rest, true)
  {
    hide Text, NameText;
    FieldsTextIs(n, v, rest, true);
    FieldsTextIs(rest.name, rest.value, rest.rest, false);
    FieldsTextIs(rest.name, rest.value, rest.rest, true);
    var x, name := Text(v), NameText(n);
    var m, y, z := NameText(rest.name), Text(rest.value), FieldsText(rest.rest, false);
    hide FieldsText;
    assert "" + name + x + ("," + m + y + z) == name + x + "," + ("" + m + y + z);
  }

  lemma EmptyObject()
    ensures Text(Obj(NoFields)) == "{}"
  {
  }

  lemma ObjectOf(fields: Fields)
    ensures Text(Obj(fields)) == "{" + FieldsText(fields, true) + "}"
  {
  }

  lemma NoFieldsText()
    ensures FieldsText(NoFields, false) == ""
  {
  }

  lemma NameForm(n: string)
    ensures NameText(n) == "\"" + n + "\":"
  {
    assert [QUOTE] + n + [QUOTE] + ":" == "\"" + n + "\":";
  }

  // ---- Trees -------------------------------------------------------------

  /** The text of a token. */
  function TextOf(t: string, tok: Tok): string {
    if tok.start <= tok.end <= |t| then t[tok.start..tok.end] else ""
  }

  /** The value that begins with the first token, and the tokens after it: an
      aggregate takes as many values, or names and values, as its size. */
  function Build(t: string, toks: seq<Tok>): (r: Option<(Value, seq<Tok>)>)
    ensures r.Some? ==> |r.value.1| < |toks|
    decreases |toks|, 0, 0
  {
    if toks == [] then None
    else
      var tok, rest := toks[0], toks[1..];
      if tok.kind == 's' then Some((Str(Unescape(TextOf(t, tok))), rest))
      else if tok.kind == 'f' then Some((Num(TextOf(t, tok)), rest))
      else if tok.kind == 'b' then Some((Bool(tok.value != 0), rest))
      else if tok.kind == '[' && tok.value >= 0 then
        var r := BuildItems(t, rest, tok.value);
        if r.None? then None else Some((Arr(r.value.0), r.value.1))
      else if tok.kind == '{' && tok.value >= 0 then
        var r := BuildFields(t, rest, tok.value);
        if r.None? then None else Some((Obj(r.value.0), r.value.1))
      else None
  }

  function BuildItems(t: string, toks: seq<Tok>, n: nat): (r: Option<(Items, seq<Tok>)>)
    ensures r.Some? ==> |r.value.1| <= |toks|
    decreases |toks|, 1, n
  {
    if n == 0 then Some((NoItems, toks))
    else
      var v := Build(t, toks);
      if v.None? then None
      else
        var r := BuildItems(t, v.value.1, n - 1);
        if r.None? then None else Some((Item(v.value.0, r.value.0), r.value.1))
  }

  function BuildFields(t: string, toks: seq<Tok>, n: nat): (r: Option<(Fields, seq<Tok>)>)
    ensures r.Some? ==> |r.value.1| <= |toks|
    decreases |toks|, 1, n
  {
    if n == 0 then Some((NoFields, toks))
    else if toks == [] || toks[0].kind != 's' then None
    else
      var v := Build(t, toks[1..]);
      if v.None? then None
      else
        var r := BuildFields(t, v.value.1, n - 1);
        if r.None? then None else Some((Field(Unescape(TextOf(t, toks[0])), v.value.0, r.value.0), r.value.1))
  }

  lemma Inside(t: string, p: nat, x: string, y: string, z: string)
    requires At(t, p, x + y + z)
    ensures p + |x| + |y| <= |t| && t[p + |x|..p + |x| + |y|] == y
  {
    AtBoth(t, p, x + y, z);
    AtBoth(t, p, x, y);
  }

  lemma StringBuilt(t: string, p: nat, s: string)
    requires NoNul(s) && At(t, p, Text(Str(s)))
    ensures Unescape(TextOf(t, TokOf(Str(s), p))) == PlainText(s)
  {
    Inside(t, p, [QUOTE], Escape(s), [QUOTE]);
    UnescapeEscape(s);
  }

  lemma NameBuilt(t: string, p: nat, name: string)
    requires PlainName(name) && At(t, p, NameText(name))
    ensures Unescape(TextOf(t, KeyTok(name, p))) == name
  {
    assert NameText(name) == [QUOTE] + name + ([QUOTE] + ":");
    Inside(t, p, [QUOTE], name, [QUOTE] + ":");
    NothingToUnescape(name);
  }

  lemma LeafBuilt(t: string, p: nat, v: Value, more: seq<Tok>)
    requires ValidValue(v) && !Root(v) && At(t, p, Text(v))
    ensures Build(t, [TokOf(v, p)] + more) == Some((Plain(v), more))
  {
    var toks := [TokOf(v, p)] + more;
    assert toks[1..] == more;
    if v.Str? {
      StringBuilt(t, p, v.text);
    }
  }

  lemma ArrayBuilt(t: string, tok: Tok, toks: seq<Tok>, items: Items, more: seq<Tok>)
    requires tok.kind == '[' && tok.value >= 0 && BuildItems(t, toks, tok.value) == Some((items, more))
    ensures Build(t, [tok] + toks) == Some((Arr(items), more))
  {
    assert ([tok] + toks)[1..] == toks;
  }

  lemma ObjectBuilt(t: string, tok: Tok, toks: seq<Tok>, fields: Fields, more: seq<Tok>)
    requires tok.kind == '{' && tok.value >= 0 && BuildFields(t, toks, tok.value) == Some((fields, more))
    ensures Build(t, [tok] + toks) == Some((Obj(fields), more))
  {
    assert ([tok] + toks)[1..] == toks;
  }

  lemma ItemBuilt(t: string, toks: seq<Tok>, v: Value, tail: seq<Tok>, rest: Items, more: seq<Tok>, n: nat)
    requires Build(t, toks) == Some((v, tail)) && BuildItems(t, tail, n) == Some((rest, more))
    ensures BuildItems(t, toks, n + 1) == Some((Item(v, rest), more))
  {
  }

  lemma FieldBuilt(t: string, key: Tok, toks: seq<Tok>, v: Value, tail: seq<Tok>, rest: Fields, more: seq<Tok>, n: nat)
    requires key.kind == 's'
    requires Build(t, toks) == Some((v, tail)) && BuildFields(t, tail, n) == Some((rest, more))
    ensures BuildFields(t, [key] + toks, n + 1) == Some((Field(Unescape(TextOf(t, key)), v, rest), more))
  {
    assert ([key] + toks)[1..] == toks;
  }

  lemma TwoLists(x: seq<Tok>, y: seq<Tok>, z: seq<Tok>)
    ensures x + y + z == x + (y + z)
  {
  }

  lemma NothingBuilt(t: string, p: nat, first: bool, more: seq<Tok>)
    ensures BuildItems(t, ItemTokens(NoItems, p, first) + more, 0) == Some((NoItems, more))
    ensures BuildFields(t, FieldTokens(NoFields, p, first) + more, 0) == Some((NoFields, more))
  {
    assert [] + more == more;
  }

  lemma ItemTokensAre(items: Items, p: nat, first: bool)
    requires items.Item?
    ensures var q := p + |Comma(!first)|;
            ItemTokens(items, p, first) ==
            Tokens(items.value, q) + ItemTokens(items.rest, q + |Text(items.value)|, false)
  {
  }

  lemma FieldTokensAre(fields: Fields, p: nat, first: bool)
    requires fields.Field?
    ensures var q := p + |Comma(!first)|; var k := q + |NameText(fields.name)|;
            FieldTokens(fields, p, first) ==
            [KeyTok(fields.name, q)] + Tokens(fields.value, k)
              + FieldTokens(fields.rest, k + |Text(fields.value)|, false)
  {
  }

  /** The tokens of a value build the value. */
  lemma {:induction false} ValueBuilt(t: string, p: nat, v: Value, more: seq<Tok>)
    requires ValidValue(v) && At(t, p, Text(v))
    ensures Build(t, Tokens(v, p) + more) == Some((Plain(v), more))
    decreases v
  {
    hide Build, BuildItems, BuildFields, At, Text, ItemTokens, FieldTokens;
    if v.Arr? {
      var toks := ItemTokens(v.items, p + 1, true);
      ArrayText(t, p, v.items);
      ItemsBuilt(t, p + 1, v.items, true, more);
      ArrayBuilt(t, TokOf(v, p), toks + more, PlainItems(v.items), more);
      TwoLists([TokOf(v, p)], toks, more);
    } else if v.Obj? {
      var toks := FieldTokens(v.fields, p + 1, true);
      ObjectText(t, p, v.fields);
      FieldsBuilt(t, p + 1, v.fields, true, more);
      ObjectBuilt(t, TokOf(v, p), toks + more, PlainFields(v.fields), more);
      TwoLists([TokOf(v, p)], toks, more);
    } else {
      LeafBuilt(t, p, v, more);
    }
  }

  lemma {:induction false} ItemsBuilt(t: string, p: nat, items: Items, first: bool, more: seq<Tok>)
    requires ValidItems(items) && At(t, p, ItemsText(items, first) + "]")
    ensures BuildItems(t, ItemTokens(items, p, first) + more, ItemCount(items)) == Some((PlainItems(items), more))
    decreases items
  {
    hide Build, BuildItems, Text, ItemsText, ItemTokens, At, Tokens, Comma;
    if items.NoItems? {
      NothingBuilt(t, p, first, more);
    } else {
      ItemTokensAre(items, p, first);
      ItemParts(t, p, items.value, items.rest, first);
      var q := p + |Comma(!first)|;
      var k := q + |Text(items.value)|;
      var toks := ItemTokens(items.rest, k, false);
      ItemsBuilt(t, k, items.rest, false, more);
      ValueBuilt(t, q, items.value, toks + more);
      TwoLists(Tokens(items.value, q), toks, more);
      ItemBuilt(t, Tokens(items.value, q) + (toks + more), Plain(items.value), toks + more, PlainItems(items.rest),
                more, ItemCount(items.rest));
    }
  }

  lemma {:induction false} FieldsBuilt(t: string, p: nat, fields: Fields, first: bool, more: seq<Tok>)
    requires ValidFields(fields) && At(t, p, FieldsText(fields, first) + "}")
    ensures BuildFields(t, FieldTokens(fields, p, first) + more, FieldCount(fields)) ==
            Some((PlainFields(fields), more))
    decreases fields
  {
    hide Build, BuildFields, Text, FieldsText, FieldTokens, NameText, At, Tokens, PlainName, Comma;
    if fields.NoFields? {
      NothingBuilt(t, p, first, more);
    } else {
      FieldTokensAre(fields, p, first);
      FieldParts(t, p, fields.name, fields.value, fields.rest, first);
      var q := p + |Comma(!first)|;
      var k := q + |NameText(fields.name)|;
      var toks := FieldTokens(fields.rest, k + |Text(fields.value)|, false);
      FieldsBuilt(t, k + |Text(fields.value)|, fields.rest, false, more);
      ValueBuilt(t, k, fields.value, toks + more);
      NameBuilt(t, q, fields.name);
      var key, mid := KeyTok(fields.name, q), Tokens(fields.value, k);
      TwoLists([key] + mid, toks, more);
      TwoLists([key], mid, toks + more);
      FieldBuilt(t, key, mid + (toks + more), Plain(fields.value), toks + more, PlainFields(fields.rest), more,
                 FieldCount(fields.rest));
    }
  }

  lemma BuildsTheTree(t: string, v: Value)
    requires ValidValue(v) && t == Text(v)
    ensures Build(t, Tokens(v, 0)) == Some((Plain(v), []))
  {
    assert t[0..0 + |t|] == t;
    ValueBuilt(t, 0, v, []);
    assert Tokens(v, 0) + [] == Tokens(v, 0);
  }

  // ---- Print, then parse -------------------------------------------------

  /** The encoder writes a tree into an empty text, the parser reads the text to
      its end, and the tokens build the tree again, with newlines for vertical
      tabs. The text is that of no other tree, up to those. */
  method PrintThenParse(v: Value) returns (t: string, toks: seq<Tok>, end: Error)
    requires ValidValue(v) && Root(v)
    ensures t == Text(v) && toks == Tokens(v, 0) && end == JSON_END
    ensures Build(t, toks) == Some((Plain(v), []))
    ensures forall w :: ValidValue(w) && t == Text(w) ==> Plain(w) == Plain(v)
  {
    hide Build, Text, ValidValue, Plain;
    var json := new Encoder();
    json.Write(v);
    t := json.text;
    assert t == Text(v) by {
      assert "" + Comma(false) + Text(v) == Text(v);
    }
    PrintedTreeParses(v);
    BuildsTheTree(t, v);
    forall w | ValidValue(w) && t == Text(w) ensures Plain(w) == Plain(v) {
      TextDeterminesTree(v, w);
    }
    var r := Parse(t, None);
    toks := [r.tok];
    var p := r.tok.next;
    r := Parse(t, Some(p));
    while r.Ok?
      invariant p <= |t| && r == Next(t, p, ANY)
      invariant toks + Stream(t, p) == Tokens(v, 0) && StreamError(t, p) == JSON_END
      decreases |t| - p
    {
      assert toks + ([r.tok] + Stream(t, r.tok.next)) == (toks + [r.tok]) + Stream(t, r.tok.next);
      toks := toks + [r.tok];
      p := r.tok.next;
      r := Parse(t, Some(p));
    }
    assert toks + [] == toks;
    end := r.error;
  }
}
