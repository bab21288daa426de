/** How much of a tree its text keeps: all of it but the difference between a
    vertical tab and a newline, which strescape writes alike (src/strutil.c). */
module JsonMeaning {
  import opened JsonText
  import opened JsonParse
  import opened JsonRoundTrip
  import opened Slices
  import opened Wrappers

  const VT: char := 11 as char

  // ---- Strings -----------------------------------------------------------

  /** The string with every vertical tab read as a newline. */
  function PlainText(s: string): (r: string)
    ensures |r| == |s| && forall i :: 0 <= i < |s| ==> r[i] == if s[i] == VT then '\n' else s[i]
  {
    if s == "" then "" else [if s[0] == VT then '\n' else s[0]] + PlainText(s[1..])
  }

  lemma EscapedChars(c: char, d: char, x: string, y: string)
    requires c != '\0' && d != '\0' && Escaped(c) + x == Escaped(d) + y
    ensures (if c == VT then '\n' else c) == (if d == VT then '\n' else d) && x == y
  {
    var e, f := Escaped(c), Escaped(d);
    assert (e + x)[0] == e[0] && (f + y)[0] == f[0];
    assert |e| == 2 ==> (e + x)[1] == e[1];
    assert |f| == 2 ==> (f + y)[1] == f[1];
    assert |e| == |f|;
    assert (e + x)[|e|..] == x && (f + y)[|f|..] == y;
  }

  /** Escaping loses that difference and no other. */
  lemma {:induction false} EscapeIsPlain(s: string, t: string)
    requires NoNul(s) && NoNul(t)
    ensures Escape(s) == Escape(t) <==> PlainText(s) == PlainText(t)
    decreases |s|
  {
    if s != "" && t != "" {
      assert s[0] in s && t[0] in t;
      assert NoNul(s[1..]) && NoNul(t[1..]);
      EscapeIsPlain(s[1..], t[1..]);
      if Escape(s) == Escape(t) {
        EscapedChars(s[0], t[0], Escape(s[1..]), Escape(t[1..]));
      }
      if PlainText(s) == PlainText(t) {
        assert PlainText(s)[0] == PlainText(t)[0] && PlainText(s)[1..] == PlainText(t)[1..];
        assert PlainText(s)[1..] == PlainText(s[1..]) && PlainText(t)[1..] == PlainText(t[1..]);
      }
    }
  }

  // ---- Trees -------------------------------------------------------------

  /** The tree with every vertical tab in a string read as a newline. */
  function Plain(v: Value): Value {
    match v
    case Str(s) => Str(PlainText(s))
    case Num(_) => v
    case Bool(_) => v
    case Arr(items) => Arr(PlainItems(items))
    case Obj(fields) => Obj(PlainFields(fields))
  }

  function PlainItems(items: Items): Items {
    match items
    case NoItems => NoItems
    case Item(v, rest) => Item(Plain(v), PlainItems(rest))
  }

  function PlainFields(fields: Fields): Fields {
    match fields
    case NoFields => NoFields
    case Field(name, v, rest) => Field(name, Plain(v), PlainFields(rest))
  }

  /** Trees alike up to that difference are written alike. */
  lemma {:induction false} PlainWritesTheSame(v: Value, w: Value)
    requires ValidValue(v) && ValidValue(w) && Plain(v) == Plain(w)
    ensures Text(v) == Text(w)
    decreases v
  {
    match v
    case Str(s) => EscapeIsPlain(s, w.text);
    case Num(_) =>
    case Bool(_) =>
    case Arr(items) => PlainItemsWriteTheSame(items, w.items, true);
    case Obj(fields) => PlainFieldsWriteTheSame(fields, w.fields, true);
  }

  lemma {:induction false} PlainItemsWriteTheSame(x: Items, y: Items, first: bool)
    requires ValidItems(x) && ValidItems(y) && PlainItems(x) == PlainItems(y)
    ensures ItemsText(x, first) == ItemsText(y, first)
    decreases x
  {
    if x.Item? {
      PlainWritesTheSame(x.value, y.value);
      PlainItemsWriteTheSame(x.rest, y.rest, false);
    }
  }

  lemma {:induction false} PlainFieldsWriteTheSame(x: Fields, y: Fields, first: bool)
    requires ValidFields(x) && ValidFields(y) && PlainFields(x) == PlainFields(y)
    ensures FieldsText(x, first) == FieldsText(y, first)
    decreases x
  {
    if x.Field? {
      PlainWritesTheSame(x.value, y.value);
      PlainFieldsWriteTheSame(x.rest, y.rest, false);
    }
  }

  // ---- What the text determines ------------------------------------------

  lemma SameSlice(t: string, p: nat, x: string, y: string)
    requires At(t, p, x) && At(t, p, y) && |x| == |y|
    ensures x == y
  {
  }

  /** The parser reads one token there, so two values whose texts start at the same
      place are of one kind and one length. */
  lemma SameToken(t: string, p: nat, v: Value, w: Value)
    requires ValidValue(v) && ValidValue(w) && At(t, p, Text(v)) && At(t, p, Text(w))
    requires Ended(t, p + |Text(v)|) && Ended(t, p + |Text(w)|)
    ensures TokOf(v, p) == TokOf(w, p) && Text(v) == Text(w)
  {
    hide Rec;
    ValueReads(t, p, v, ANY);
    ValueReads(t, p, w, ANY);
    assert After(TokOf(v, p)) == After(TokOf(w, p));
    SameSlice(t, p, Text(v), Text(w));
  }

  /** Two values whose texts start at the same place are alike. */
  lemma {:induction false} SameTree(t: string, p: nat, v: Value, w: Value)
    requires ValidValue(v) && ValidValue(w) && At(t, p, Text(v)) && At(t, p, Text(w))
    requires Ended(t, p + |Text(v)|) && Ended(t, p + |Text(w)|)
    ensures Plain(v) == Plain(w) && |Text(v)| == |Text(w)|
    decreases v
  {
    SameToken(t, p, v, w);
    if v.Str? {
      SameStrings(v.text, w.text);
    } else if v.Arr? {
      ArrayText(t, p, v.items);
      ArrayText(t, p, w.items);
      SameItems(t, p + 1, v.items, w.items, true);
    } else if v.Obj? {
      ObjectText(t, p, v.fields);
      ObjectText(t, p, w.fields);
      SameFields(t, p + 1, v.fields, w.fields, true);
    }
  }

  lemma SameStrings(s: string, t: string)
    requires NoNul(s) && NoNul(t) && Text(Str(s)) == Text(Str(t))
    ensures PlainText(s) == PlainText(t)
  {
    assert Text(Str(s))[1..|Escape(s)| + 1] == Escape(s);
    assert Text(Str(t))[1..|Escape(t)| + 1] == Escape(t);
    assert |Text(Str(s))| == |Text(Str(t))|;
    EscapeIsPlain(s, t);
  }

  lemma {:induction false} SameItems(t: string, p: nat, x: Items, y: Items, first: bool)
    requires ValidItems(x) && ValidItems(y) && ItemCount(x) == ItemCount(y)
    requires At(t, p, ItemsText(x, first) + "]") && At(t, p, ItemsText(y, first) + "]")
    ensures PlainItems(x) == PlainItems(y)
    decreases x
  {
    hide Text, ItemsText, Ended, At;
    if x.Item? {
      var c := Comma(!first);
      ItemParts(t, p, x.value, x.rest, first);
      ItemParts(t, p, y.value, y.rest, first);
      SameTree(t, p + |c|, x.value, y.value);
      SameItems(t, p + |c| + |Text(x.value)|, x.rest, y.rest, false);
    }
  }

  lemma SameName(t: string, p: nat, x: string, y: string)
    requires PlainName(x) && PlainName(y) && At(t, p, NameText(x)) && At(t, p, NameText(y))
    ensures x == y
  {
    hide Rec;
    NameReads(t, p, x, ANY);
    NameReads(t, p, y, ANY);
    assert KeyTok(x, p) == KeyTok(y, p);
    SameSlice(t, p, NameText(x), NameText(y));
    assert NameText(x)[1..|x| + 1] == x && NameText(y)[1..|y| + 1] == y;
  }

  lemma {:induction false} SameFields(t: string, p: nat, x: Fields, y: Fields, first: bool)
    requires ValidFields(x) && ValidFields(y) && FieldCount(x) == FieldCount(y)
    requires At(t, p, FieldsText(x, first) + "}") && At(t, p, FieldsText(y, first) + "}")
    ensures PlainFields(x) == PlainFields(y)
    decreases x
  {
    hide Text, FieldsText, NameText, PlainName, Ended, At;
    if x.Field? {
      var c := Comma(!first);
      FieldParts(t, p, x.name, x.value, x.rest, first);
      FieldParts(t, p, y.name, y.value, y.rest, first);
      SameName(t, p + |c|, x.name, y.name);
      var k := p + |c| + |NameText(x.name)|;
      SameTree(t, k, x.value, y.value);
      SameFields(t, k + |Text(x.value)|, x.rest, y.rest, false);
    }
  }

  /** Two trees have the same text if and only if they are the same once every
      vertical tab in a string is read as a newline. */
  lemma TextDeterminesTree(v: Value, w: Value)
    requires ValidValue(v) && ValidValue(w)
    ensures Text(v) == Text(w) <==> Plain(v) == Plain(w)
  {
    if Text(v) == Text(w) {
      var t := Text(v);
      assert t[0..0 + |t|] == t;
      SameTree(t, 0, v, w);
    }
    if Plain(v) == Plain(w) {
      PlainWritesTheSame(v, w);
    }
  }

  ghost predicate NoTabs(v: Value) {
    Plain(v) == v
  }

  /** Without vertical tabs the text determines the tree. */
  lemma TextIsTheTree(v: Value, w: Value)
    requires ValidValue(v) && ValidValue(w) && NoTabs(v) && NoTabs(w) && Text(v) == Text(w)
    ensures v == w
  {
    TextDeterminesTree(v, w);
  }

  /** Two different trees, with one text and one stream of tokens. */
  lemma TabIsLost()
    ensures var v, w := Arr(Item(Str([VT]), NoItems)), Arr(Item(Str("\n"), NoItems));
            && ValidValue(v) && ValidValue(w) && v != w
            && Text(v) == Text(w) && Tokens(v, 0) == Tokens(w, 0)
  {
    var v, w := Str([VT]), Str("\n");
    assert Escaped(VT) == Escaped('\n');
    assert Escape([VT]) == Escaped(VT) + Escape([]) && Escape("\n") == Escaped('\n') + Escape([]);
    assert [VT] != "\n" by {
      assert [VT][0] != "\n"[0];
    }
    assert Text(v) == Text(w);
    OneItem(v);
    OneItem(w);
  }

  lemma OneItem(v: Value)
    ensures var c := Arr(Item(v, NoItems)); Text(c) == "[" + Text(v) + "]"
    ensures var c := Arr(Item(v, NoItems)); Tokens(c, 0) == [TokOf(c, 0)] + Tokens(v, 1)
  {
    var q := 1 + |Text(v)|;
    assert ItemsText(NoItems, false) == "" && Text(v) + "" == Text(v) && "" + Text(v) == Text(v);
    assert ItemTokens(NoItems, q, false) == [] && Tokens(v, 1) + [] == Tokens(v, 1);
  }
}
