/** The JSON encoder of src/json.c: where it puts commas, and what it writes. */
module JsonText {
  import NumberText

  // ---- Value trees -------------------------------------------------------

  datatype Value =
    | Str(text: string)
    | Num(digits: string)
    | Bool(value: bool)
    | Arr(items: Items)
    | Obj(fields: Fields)

  datatype Items = NoItems | Item(value: Value, rest: Items)

  datatype Fields = NoFields | Field(name: string, value: Value, rest: Fields)

  const BACKSLASH: char := '\\'
  const QUOTE: char := '"'

  predicate Digit(ch: char) {
    '0' <= ch <= '9'
  }

  /** A decimal integer, as ultoa and ltoa print them. */
  predicate Integer(s: string) {
    s != "" && var k := if s[0] == '-' then 1 else 0;
               k < |s| && forall i :: k <= i < |s| ==> Digit(s[i])
  }

  /** What C strings can hold. */
  predicate NoNul(s: string) {
    '\0' !in s
  }

  /** A field name goes out as it is. */
  predicate PlainName(s: string) {
    NoNul(s) && QUOTE !in s && BACKSLASH !in s
  }

  predicate EndsInBackslash(s: string) {
    s != "" && s[|s| - 1] == BACKSLASH
  }

  /** The trees that can be written and read back. */
  ghost predicate ValidValue(v: Value) {
    match v
    case Str(s) => NoNul(s) && !EndsInBackslash(s)
    case Num(d) => Integer(d)
    case Bool(_) => true
    case Arr(items) => ValidItems(items)
    case Obj(fields) => ValidFields(fields)
  }

  ghost predicate ValidItems(items: Items) {
    match items
    case NoItems => true
    case Item(v, rest) => ValidValue(v) && ValidItems(rest)
  }

  ghost predicate ValidFields(fields: Fields) {
    match fields
    case NoFields => true
    case Field(name, v, rest) => PlainName(name) && ValidValue(v) && ValidFields(rest)
  }

  // ---- Escaping ----------------------------------------------------------

  /** escapechar of strescape; NUL for a character that goes out as it is. */
  function EscapeChar(c: char): char {
    if c == QUOTE || c == BACKSLASH || c == '/' then c
    else if c == 8 as char then 'b'
    else if c == 12 as char then 'f'
    else if c == '\n' || c == 11 as char then 'n'
    else if c == '\r' then 'r'
    else if c == '\t' then 't'
    else '\0'
  }

  function Escaped(c: char): (s: string)
    ensures s != ""
  {
    if EscapeChar(c) != '\0' then [BACKSLASH, EscapeChar(c)] else [c]
  }

  function Escape(s: string): string {
    if s == "" then "" else Escaped(s[0]) + Escape(s[1..])
  }

  /** strescape */
  method StrEscape(src: string) returns (dst: string)
    requires NoNul(src)
    ensures dst == Escape(src)
  {
    dst := "";
    var i := 0;
    while i < |src|
      invariant i <= |src| && dst + Escape(src[i..]) == Escape(src)
    {
      var c := src[i];
      assert src[i..][1..] == src[i + 1..];
      ghost var rest := Escape(src[i + 1..]);
      assert dst + (Escaped(c) + rest) == (dst + Escaped(c)) + rest;
      var e := EscapeChar(c);
      if e != '\0' {
        dst := dst + [BACKSLASH];
        c := e;
      }
      dst := dst + [c];
      i := i + 1;
    }
  }

  // ---- The text of a tree ------------------------------------------------

  /** Commas by structure: before every item and field but the first. */
  function Text(v: Value): string {
    match v
    case Str(s) => [QUOTE] + Escape(s) + [QUOTE]
    case Num(d) => d
    case Bool(b) => if b then "true" else "false"
    case Arr(items) => "[" + ItemsText(items, true) + "]"
    case Obj(fields) => "{" + FieldsText(fields, true) + "}"
  }

  function ItemsText(items: Items, first: bool): string {
    match items
    case NoItems => ""
    case Item(v, rest) => (if first then "" else ",") + Text(v) + ItemsText(rest, false)
  }

  function NameText(name: string): string {
    [QUOTE] + name + [QUOTE] + ":"
  }

  function FieldsText(fields: Fields, first: bool): string {
    match fields
    case NoFields => ""
    case Field(name, v, rest) =>
      (if first then "" else ",") + NameText(name) + Text(v) + FieldsText(rest, false)
  }

  // ---- The encoder -------------------------------------------------------

  /** The last character that is not a space; NUL when there is none. */
  function LastSolid(t: string): char {
    if t == "" then '\0'
    else if NumberText.IsSpace(t[|t| - 1]) then LastSolid(t[..|t| - 1])
    else t[|t| - 1]
  }

  predicate NeedsComma(t: string) {
    LastSolid(t) !in {'\0', ':', '['}
  }

  function Comma(needed: bool): string {
    if needed then "," else ""
  }

  class Encoder {
    var text: string

    constructor ()
      ensures text == ""
    {
      text := "";
    }

    /** The scan valueneedscomma and isfirstfield start with. */
    method LastChar() returns (i: int)
      ensures -1 <= i < |text|
      ensures LastSolid(text) == if i >= 0 then text[i] else '\0'
    {
      i := |text| - 1;
      assert text[..i + 1] == text;
      while i >= 0
        invariant -1 <= i < |text| && LastSolid(text[..i + 1]) == LastSolid(text)
      {
        if !NumberText.IsSpace(text[i]) {
          break;
        }
        assert text[..i + 1][..i] == text[..i];
        i := i - 1;
      }
    }

    /** valueneedscomma; a NUL in the text would end it. */
    method ValueNeedsComma() returns (comma: bool)
      requires NoNul(text)
      ensures comma == NeedsComma(text)
    {
      var i := LastChar();
      comma := i >= 0 && text[i] != ':' && text[i] != '[';
    }

    /** isfirstfield */
    method IsFirstField() returns (first: bool)
      ensures first == (LastSolid(text) == '{')
    {
      var i := LastChar();
      first := i >= 0 && text[i] == '{';
    }

    /** The part newjsonobj, newjsonarr and the newjsonval functions share. */
    method Put(s: string)
      requires NoNul(text)
      modifies this
      ensures text == old(text) + Comma(NeedsComma(old(text))) + s
    {
      var comma := ValueNeedsComma();
      if comma {
        text := text + ",";
      }
      text := text + s;
    }

    method NewField(name: string)
      modifies this
      ensures text == old(text) + Comma(LastSolid(old(text)) != '{') + NameText(name)
    {
      var first := IsFirstField();
      if !first {
        text := text + ",";
      }
      text := text + [QUOTE];
      text := text + name;
      text := text + [QUOTE];
      text := text + ":";
    }

    method NewString(val: string)
      requires NoNul(text) && NoNul(val)
      modifies this
      ensures text == old(text) + Comma(NeedsComma(old(text))) + Text(Str(val))
    {
      var s := StrEscape(val);
      Put([QUOTE] + s + [QUOTE]);
    }

    method Close(ch: char)
      modifies this
      ensures text == old(text) + [ch]
    {
      text := text + [ch];
    }

    /** Writes a tree the way callers do: one call for every value, field,
        opening and closing. Last-character commas come out as structure wants. */
    method Write(v: Value)
      requires NoNul(text) && ValidValue(v)
      modifies this
      ensures text == old(text) + Comma(NeedsComma(old(text))) + Text(v) && NoNul(text)
      decreases v, 0
    {
      TextHasNoNul(v);
      match v
      case Str(s) => NewString(s);
      case Num(d) => Put(d);
      case Bool(b) => Put(if b then "true" else "false");
      case Arr(items) => WriteArray(items);
      case Obj(fields) => WriteObject(fields);
    }

    method WriteArray(items: Items)
      requires NoNul(text) && ValidItems(items)
      modifies this
      ensures text == old(text) + Comma(NeedsComma(old(text))) + Text(Arr(items)) && NoNul(text)
      decreases items, 1
    {
      ghost var t := text + Comma(NeedsComma(text));
      Put("[");
      SolidEnd(t, '[');
      WriteItems(items, true);
      Close(']');
      Joined(t, "[", ItemsText(items, true), "]");
    }

    method WriteObject(fields: Fields)
      requires NoNul(text) && ValidFields(fields)
      modifies this
      ensures text == old(text) + Comma(NeedsComma(old(text))) + Text(Obj(fields)) && NoNul(text)
      decreases fields, 1
    {
      ghost var t := text + Comma(NeedsComma(text));
      Put("{");
      SolidEnd(t, '{');
      WriteFields(fields, true);
      Close('}');
      Joined(t, "{", FieldsText(fields, true), "}");
    }

    method WriteItems(items: Items, ghost first: bool)
      requires NoNul(text) && ValidItems(items) && NeedsComma(text) == !first
      modifies this
      ensures text == old(text) + ItemsText(items, first) && NoNul(text)
      decreases items, 0
    {
      if items.Item? {
        ghost var t := text + Comma(!first);
        Write(items.value);
        TextEndsSolid(t, items.value);
        WriteItems(items.rest, false);
        Joined(old(text), Comma(!first), Text(items.value), ItemsText(items.rest, false));
      } else {
        assert text + "" == text;
      }
    }

    method WriteFields(fields: Fields, ghost first: bool)
      requires NoNul(text) && ValidFields(fields) && (LastSolid(text) == '{') == first
      modifies this
      ensures text == old(text) + FieldsText(fields, first) && NoNul(text)
      decreases fields, 0
    {
      if fields.Field? {
        WriteField(fields.name, fields.value, first);
        ghost var one := Comma(!first) + NameText(fields.name) + Text(fields.value);
        WriteFields(fields.rest, false);
        assert old(text) + one + FieldsText(fields.rest, false) == old(text) + (one + FieldsText(fields.rest, false));
      } else {
        assert text + "" == text;
      }
    }

    method WriteField(name: string, v: Value, ghost first: bool)
      requires NoNul(text) && PlainName(name) && ValidValue(v) && (LastSolid(text) == '{') == first
      modifies this
      ensures text == old(text) + (Comma(!first) + NameText(name) + Text(v)) && NoNul(text)
      ensures LastSolid(text) != '{'
      decreases v, 1
    {
      ghost var t := text + Comma(!first);
      NewField(name);
      NameEndsInColon(text, t, name);
      assert NoNul(NameText(name));
      Write(v);
      TextEndsSolid(t + NameText(name), v);
      Joined(old(text), Comma(!first), NameText(name), Text(v));
    }
  }

  lemma Joined(t: string, x: string, y: string, z: string)
    ensures t + x + y + z == t + (x + y + z)
  {
  }

  lemma NameEndsInColon(text: string, t: string, name: string)
    requires text == t + NameText(name)
    ensures LastSolid(text) == ':'
  {
    assert text == (t + ([QUOTE] + name + [QUOTE])) + [':'];
    SolidEnd(t + ([QUOTE] + name + [QUOTE]), ':');
  }

  lemma SolidEnd(t: string, ch: char)
    requires !NumberText.IsSpace(ch)
    ensures LastSolid(t + [ch]) == ch
  {
    assert (t + [ch])[|t|] == ch;
  }

  /** Whatever a tree ends in, the next value or field after it needs a comma. */
  lemma TextEndsSolid(t: string, v: Value)
    requires ValidValue(v)
    ensures LastSolid(t + Text(v)) !in {'\0', ':', '[', '{'}
  {
    var s := Text(v);
    var last := s[|s| - 1];
    assert v.Num? ==> Digit(last);
    assert t + s == (t + s[..|s| - 1]) + [last];
    SolidEnd(t + s[..|s| - 1], last);
  }

  lemma {:induction false} EscapeHasNoNul(s: string)
    requires NoNul(s)
    ensures NoNul(Escape(s))
  {
    if s != "" {
      assert s[0] in s && forall c :: c in s[1..] ==> c in s;
      EscapeHasNoNul(s[1..]);
    }
  }

  lemma {:induction false} TextHasNoNul(v: Value)
    requires ValidValue(v)
    ensures NoNul(Text(v))
    decreases v
  {
    match v
    case Str(s) => EscapeHasNoNul(s);
    case Num(d) =>
    case Bool(_) =>
    case Arr(items) => ItemsHaveNoNul(items, true);
    case Obj(fields) => FieldsHaveNoNul(fields, true);
  }

  lemma {:induction false} ItemsHaveNoNul(items: Items, first: bool)
    requires ValidItems(items)
    ensures NoNul(ItemsText(items, first))
    decreases items
  {
    if items.Item? {
      TextHasNoNul(items.value);
      ItemsHaveNoNul(items.rest, false);
    }
  }

  lemma {:induction false} FieldsHaveNoNul(fields: Fields, first: bool)
    requires ValidFields(fields)
    ensures NoNul(FieldsText(fields, first))
    decreases fields
  {
    if fields.Field? {
      TextHasNoNul(fields.value);
      FieldsHaveNoNul(fields.rest, false);
    }
  }
}
