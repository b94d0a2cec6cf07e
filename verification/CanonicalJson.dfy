/**
 * The canonical printers (packages/core/src/artifact-capability.ts and config.ts): object keys
 * sorted by code unit at every depth, the JSON grammar of sections 4 and 5 of RFC 8259, strings
 * escaped as JSON.stringify does. A parser that undoes them shows the text is unambiguous.
 */
module CanonicalJson {
  import opened Wrappers
  import opened TextCodec
  import opened TextOrder

  // A finite number is what its ECMAScript decimal text says; distinct numbers have distinct texts.
  datatype Value =
    | Null
    | Bool(b: bool)
    | Num(text: Text)
    | Str(s: Text)
    | Arr(items: seq<Value>)
    | Obj(entries: seq<Entry<Value>>)  // in insertion order

  predicate NumberUnit(u: Unit) {
    '0' as int <= u <= '9' as int || u == '-' as int || u == '+' as int || u == '.' as int || u == 'e' as int
        || u == 'E' as int
  }

  predicate NumberText(t: Text) {
    t != [] && (t[0] == '-' as int || '0' as int <= t[0] <= '9' as int) && forall i :: 0 <= i < |t| ==> NumberUnit(t[i])
  }

  ghost predicate WellFormed(v: Value) {
    match v
    case Num(text) => NumberText(text)
    case Arr(items) => forall i :: 0 <= i < |items| ==> WellFormed(items[i])
    case Obj(entries) => DistinctKeys(entries) && forall i :: 0 <= i < |entries| ==> WellFormed(entries[i].value)
    case _ => true
  }

  // The value under a key; of a repeated key the last one counts.
  function Lookup(entries: seq<Entry<Value>>, key: Text): Option<Value> {
    if entries == [] then None
    else
      var last := entries[|entries| - 1];
      if last.key == key then Some(last.value) else Lookup(entries[..|entries| - 1], key)
  }

  lemma {:induction false} LookupFound(entries: seq<Entry<Value>>, i: nat)
    requires DistinctKeys(entries) && i < |entries|
    ensures Lookup(entries, entries[i].key) == Some(entries[i].value)
  {
    var n := |entries| - 1;
    if i < n {
      LookupFound(entries[..n], i);
    }
  }

  lemma {:induction false} LookupMissing(entries: seq<Entry<Value>>, key: Text)
    requires forall i :: 0 <= i < |entries| ==> entries[i].key != key
    ensures Lookup(entries, key) == None
  {
    if entries != [] {
      LookupMissing(entries[..|entries| - 1], key);
    }
  }

  // ----- strings -----

  const QUOTE: Unit := 0x22
  const BACKSLASH: Unit := 0x5C
  const COMMA: Unit := 0x2C
  const COLON: Unit := 0x3A
  const OPEN_BRACKET: Unit := 0x5B
  const CLOSE_BRACKET: Unit := 0x5D
  const OPEN_BRACE: Unit := 0x7B
  const CLOSE_BRACE: Unit := 0x7D

  predicate HighSurrogate(u: Unit) { 0xD800 <= u <= 0xDBFF }
  predicate LowSurrogate(u: Unit) { 0xDC00 <= u <= 0xDFFF }

  // Every surrogate is half of a pair.
  predicate Paired(t: Text) {
    forall i :: 0 <= i < |t| ==> PairedAt(t, i)
  }

  predicate PairedAt(t: Text, i: nat)
    requires i < |t|
  {
    && (HighSurrogate(t[i]) ==> i + 1 < |t| && LowSurrogate(t[i + 1]))
    && (LowSurrogate(t[i]) ==> i > 0 && HighSurrogate(t[i - 1]))
  }

  lemma RestIsPaired(t: Text, n: nat)
    requires Paired(t) && 0 < n <= |t| && !HighSurrogate(t[n - 1])
    ensures Paired(t[n..])
  {
    forall i | 0 <= i < |t[n..]| ensures PairedAt(t[n..], i) {
      assert PairedAt(t, n + i);
    }
  }

  function HexDigit(d: nat): Unit
    requires d < 16
  {
    if d < 10 then '0' as int + d else 'a' as int + d - 10
  }

  function HexValue(u: Unit): Option<nat> {
    if '0' as int <= u <= '9' as int then Some(u - '0' as int)
    else if 'a' as int <= u <= 'f' as int then Some(u - 'a' as int + 10)
    else if 'A' as int <= u <= 'F' as int then Some(u - 'A' as int + 10)
    else None
  }

  function Hex4(u: Unit): Text {
    [HexDigit(u / 0x1000), HexDigit(u / 0x100 % 16), HexDigit(u / 0x10 % 16), HexDigit(u % 16)]
  }

  // Short escapes: backspace, tab, line feed, form feed, carriage return, quote and backslash.
  function ShortEscape(u: Unit): Option<Unit> {
    if u == 0x08 then Some('b' as int)
    else if u == 0x09 then Some('t' as int)
    else if u == 0x0A then Some('n' as int)
    else if u == 0x0C then Some('f' as int)
    else if u == 0x0D then Some('r' as int)
    else if u == QUOTE || u == BACKSLASH then Some(u)
    else None
  }

  function Unescaped(c: Unit): Option<Unit> {
    if c == 'b' as int then Some(0x08)
    else if c == 't' as int then Some(0x09)
    else if c == 'n' as int then Some(0x0A)
    else if c == 'f' as int then Some(0x0C)
    else if c == 'r' as int then Some(0x0D)
    else if c == QUOTE || c == BACKSLASH || c == '/' as int then Some(c)
    else None
  }

  function EscapeUnit(u: Unit): Text {
    if ShortEscape(u).Some? then [BACKSLASH, ShortEscape(u).value]
    else if u < 0x20 || HighSurrogate(u) || LowSurrogate(u) then [BACKSLASH, 'u' as int] + Hex4(u)
    else [u]
  }

  // A surrogate pair is written as it is; a lone surrogate is escaped.
  function Escape(s: Text): Text {
    if s == [] then []
    else if |s| > 1 && HighSurrogate(s[0]) && LowSurrogate(s[1]) then s[..2] + Escape(s[2..])
    else EscapeUnit(s[0]) + Escape(s[1..])
  }

  function Quote(s: Text): Text {
    [QUOTE] + Escape(s) + [QUOTE]
  }

  // ----- printing -----

  // JSON.stringify, keys in the order the object has them.
  function Write(v: Value): Text
    decreases v, 1
  {
    match v
    case Null => T("null")
    case Bool(b) => if b then T("true") else T("false")
    case Num(text) => text
    case Str(s) => Quote(s)
    case Arr(items) => [OPEN_BRACKET] + WriteItems(items) + [CLOSE_BRACKET]
    case Obj(entries) => [OPEN_BRACE] + WriteEntries(entries) + [CLOSE_BRACE]
  }

  function WriteItems(items: seq<Value>): Text
    decreases items, 0
  {
    if items == [] then []
    else Write(items[0]) + if |items| == 1 then [] else [COMMA] + WriteItems(items[1..])
  }

  function WriteEntries(entries: seq<Entry<Value>>): Text
    decreases entries, 0
  {
    if entries == [] then []
    else
      Member(entries[0].key, Write(entries[0].value))
      + if |entries| == 1 then [] else [COMMA] + WriteEntries(entries[1..])
  }

  function Member(key: Text, text: Text): Text {
    Quote(key) + [COLON] + text
  }

  // config.ts: sort the keys at every depth, then stringify.
  function Canonicalize(v: Value): Value
    decreases v, 1
  {
    match v
    case Arr(items) => Arr(CanonicalizeItems(items))
    case Obj(entries) => Obj(SortEntries(CanonicalizeEntries(entries)))
    case _ => v
  }

  function CanonicalizeItems(items: seq<Value>): (r: seq<Value>)
    decreases items, 0
  {
    if items == [] then [] else [Canonicalize(items[0])] + CanonicalizeItems(items[1..])
  }

  function CanonicalizeEntries(entries: seq<Entry<Value>>): seq<Entry<Value>>
    decreases entries, 0
  {
    if entries == [] then []
    else [Entry(entries[0].key, Canonicalize(entries[0].value))] + CanonicalizeEntries(entries[1..])
  }

  function CanonicalJsonValue(v: Value): Text {
    Write(Canonicalize(v))
  }

  // artifact-capability.ts: prints and sorts in one recursion.
  function Canonical(v: Value): Text
    decreases v, 1
  {
    match v
    case Arr(items) => [OPEN_BRACKET] + Commas(CanonicalItems(items)) + [CLOSE_BRACKET]
    case Obj(entries) => [OPEN_BRACE] + Commas(Members(SortEntries(CanonicalEntries(entries)))) + [CLOSE_BRACE]
    case _ => Write(v)
  }

  function CanonicalItems(items: seq<Value>): seq<Text>
    decreases items, 0
  {
    if items == [] then [] else [Canonical(items[0])] + CanonicalItems(items[1..])
  }

  // The order depends on the keys alone, so each entry may as well be printed before the sort.
  function CanonicalEntries(entries: seq<Entry<Value>>): seq<Entry<Text>>
    decreases entries, 0
  {
    if entries == [] then []
    else [Entry(entries[0].key, Canonical(entries[0].value))] + CanonicalEntries(entries[1..])
  }

  function Members(entries: seq<Entry<Text>>): seq<Text> {
    if entries == [] then [] else [Member(entries[0].key, entries[0].value)] + Members(entries[1..])
  }

  function Commas(parts: seq<Text>): Text {
    if parts == [] then [] else Join(parts, COMMA)
  }

  // ----- parsing -----

  datatype Parsed<+V> = Parsed(value: V, rest: Text)

  function ParseHex4(t: Text): Option<Unit>
    requires |t| >= 4
  {
    var a, b, c, d := HexValue(t[0]), HexValue(t[1]), HexValue(t[2]), HexValue(t[3]);
    if || a.None? || b.None? || c.None? || d.None?
       || a.value >= 16 || b.value >= 16 || c.value >= 16 || d.value >= 16
    then None
    else Some(a.value * 0x1000 + b.value * 0x100 + c.value * 0x10 + d.value)
  }

  // One unit of a string, from its escaped form.
  function ParseUnit(t: Text): (p: Option<Parsed<Unit>>)
    requires t != []
    ensures p.Some? ==> |p.value.rest| < |t|
  {
    if t[0] != BACKSLASH then
      if t[0] < 0x20 || t[0] == QUOTE then None else Some(Parsed(t[0], t[1..]))
    else if |t| >= 6 && t[1] == 'u' as int then
      if ParseHex4(t[2..]).Some? then Some(Parsed(ParseHex4(t[2..]).value, t[6..])) else None
    else if |t| >= 2 && Unescaped(t[1]).Some? then Some(Parsed(Unescaped(t[1]).value, t[2..]))
    else None
  }

  // The rest of a string, after its opening quote.
  function ParseString(t: Text): (p: Option<Parsed<Text>>)
    ensures p.Some? ==> |p.value.rest| < |t|
    decreases |t|
  {
    if t == [] then None
    else if t[0] == QUOTE then Some(Parsed([], t[1..]))
    else
      var u := ParseUnit(t);
      if u.None? then None
      else
        var rest := ParseString(u.value.rest);
        if rest.None? then None else Some(Parsed([u.value.value] + rest.value.value, rest.value.rest))
  }

  function NumberLength(t: Text): (n: nat)
    ensures n <= |t|
  {
    if t == [] || !NumberUnit(t[0]) then 0 else 1 + NumberLength(t[1..])
  }

  function ParseValue(t: Text): (p: Option<Parsed<Value>>)
    ensures p.Some? ==> |p.value.rest| < |t|
    decreases |t|, 0
  {
    if T("null") <= t then Some(Parsed(Null, t[4..]))
    else if T("true") <= t then Some(Parsed(Bool(true), t[4..]))
    else if T("false") <= t then Some(Parsed(Bool(false), t[5..]))
    else if t == [] then None
    else if t[0] == QUOTE then
      var s := ParseString(t[1..]);
      if s.None? then None else Some(Parsed(Str(s.value.value), s.value.rest))
    else if t[0] == OPEN_BRACKET then
      if |t| > 1 && t[1] == CLOSE_BRACKET then Some(Parsed(Arr([]), t[2..]))
      else
        var items := ParseItems(t[1..]);
        if items.None? then None else Some(Parsed(Arr(items.value.value), items.value.rest))
    else if t[0] == OPEN_BRACE then
      if |t| > 1 && t[1] == CLOSE_BRACE then Some(Parsed(Obj([]), t[2..]))
      else
        var entries := ParseEntries(t[1..]);
        if entries.None? then None else Some(Parsed(Obj(entries.value.value), entries.value.rest))
    else if t[0] == '-' as int || '0' as int <= t[0] <= '9' as int then
      Some(Parsed(Num(t[..NumberLength(t)]), t[NumberLength(t)..]))
    else None
  }

  // One item or more, up to and including the closing bracket.
  function ParseItems(t: Text): (p: Option<Parsed<seq<Value>>>)
    ensures p.Some? ==> |p.value.rest| < |t|
    decreases |t|, 1
  {
    var first := ParseValue(t);
    if first.None? || first.value.rest == [] then None
    else
      var rest := first.value.rest;
      if rest[0] == CLOSE_BRACKET then Some(Parsed([first.value.value], rest[1..]))
      else if rest[0] == COMMA then
        var more := ParseItems(rest[1..]);
        if more.None? then None else Some(Parsed([first.value.value] + more.value.value, more.value.rest))
      else None
  }

  function ParseEntries(t: Text): (p: Option<Parsed<seq<Entry<Value>>>>)
    ensures p.Some? ==> |p.value.rest| < |t|
    decreases |t|, 1
  {
    if t == [] || t[0] != QUOTE then None
    else
      var key := ParseString(t[1..]);
      if key.None? || key.value.rest == [] || key.value.rest[0] != COLON then None
      else
        var first := ParseValue(key.value.rest[1..]);
        if first.None? || first.value.rest == [] then None
        else
          var entry := Entry(key.value.value, first.value.value);
          var rest := first.value.rest;
          if rest[0] == CLOSE_BRACE then Some(Parsed([entry], rest[1..]))
          else if rest[0] == COMMA then
            var more := ParseEntries(rest[1..]);
            if more.None? then None else Some(Parsed([entry] + more.value.value, more.value.rest))
          else None
  }

  function Parse(t: Text): Option<Value> {
    var p := ParseValue(t);
    if p.Some? && p.value.rest == [] then Some(p.value.value) else None
  }

  // ----- the parser undoes the printer -----

  lemma HexDigitRoundTrip(d: nat)
    requires d < 16
    ensures HexValue(HexDigit(d)) == Some(d)
  {
  }

  lemma HexDigits(u: Unit)
    ensures u / 0x1000 < 16
    ensures u == u / 0x1000 * 0x1000 + u / 0x100 % 16 * 0x100 + u / 0x10 % 16 * 0x10 + u % 16
  {
    assert u / 0x100 == u / 0x10 / 16 && u / 0x1000 == u / 0x100 / 16;
    assert u / 0x10 == u / 0x100 * 16 + u / 0x10 % 16;
    assert u / 0x100 == u / 0x1000 * 16 + u / 0x100 % 16;
  }

  lemma HexRoundTrip(u: Unit, rest: Text)
    ensures ParseHex4(Hex4(u) + rest) == Some(u)
  {
    hide HexDigit, HexValue;
    var a, b, c, d := u / 0x1000, u / 0x100 % 16, u / 0x10 % 16, u % 16;
    HexDigits(u);
    HexDigitRoundTrip(a);
    HexDigitRoundTrip(b);
    HexDigitRoundTrip(c);
    HexDigitRoundTrip(d);
    var t := Hex4(u) + rest;
    assert t[0] == HexDigit(a) && t[1] == HexDigit(b) && t[2] == HexDigit(c) && t[3] == HexDigit(d);
  }

  lemma UnitRoundTrip(u: Unit, rest: Text)
    ensures EscapeUnit(u) != [] && EscapeUnit(u)[0] != QUOTE
    ensures ParseUnit(EscapeUnit(u) + rest) == Some(Parsed(u, rest))
  {
    var t := EscapeUnit(u) + rest;
    assert t[|EscapeUnit(u)|..] == rest;
    if ShortEscape(u).Some? {
      assert t[0] == BACKSLASH && t[1] == ShortEscape(u).value;
    } else if |EscapeUnit(u)| == 6 {
      HexRoundTrip(u, rest);
      assert t[2..] == Hex4(u) + rest;
    } else {
      assert t[0] == u;
    }
  }

  // A surrogate that is half of a pair stands for itself.
  lemma RawRoundTrip(u: Unit, rest: Text)
    requires HighSurrogate(u) || LowSurrogate(u)
    ensures ParseUnit([u] + rest) == Some(Parsed(u, rest))
  {
    assert ([u] + rest)[1..] == rest;
  }

  lemma ReadUnit(t: Text, u: Unit, more: Text, s: Text, rest: Text)
    requires t != [] && t[0] != QUOTE
    requires ParseUnit(t) == Some(Parsed(u, more)) && ParseString(more) == Some(Parsed(s, rest))
    ensures ParseString(t) == Some(Parsed([u] + s, rest))
  {
    hide ParseUnit;
  }

  lemma {:induction false} StringRoundTrip(s: Text, rest: Text)
    ensures ParseString(Escape(s) + [QUOTE] + rest) == Some(Parsed(s, rest))
    decreases |s|
  {
    hide ParseUnit, EscapeUnit, ParseHex4, Hex4;
    var t := Escape(s) + [QUOTE] + rest;
    if s == [] {
      assert t == [QUOTE] + rest && t[1..] == rest;
    } else if |s| > 1 && HighSurrogate(s[0]) && LowSurrogate(s[1]) {
      var more := Escape(s[2..]) + [QUOTE] + rest;
      StringRoundTrip(s[2..], rest);
      RawRoundTrip(s[1], more);
      ReadUnit([s[1]] + more, s[1], more, s[2..], rest);
      RawRoundTrip(s[0], [s[1]] + more);
      assert t == [s[0]] + ([s[1]] + more);
      ReadUnit(t, s[0], [s[1]] + more, [s[1]] + s[2..], rest);
      assert [s[0]] + ([s[1]] + s[2..]) == s;
    } else {
      var more := Escape(s[1..]) + [QUOTE] + rest;
      StringRoundTrip(s[1..], rest);
      UnitRoundTrip(s[0], more);
      assert t == EscapeUnit(s[0]) + more;
      ReadUnit(t, s[0], more, s[1..], rest);
      assert [s[0]] + s[1..] == s;
    }
  }

  // What follows a value must not continue a number.
  predicate Delimited(rest: Text) {
    rest == [] || !NumberUnit(rest[0])
  }

  lemma {:induction false} NumberRoundTrip(text: Text, rest: Text)
    requires Delimited(rest) && forall i :: 0 <= i < |text| ==> NumberUnit(text[i])
    ensures NumberLength(text + rest) == |text|
  {
    if text == [] {
      assert text + rest == rest;
    } else {
      assert (text + rest)[1..] == text[1..] + rest;
      NumberRoundTrip(text[1..], rest);
    }
  }

  // No value's text is empty, or begins like a closing bracket or brace.
  lemma WriteStarts(v: Value)
    requires WellFormed(v)
    ensures Write(v) != [] && Write(v)[0] != CLOSE_BRACKET && Write(v)[0] != CLOSE_BRACE
  {
  }

  lemma ReadWord(v: Value, rest: Text)
    requires v.Null? || v.Bool?
    ensures ParseValue(Write(v) + rest) == Some(Parsed(v, rest))
  {
    var t := Write(v) + rest;
    assert t[|Write(v)|..] == rest && Write(v) <= t && t[0] == Write(v)[0];
  }

  lemma ReadNumber(text: Text, rest: Text)
    requires NumberText(text) && Delimited(rest)
    ensures ParseValue(text + rest) == Some(Parsed(Num(text), rest))
  {
    var t := text + rest;
    NumberRoundTrip(text, rest);
    assert t[0] == text[0];
    assert t[..|text|] == text && t[|text|..] == rest;
  }

  lemma ReadString(s: Text, rest: Text)
    ensures ParseValue(Quote(s) + rest) == Some(Parsed(Str(s), rest))
  {
    StringRoundTrip(s, rest);
    var t := Quote(s) + rest;
    assert t[0] == QUOTE;
    assert t[1..] == Escape(s) + [QUOTE] + rest;
  }

  lemma ReadArray(body: Text, items: seq<Value>, rest: Text)
    requires body != [] && body[0] != CLOSE_BRACKET && ParseItems(body) == Some(Parsed(items, rest))
    ensures ParseValue([OPEN_BRACKET] + body) == Some(Parsed(Arr(items), rest))
  {
    var t := [OPEN_BRACKET] + body;
    assert t[0] == OPEN_BRACKET && t[1..] == body && t[1] == body[0];
  }

  lemma ReadObject(body: Text, entries: seq<Entry<Value>>, rest: Text)
    requires body != [] && body[0] != CLOSE_BRACE && ParseEntries(body) == Some(Parsed(entries, rest))
    ensures ParseValue([OPEN_BRACE] + body) == Some(Parsed(Obj(entries), rest))
  {
    var t := [OPEN_BRACE] + body;
    assert t[0] == OPEN_BRACE && t[1..] == body && t[1] == body[0];
  }

  lemma ReadEmpty(rest: Text)
    ensures ParseValue([OPEN_BRACKET, CLOSE_BRACKET] + rest) == Some(Parsed(Arr([]), rest))
    ensures ParseValue([OPEN_BRACE, CLOSE_BRACE] + rest) == Some(Parsed(Obj([]), rest))
  {
    var a, o := [OPEN_BRACKET, CLOSE_BRACKET] + rest, [OPEN_BRACE, CLOSE_BRACE] + rest;
    assert a[0] == OPEN_BRACKET && a[2..] == rest;
    assert o[0] == OPEN_BRACE && o[2..] == rest;
  }

  lemma ReadLastItem(t: Text, v: Value, rest: Text)
    requires ParseValue(t) == Some(Parsed(v, [CLOSE_BRACKET] + rest))
    ensures ParseItems(t) == Some(Parsed([v], rest))
  {
    assert ([CLOSE_BRACKET] + rest)[1..] == rest;
  }

  lemma ReadItem(t: Text, v: Value, more: Text, items: seq<Value>, rest: Text)
    requires ParseValue(t) == Some(Parsed(v, [COMMA] + more)) && ParseItems(more) == Some(Parsed(items, rest))
    ensures ParseItems(t) == Some(Parsed([v] + items, rest))
  {
    assert ([COMMA] + more)[1..] == more;
  }

  lemma {:induction false} ValueRoundTrip(v: Value, rest: Text)
    requires WellFormed(v) && Delimited(rest)
    ensures ParseValue(Write(v) + rest) == Some(Parsed(v, rest))
    decreases v, 1
  {
    hide ParseValue, ParseItems, ParseEntries;
    match v
    case Null => ReadWord(v, rest);
    case Bool(b) => ReadWord(v, rest);
    case Num(text) => ReadNumber(text, rest);
    case Str(s) => ReadString(s, rest);
    case Arr(items) => ArrayRoundTrip(items, rest);
    case Obj(entries) => ObjectRoundTrip(entries, rest);
  }

  lemma {:induction false} ArrayRoundTrip(items: seq<Value>, rest: Text)
    requires WellFormed(Arr(items))
    ensures ParseValue(Write(Arr(items)) + rest) == Some(Parsed(Arr(items), rest))
    decreases items, 1
  {
    hide ParseValue, ParseItems, WriteItems, Write;
    ReadEmpty(rest);
    WriteArray(items);
    if items == [] {
      assert Write(Arr(items)) + rest == [OPEN_BRACKET, CLOSE_BRACKET] + rest;
    } else {
      var body := WriteItems(items) + [CLOSE_BRACKET] + rest;
      ItemsRoundTrip(items, rest);
      WriteStarts(items[0]);
      assert body[0] == Write(items[0])[0];
      ReadArray(body, items, rest);
      assert Write(Arr(items)) + rest == [OPEN_BRACKET] + body;
    }
  }

  lemma {:induction false} ObjectRoundTrip(entries: seq<Entry<Value>>, rest: Text)
    requires WellFormed(Obj(entries))
    ensures ParseValue(Write(Obj(entries)) + rest) == Some(Parsed(Obj(entries), rest))
    decreases entries, 1
  {
    hide ParseValue, ParseEntries, WriteEntries, Write;
    ReadEmpty(rest);
    WriteObject(entries);
    if entries == [] {
      assert Write(Obj(entries)) + rest == [OPEN_BRACE, CLOSE_BRACE] + rest;
    } else {
      var body := WriteEntries(entries) + [CLOSE_BRACE] + rest;
      EntriesRoundTrip(entries, rest);
      ReadObject(body, entries, rest);
      assert Write(Obj(entries)) + rest == [OPEN_BRACE] + body;
    }
  }

  lemma WriteObject(entries: seq<Entry<Value>>)
    ensures Write(Obj(entries)) == [OPEN_BRACE] + WriteEntries(entries) + [CLOSE_BRACE]
    ensures if entries == [] then WriteEntries(entries) == []
            else WriteEntries(entries) != [] && WriteEntries(entries)[0] == QUOTE
  {
  }

  lemma WriteArray(items: seq<Value>)
    ensures Write(Arr(items)) == [OPEN_BRACKET] + WriteItems(items) + [CLOSE_BRACKET]
    ensures items == [] ==> WriteItems(items) == []
    ensures items != [] ==> Write(items[0]) <= WriteItems(items)
  {
  }

  lemma {:induction false} ItemsRoundTrip(items: seq<Value>, rest: Text)
    requires items != [] && forall i :: 0 <= i < |items| ==> WellFormed(items[i])
    ensures ParseItems(WriteItems(items) + [CLOSE_BRACKET] + rest) == Some(Parsed(items, rest))
    decreases items, 0
  {
    hide ParseValue, Write, ParseItems;
    var t := WriteItems(items) + [CLOSE_BRACKET] + rest;
    if |items| == 1 {
      ValueRoundTrip(items[0], [CLOSE_BRACKET] + rest);
      assert t == Write(items[0]) + ([CLOSE_BRACKET] + rest);
      ReadLastItem(t, items[0], rest);
      assert items == [items[0]];
    } else {
      var more := WriteItems(items[1..]) + [CLOSE_BRACKET] + rest;
      ItemsRoundTrip(items[1..], rest);
      ValueRoundTrip(items[0], [COMMA] + more);
      assert t == Write(items[0]) + ([COMMA] + more);
      ReadItem(t, items[0], more, items[1..], rest);
      assert items == [items[0]] + items[1..];
    }
  }

  // A member read up to the separator that follows it.
  lemma ReadMember(key: Text, text: Text, v: Value, after: Text)
    requires ParseValue(text + after) == Some(Parsed(v, after)) && after != []
    ensures var t := Member(key, text) + after;
            && (after[0] == CLOSE_BRACE ==> ParseEntries(t) == Some(Parsed([Entry(key, v)], after[1..])))
            && (after[0] == COMMA && ParseEntries(after[1..]).Some? ==>
                  var more := ParseEntries(after[1..]).value;
                  ParseEntries(t) == Some(Parsed([Entry(key, v)] + more.value, more.rest)))
  {
    hide ParseValue, ParseString, Escape;
    var t := Member(key, text) + after;
    var value := text + after;
    StringRoundTrip(key, [COLON] + value);
    assert t[0] == QUOTE;
    assert t[1..] == Escape(key) + [QUOTE] + ([COLON] + value);
    assert ([COLON] + value)[0] == COLON && ([COLON] + value)[1..] == value;
  }

  lemma {:induction false} EntriesRoundTrip(entries: seq<Entry<Value>>, rest: Text)
    requires entries != [] && forall i :: 0 <= i < |entries| ==> WellFormed(entries[i].value)
    ensures ParseEntries(WriteEntries(entries) + [CLOSE_BRACE] + rest) == Some(Parsed(entries, rest))
    decreases entries, 0
  {
    hide ParseValue, Write, ParseEntries, Member;
    var t := WriteEntries(entries) + [CLOSE_BRACE] + rest;
    var e := entries[0];
    if |entries| == 1 {
      var after := [CLOSE_BRACE] + rest;
      ValueRoundTrip(e.value, after);
      ReadMember(e.key, Write(e.value), e.value, after);
      assert t == Member(e.key, Write(e.value)) + after;
      assert after[1..] == rest;
      assert entries == [Entry(e.key, e.value)];
    } else {
      var more := WriteEntries(entries[1..]) + [CLOSE_BRACE] + rest;
      var after := [COMMA] + more;
      EntriesRoundTrip(entries[1..], rest);
      ValueRoundTrip(e.value, after);
      assert after[1..] == more;
      ReadMember(e.key, Write(e.value), e.value, after);
      assert t == Member(e.key, Write(e.value)) + after;
      assert entries == [Entry(e.key, e.value)] + entries[1..];
    }
  }

  /** A parser undoes JSON.stringify on every value, key order included. */
  lemma ParseUndoesWrite(v: Value)
    requires WellFormed(v)
    ensures Parse(Write(v)) == Some(v)
  {
    ValueRoundTrip(v, []);
    assert Write(v) + [] == Write(v);
  }

  // ----- the two canonical printers agree -----

  lemma {:induction false} CanonicalAgrees(v: Value)
    ensures Canonical(v) == CanonicalJsonValue(v)
    decreases v, 1
  {
    match v
    case Arr(items) =>
      ItemsAgree(items);
      JoinItems(CanonicalizeItems(items));
    case Obj(entries) =>
      EntriesAgree(entries);
      SortMapped(CanonicalizeEntries(entries));
      JoinEntries(SortEntries(CanonicalizeEntries(entries)));
    case _ =>
  }

  function WriteEach(items: seq<Value>): seq<Text> {
    if items == [] then [] else [Write(items[0])] + WriteEach(items[1..])
  }

  function WriteValues(entries: seq<Entry<Value>>): seq<Entry<Text>> {
    if entries == [] then [] else [Entry(entries[0].key, Write(entries[0].value))] + WriteValues(entries[1..])
  }

  lemma {:induction false} ItemsAgree(items: seq<Value>)
    ensures CanonicalItems(items) == WriteEach(CanonicalizeItems(items))
    decreases items, 0
  {
    if items != [] {
      hide Canonical, Canonicalize, Write;
      CanonicalAgrees(items[0]);
      ItemsAgree(items[1..]);
      assert CanonicalizeItems(items)[1..] == CanonicalizeItems(items[1..]);
    }
  }

  lemma {:induction false} EntriesAgree(entries: seq<Entry<Value>>)
    ensures CanonicalEntries(entries) == WriteValues(CanonicalizeEntries(entries))
    decreases entries, 0
  {
    if entries != [] {
      hide Canonical, Canonicalize, Write;
      CanonicalAgrees(entries[0].value);
      EntriesAgree(entries[1..]);
      assert CanonicalizeEntries(entries)[1..] == CanonicalizeEntries(entries[1..]);
    }
  }

  lemma {:induction false} JoinItems(items: seq<Value>)
    ensures Commas(WriteEach(items)) == WriteItems(items) && |WriteEach(items)| == |items|
  {
    if items != [] {
      hide Write;
      JoinItems(items[1..]);
      assert WriteEach(items)[1..] == WriteEach(items[1..]);
    }
  }

  lemma {:induction false} JoinEntries(entries: seq<Entry<Value>>)
    ensures Commas(Members(WriteValues(entries))) == WriteEntries(entries)
    ensures |WriteValues(entries)| == |Members(WriteValues(entries))| == |entries|
  {
    if entries != [] {
      hide Write, Member;
      JoinEntries(entries[1..]);
      assert WriteValues(entries)[1..] == WriteValues(entries[1..]);
      assert Members(WriteValues(entries))[1..] == Members(WriteValues(entries[1..]));
    }
  }

  lemma {:induction false} InsertMapped(e: Entry<Value>, entries: seq<Entry<Value>>)
    ensures WriteValues(InsertEntry(e, entries)) == InsertEntry(Entry(e.key, Write(e.value)), WriteValues(entries))
  {
    hide Write, Less;
    if entries != [] {
      assert WriteValues(entries)[1..] == WriteValues(entries[1..]);
      if Less(entries[0].key, e.key) {
        InsertMapped(e, entries[1..]);
        assert InsertEntry(e, entries)[1..] == InsertEntry(e, entries[1..]);
      } else {
        assert InsertEntry(e, entries)[1..] == entries;
      }
    } else {
      assert [e][1..] == [];
    }
  }

  lemma {:induction false} SortMapped(entries: seq<Entry<Value>>)
    ensures WriteValues(SortEntries(entries)) == SortEntries(WriteValues(entries))
  {
    if entries != [] {
      hide Write, InsertEntry;
      SortMapped(entries[1..]);
      InsertMapped(entries[0], SortEntries(entries[1..]));
      assert WriteValues(entries)[1..] == WriteValues(entries[1..]);
    }
  }

  // ----- equal up to key order -----

  // The same value, but for the order of object keys, at every depth.
  ghost predicate Same(v: Value, w: Value)
    decreases v
  {
    match (v, w)
    case (Arr(a), Arr(b)) => |a| == |b| && forall i :: 0 <= i < |a| ==> Same(a[i], b[i])
    case (Obj(a), Obj(b)) => |a| == |b| && forall i :: 0 <= i < |a| ==> Found(a[i], b)
    case _ => v == w
  }

  ghost predicate Found(e: Entry<Value>, entries: seq<Entry<Value>>)
    decreases e
  {
    exists j :: 0 <= j < |entries| && entries[j].key == e.key && Same(e.value, entries[j].value)
  }

  lemma {:induction false} CanonicalizedItem(items: seq<Value>, i: nat)
    requires i < |items|
    ensures |CanonicalizeItems(items)| == |items| && CanonicalizeItems(items)[i] == Canonicalize(items[i])
  {
    hide Canonicalize;
    if i > 0 {
      CanonicalizedItem(items[1..], i - 1);
    } else if |items| > 1 {
      CanonicalizedItem(items[1..], 0);
    }
  }

  lemma {:induction false} CanonicalizedEntry(entries: seq<Entry<Value>>, i: nat)
    requires i < |entries|
    ensures |CanonicalizeEntries(entries)| == |entries|
    ensures CanonicalizeEntries(entries)[i] == Entry(entries[i].key, Canonicalize(entries[i].value))
  {
    hide Canonicalize;
    if i > 0 {
      CanonicalizedEntry(entries[1..], i - 1);
    } else if |entries| > 1 {
      CanonicalizedEntry(entries[1..], 0);
    }
  }

  lemma CanonicalizedEntries(entries: seq<Entry<Value>>)
    ensures var c := CanonicalizeEntries(entries);
            |c| == |entries| && forall i :: 0 <= i < |entries| ==>
                c[i] == Entry(entries[i].key, Canonicalize(entries[i].value))
  {
    forall i | 0 <= i < |entries|
      ensures |CanonicalizeEntries(entries)| == |entries|
      ensures CanonicalizeEntries(entries)[i] == Entry(entries[i].key, Canonicalize(entries[i].value))
    {
      CanonicalizedEntry(entries, i);
    }
  }

  lemma CanonicalizedItems(items: seq<Value>)
    ensures var c := CanonicalizeItems(items);
            |c| == |items| && forall i :: 0 <= i < |items| ==> c[i] == Canonicalize(items[i])
  {
    forall i | 0 <= i < |items|
      ensures |CanonicalizeItems(items)| == |items| && CanonicalizeItems(items)[i] == Canonicalize(items[i])
    {
      CanonicalizedItem(items, i);
    }
  }

  // Canonical forms are equal exactly for the same values.
  lemma {:induction false} SameCanonical(v: Value, w: Value)
    requires WellFormed(v) && WellFormed(w)
    ensures Same(v, w) <==> Canonicalize(v) == Canonicalize(w)
    decreases v
  {
    match (v, w)
    case (Arr(a), Arr(b)) => SameItems(a, b);
    case (Obj(a), Obj(b)) =>
      if Same(v, w) { SameGivesEqual(a, b); }
      if Canonicalize(v) == Canonicalize(w) { EqualGivesSame(a, b); }
    case _ =>
  }

  lemma {:induction false} SameItems(a: seq<Value>, b: seq<Value>)
    requires WellFormed(Arr(a)) && WellFormed(Arr(b))
    ensures Same(Arr(a), Arr(b)) <==> CanonicalizeItems(a) == CanonicalizeItems(b)
    decreases a
  {
    hide Canonicalize, CanonicalizeItems;
    CanonicalizedItems(a);
    CanonicalizedItems(b);
    if |a| == |b| {
      forall i | 0 <= i < |a| ensures Same(a[i], b[i]) <==> CanonicalizeItems(a)[i] == CanonicalizeItems(b)[i] {
        SameCanonical(a[i], b[i]);
      }
    }
  }

  lemma {:induction false} SameGivesEqual(a: seq<Entry<Value>>, b: seq<Entry<Value>>)
    requires WellFormed(Obj(a)) && WellFormed(Obj(b)) && Same(Obj(a), Obj(b))
    ensures SortEntries(CanonicalizeEntries(a)) == SortEntries(CanonicalizeEntries(b))
    decreases a, 0
  {
    hide Canonicalize, CanonicalizeEntries, SortEntries;
    var x, y := CanonicalizeEntries(a), CanonicalizeEntries(b);
    CanonicalizedEntries(a);
    CanonicalizedEntries(b);
    forall i | 0 <= i < |x| ensures x[i] in y {
      assert Found(a[i], b);
      var j :| 0 <= j < |b| && b[j].key == a[i].key && Same(a[i].value, b[j].value);
      SameCanonical(a[i].value, b[j].value);
      assert y[j] == x[i];
    }
    assert DistinctKeys(x) && DistinctKeys(y);
    CoversAll(x, y);
    SortIsCanonical(x, y);
  }

  // A keyed list inside another of the same length has all of its entries.
  lemma CoversAll<V>(x: seq<Entry<V>>, y: seq<Entry<V>>)
    requires DistinctKeys(x) && DistinctKeys(y) && |x| == |y| && forall i :: 0 <= i < |x| ==> x[i] in y
    ensures forall e :: e in x <==> e in y
  {
    EntrySet(x);
    EntrySet(y);
    var sx, sy := (set e | e in x), (set e | e in y);
    assert sx <= sy;
    assert sx + (sy - sx) == sy;
    assert |sy - sx| == 0;
    assert sy - sx == {};
    assert forall e :: e in sx <==> e in x;
    assert forall e :: e in sy <==> e in y;
  }

  lemma {:induction false} EntrySet<V>(x: seq<Entry<V>>)
    requires DistinctKeys(x)
    ensures |set e | e in x| == |x|
  {
    if x != [] {
      var n := |x| - 1;
      EntrySet(x[..n]);
      assert x[n] !in x[..n];
      assert (set e | e in x) == (set e | e in x[..n]) + {x[n]};
    }
  }

  lemma {:induction false} EqualGivesSame(a: seq<Entry<Value>>, b: seq<Entry<Value>>)
    requires WellFormed(Obj(a)) && WellFormed(Obj(b))
    requires SortEntries(CanonicalizeEntries(a)) == SortEntries(CanonicalizeEntries(b))
    ensures Same(Obj(a), Obj(b))
    decreases a, 0
  {
    hide Canonicalize, CanonicalizeEntries, SortEntries;
    var x, y := CanonicalizeEntries(a), CanonicalizeEntries(b);
    CanonicalizedEntries(a);
    CanonicalizedEntries(b);
    SortMembers(x);
    SortMembers(y);
    forall i | 0 <= i < |a| ensures Found(a[i], b) {
      assert x[i] in x && x[i] in y;
      var j :| 0 <= j < |y| && y[j] == x[i];
      SameCanonical(a[i].value, b[j].value);
      assert b[j].key == a[i].key;
    }
    assert |a| == |b|;
  }

  lemma {:induction false} CanonicalizeKeepsWellFormed(v: Value)
    requires WellFormed(v)
    ensures WellFormed(Canonicalize(v))
    decreases v
  {
    match v
    case Arr(items) =>
      CanonicalizedItems(items);
      forall i | 0 <= i < |items| ensures WellFormed(CanonicalizeItems(items)[i]) {
        CanonicalizeKeepsWellFormed(items[i]);
      }
    case Obj(entries) => SortedEntriesWellFormed(entries);
    case _ =>
  }

  lemma {:induction false} SortedEntriesWellFormed(entries: seq<Entry<Value>>)
    requires WellFormed(Obj(entries))
    ensures WellFormed(Obj(SortEntries(CanonicalizeEntries(entries))))
    decreases entries, 0
  {
    hide Canonicalize, CanonicalizeEntries, SortEntries;
    var c := CanonicalizeEntries(entries);
    CanonicalizedEntries(entries);
    forall i | 0 <= i < |entries| ensures WellFormed(c[i].value) {
      CanonicalizeKeepsWellFormed(entries[i].value);
    }
    assert DistinctKeys(c);
    SortSorts(c);
    SortMembers(c);
    SortedIsDistinct(SortEntries(c));
    forall i | 0 <= i < |SortEntries(c)| ensures WellFormed(SortEntries(c)[i].value) {
      assert SortEntries(c)[i] in SortEntries(c);
      var j :| 0 <= j < |c| && c[j] == SortEntries(c)[i];
    }
  }

  /** Two values print alike exactly when they are equal up to object key order at every depth. */
  lemma CanonicalIsUnambiguous(v: Value, w: Value)
    requires WellFormed(v) && WellFormed(w)
    ensures Canonical(v) == Canonical(w) <==> Same(v, w)
    ensures CanonicalJsonValue(v) == CanonicalJsonValue(w) <==> Same(v, w)
  {
    CanonicalAgrees(v);
    CanonicalAgrees(w);
    CanonicalizeKeepsWellFormed(v);
    CanonicalizeKeepsWellFormed(w);
    ParseUndoesWrite(Canonicalize(v));
    ParseUndoesWrite(Canonicalize(w));
    SameCanonical(v, w);
  }

  /** Reading canonical text back gives the value it was printed from, up to key order. */
  lemma ParseUndoesCanonical(v: Value)
    requires WellFormed(v)
    ensures Parse(Canonical(v)) == Some(Canonicalize(v)) && WellFormed(Canonicalize(v))
  {
    CanonicalAgrees(v);
    CanonicalizeKeepsWellFormed(v);
    ParseUndoesWrite(Canonicalize(v));
  }
}
