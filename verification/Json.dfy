/** A reader of JSON texts (RFC 8259, sections 2, 4, 5 and 7), and texts it reads back whatever their white space. */
module Json {
  import opened Bytes

  const QUOTE: byte := 34
  const BACKSLASH: byte := 92

  datatype Value =
    | StringValue(text: bytes)
    | NumberValue(n: nat)
    | ArrayValue(items: seq<Value>)
    | ObjectValue(members: seq<Member>)

  datatype Member = Member(key: bytes, value: Value)

  // ----- strings -----

  function HexDigit(v: nat): byte
    requires v < 16
  {
    if v < 10 then 48 + v else 87 + v
  }

  function HexValue(c: byte): Option<nat> {
    if 48 <= c <= 57 then Some(c - 48)
    else if 97 <= c <= 102 then Some(c - 87)
    else if 65 <= c <= 70 then Some(c - 55)
    else None
  }

  /** A code point of the basic plane in UTF-8. */
  function Utf8(v: nat): bytes
    requires v < 0x1_0000
  {
    if v < 0x80 then [v]
    else if v < 0x800 then [0xC0 + v / 0x40, 0x80 + v % 0x40]
    else [0xE0 + v / 0x1000, 0x80 + v / 0x40 % 0x40, 0x80 + v % 0x40]
  }

  /** One character of a string, plain or escaped, and what follows it. */
  function ParseChar(s: bytes): (r: Option<(bytes, bytes)>)
    ensures r.Some? ==> |r.value.1| < |s|
  {
    if s == [] || s[0] < 0x20 || s[0] == QUOTE then None
    else if s[0] != BACKSLASH then Some((s[..1], s[1..]))
    else if |s| < 2 then None
    else match s[1]
      case 34 => Some(([34], s[2..]))
      case 92 => Some(([92], s[2..]))
      case 47 => Some(([47], s[2..]))
      case 98 => Some(([8], s[2..]))
      case 102 => Some(([12], s[2..]))
      case 110 => Some(([10], s[2..]))
      case 114 => Some(([13], s[2..]))
      case 116 => Some(([9], s[2..]))
      case 117 =>
        if |s| < 6 then None
        else
          var a :- HexValue(s[2]);
          var b :- HexValue(s[3]);
          var c :- HexValue(s[4]);
          var d :- HexValue(s[5]);
          Some((Utf8(a * 0x1000 + b * 0x100 + c * 0x10 + d), s[6..]))
      case _ => None
  }

  /** The characters up to the closing quote, and what follows it. */
  function ParseChars(s: bytes): (r: Option<(bytes, bytes)>)
    ensures r.Some? ==> |r.value.1| < |s|
    decreases |s|
  {
    if s != [] && s[0] == QUOTE then Some(([], s[1..]))
    else
      var first :- ParseChar(s);
      var more :- ParseChars(first.1);
      Some((first.0 + more.0, more.1))
  }

  /** How a byte is written inside a string. */
  function EscapeByte(c: byte): bytes {
    if c == QUOTE then [BACKSLASH, QUOTE]
    else if c == BACKSLASH then [BACKSLASH, BACKSLASH]
    else if c == 10 then [BACKSLASH, 110]
    else if c == 13 then [BACKSLASH, 114]
    else if c == 9 then [BACKSLASH, 116]
    else if c < 0x20 then [BACKSLASH, 117, HexDigit(0), HexDigit(0), HexDigit(c / 16), HexDigit(c % 16)]
    else [c]
  }

  function Escape(s: bytes): bytes {
    if s == [] then [] else EscapeByte(s[0]) + Escape(s[1..])
  }

  function StringText(s: bytes): bytes {
    [QUOTE] + (Escape(s) + [QUOTE])
  }

  lemma HexRoundTrip(v: nat)
    requires v < 16
    ensures HexValue(HexDigit(v)) == Some(v)
  {
  }

  /** A control character comes back from its four hexadecimal digits. */
  lemma ControlParses(c: byte, s: bytes)
    requires c < 0x20 && |s| >= 6
    requires s[..6] == [BACKSLASH, 117, HexDigit(0), HexDigit(0), HexDigit(c / 16), HexDigit(c % 16)]
    ensures ParseChar(s) == Some(([c], s[6..]))
  {
    hide HexDigit, HexValue;
    var high: nat, low: nat := c / 16, c % 16;
    assert s[0] == s[..6][0] && s[1] == s[..6][1] && s[2] == s[..6][2] && s[3] == s[..6][3] && s[4] == s[..6][4] &&
      s[5] == s[..6][5];
    HexRoundTrip(0);
    HexRoundTrip(high);
    HexRoundTrip(low);
    assert 0 * 0x1000 + 0 * 0x100 + high * 0x10 + low == c;
  }

  lemma EscapedByteParses(c: byte, rest: bytes)
    ensures ParseChar(EscapeByte(c) + rest) == Some(([c], rest))
    ensures EscapeByte(c) != [] && EscapeByte(c)[0] != QUOTE
  {
    hide HexDigit, HexValue, Utf8;
    var e := EscapeByte(c);
    var s := e + rest;
    assert s[|e|..] == rest && s[..|e|] == e;
    if |e| == 6 {
      hide ParseChar;
      ControlParses(c, s);
    } else {
      assert forall i :: 0 <= i < |e| ==> s[i] == e[i];
      if |e| == 1 {
        assert s[..1] == [c];
      }
    }
  }

  lemma {:induction false} EscapedParses(s: bytes, rest: bytes)
    ensures ParseChars(Escape(s) + ([QUOTE] + rest)) == Some((s, rest))
  {
    hide ParseChar, EscapeByte;
    if s == [] {
      assert Escape(s) + ([QUOTE] + rest) == [QUOTE] + rest;
    } else {
      var more := Escape(s[1..]) + ([QUOTE] + rest);
      EscapedByteParses(s[0], more);
      EscapedParses(s[1..], rest);
      assert Escape(s) + ([QUOTE] + rest) == EscapeByte(s[0]) + more;
      assert [s[0]] + s[1..] == s;
    }
  }

  // ----- values -----

  predicate IsWhite(c: byte) {
    c == 32 || c == 9 || c == 10 || c == 13
  }

  predicate AllWhite(s: bytes) {
    forall i :: 0 <= i < |s| ==> IsWhite(s[i])
  }

  predicate IsDigit(c: byte) {
    48 <= c <= 57
  }

  function SkipWhite(s: bytes): (r: bytes)
    ensures |r| <= |s|
  {
    if s != [] && IsWhite(s[0]) then SkipWhite(s[1..]) else s
  }

  /** The digits at the start of `s`, as a number built on `acc`. */
  function ParseDigits(s: bytes, acc: nat): (r: (nat, bytes))
    ensures |r.1| <= |s|
  {
    if s != [] && IsDigit(s[0]) then ParseDigits(s[1..], acc * 10 + (s[0] - 48)) else (acc, s)
  }

  function ParseValue(s: bytes): (r: Option<(Value, bytes)>)
    ensures r.Some? ==> |r.value.1| < |s|
    decreases |s|, 2
  {
    if s == [] then None
    else if s[0] == QUOTE then
      var t :- ParseChars(s[1..]);
      Some((StringValue(t.0), t.1))
    else if s[0] == 48 then
      if |s| > 1 && IsDigit(s[1]) then None else Some((NumberValue(0), s[1..]))
    else if IsDigit(s[0]) then
      var d := ParseDigits(s[1..], s[0] - 48);
      Some((NumberValue(d.0), d.1))
    else if s[0] == 91 then
      var inner := SkipWhite(s[1..]);
      if inner != [] && inner[0] == 93 then Some((ArrayValue([]), inner[1..]))
      else
        var items :- ParseItems(inner);
        Some((ArrayValue(items.0), items.1))
    else if s[0] == 123 then
      var inner := SkipWhite(s[1..]);
      if inner != [] && inner[0] == 125 then Some((ObjectValue([]), inner[1..]))
      else
        var members :- ParseMembers(inner);
        Some((ObjectValue(members.0), members.1))
    else None
  }

  /** The items of an array up to its closing bracket. */
  function ParseItems(s: bytes): (r: Option<(seq<Value>, bytes)>)
    ensures r.Some? ==> |r.value.1| < |s|
    decreases |s|, 3
  {
    var first :- ParseValue(s);
    var rest := SkipWhite(first.1);
    if rest == [] then None
    else if rest[0] == 93 then Some(([first.0], rest[1..]))
    else if rest[0] != 44 then None
    else
      var more :- ParseItems(SkipWhite(rest[1..]));
      Some(([first.0] + more.0, more.1))
  }

  function ParseMember(s: bytes): (r: Option<(Member, bytes)>)
    ensures r.Some? ==> |r.value.1| < |s|
    decreases |s|, 3
  {
    if s == [] || s[0] != QUOTE then None
    else
      var key :- ParseChars(s[1..]);
      var colon := SkipWhite(key.1);
      if colon == [] || colon[0] != 58 then None
      else
        var value :- ParseValue(SkipWhite(colon[1..]));
        Some((Member(key.0, value.0), value.1))
  }

  /** The members of an object up to its closing brace. */
  function ParseMembers(s: bytes): (r: Option<(seq<Member>, bytes)>)
    ensures r.Some? ==> |r.value.1| < |s|
    decreases |s|, 4
  {
    var first :- ParseMember(s);
    var rest := SkipWhite(first.1);
    if rest == [] then None
    else if rest[0] == 125 then Some(([first.0], rest[1..]))
    else if rest[0] != 44 then None
    else
      var more :- ParseMembers(SkipWhite(rest[1..]));
      Some(([first.0] + more.0, more.1))
  }

  /** A whole text: one value between white space. */
  function ParseText(s: bytes): Option<Value> {
    var v :- ParseValue(SkipWhite(s));
    if SkipWhite(v.1) == [] then Some(v.0) else None
  }

  // ----- laid-out texts -----

  /** A value together with the white space it is written with. */
  datatype Layout =
    | Str(text: bytes)
    | Digit(n: nat)
    | Arr(blank: bytes, items: seq<Item>)
    | Obj(blank: bytes, members: seq<Field>)

  datatype Item = Item(before: bytes, value: Layout, after: bytes)

  datatype Field = Field(before: bytes, key: bytes, gap: bytes, value: Layout, after: bytes)

  function Render(l: Layout): bytes
    decreases l
  {
    match l
    case Str(text) => StringText(text)
    case Digit(n) => [48 + n % 10]
    case Arr(blank, items) => [91] + (if items == [] then blank + [93] else RenderItems(items))
    case Obj(blank, members) => [123] + (if members == [] then blank + [125] else RenderFields(members))
  }

  function RenderItems(items: seq<Item>): bytes
    requires items != []
    decreases items
  {
    items[0].before + (Render(items[0].value) + (items[0].after +
      (if |items| == 1 then [93] else [44] + RenderItems(items[1..]))))
  }

  function RenderFields(fields: seq<Field>): bytes
    requires fields != []
    decreases fields
  {
    var f := fields[0];
    f.before + (StringText(f.key) + ([58] + (f.gap + (Render(f.value) + (f.after +
      (if |fields| == 1 then [125] else [44] + RenderFields(fields[1..])))))))
  }

  /** White space is white, and numbers have one digit. */
  predicate WellFormed(l: Layout)
    decreases l
  {
    match l
    case Str(_) => true
    case Digit(n) => n < 10
    case Arr(blank, items) =>
      && AllWhite(blank)
      && forall i | i in items :: AllWhite(i.before) && AllWhite(i.after) && WellFormed(i.value)
    case Obj(blank, fields) =>
      && AllWhite(blank)
      && forall f | f in fields ::
           AllWhite(f.before) && AllWhite(f.gap) && AllWhite(f.after) && WellFormed(f.value)
  }

  function ValueOf(l: Layout): Value
    decreases l
  {
    match l
    case Str(text) => StringValue(text)
    case Digit(n) => NumberValue(n)
    case Arr(_, items) => ArrayValue(ItemValues(items))
    case Obj(_, fields) => ObjectValue(FieldValues(fields))
  }

  function ItemValues(items: seq<Item>): seq<Value>
    decreases items
  {
    if items == [] then [] else [ValueOf(items[0].value)] + ItemValues(items[1..])
  }

  function FieldValues(fields: seq<Field>): seq<Member>
    decreases fields
  {
    if fields == [] then [] else [Member(fields[0].key, ValueOf(fields[0].value))] + FieldValues(fields[1..])
  }

  lemma {:induction false} SkipsBlank(blank: bytes, rest: bytes)
    requires AllWhite(blank) && (rest == [] || !IsWhite(rest[0]))
    ensures SkipWhite(blank + rest) == rest
  {
    if blank == [] {
      assert blank + rest == rest;
    } else {
      assert (blank + rest)[1..] == blank[1..] + rest;
      SkipsBlank(blank[1..], rest);
    }
  }

  /** What may follow a value: nothing that would prolong a number. */
  predicate Ends(rest: bytes) {
    rest == [] || !IsDigit(rest[0])
  }

  lemma RenderStarts(l: Layout)
    requires WellFormed(l)
    ensures Render(l) != [] && !IsWhite(Render(l)[0]) && Render(l)[0] !in {93, 125, 44, 58}
  {
  }

  lemma BlankEnds(blank: bytes, rest: bytes)
    requires AllWhite(blank) && rest != [] && !IsDigit(rest[0])
    ensures Ends(blank + rest)
  {
    if blank != [] {
      assert (blank + rest)[0] == blank[0];
    }
  }

  /** A laid-out text reads back as its value, whatever follows it. */
  lemma {:induction false} RenderParses(l: Layout, rest: bytes)
    requires WellFormed(l) && Ends(rest)
    ensures ParseValue(Render(l) + rest) == Some((ValueOf(l), rest))
    decreases l
  {
    hide ParseItems, ParseMembers, ParseChars, RenderItems, RenderFields, SkipWhite, Escape;
    var s := Render(l) + rest;
    match l
    case Str(text) =>
      EscapedParses(text, rest);
      assert s[1..] == Escape(text) + ([QUOTE] + rest);
    case Digit(n) =>
      assert s[1..] == rest;
    case Arr(blank, items) =>
      if items == [] {
        assert s[1..] == blank + ([93] + rest);
        SkipsBlank(blank, [93] + rest);
        assert ([93] + rest)[1..] == rest;
      } else {
        assert s[1..] == RenderItems(items) + rest;
        ItemsParse(items, rest);
      }
    case Obj(blank, fields) =>
      if fields == [] {
        assert s[1..] == blank + ([125] + rest);
        SkipsBlank(blank, [125] + rest);
        assert ([125] + rest)[1..] == rest;
      } else {
        assert s[1..] == RenderFields(fields) + rest;
        FieldsParse(fields, rest);
      }
  }

  lemma {:induction false} ItemsParse(items: seq<Item>, rest: bytes)
    requires items != []
    requires forall i | i in items :: AllWhite(i.before) && AllWhite(i.after) && WellFormed(i.value)
    ensures var s := SkipWhite(RenderItems(items) + rest);
      s != [] && s[0] != 93 && ParseItems(s) == Some((ItemValues(items), rest))
    decreases items
  {
    hide ParseValue, Render, WellFormed, ValueOf, SkipWhite;
    var i := items[0];
    var value := Render(i.value);
    var tail: bytes := if |items| == 1 then [93] + rest else [44] + (RenderItems(items[1..]) + rest);
    assert RenderItems(items) + rest == i.before + (value + (i.after + tail));
    RenderStarts(i.value);
    SkipsBlank(i.before, value + (i.after + tail));
    BlankEnds(i.after, tail);
    RenderParses(i.value, i.after + tail);
    SkipsBlank(i.after, tail);
    if |items| > 1 {
      assert tail[1..] == RenderItems(items[1..]) + rest;
      ItemsParse(items[1..], rest);
    } else {
      assert tail[1..] == rest && items[1..] == [];
      assert ItemValues(items) == [ValueOf(i.value)];
    }
  }

  /** One member, between its leading white space and what follows its value. */
  lemma FieldParses(f: Field, tail: bytes)
    requires AllWhite(f.gap) && WellFormed(f.value) && Ends(tail)
    requires ParseValue(Render(f.value) + tail) == Some((ValueOf(f.value), tail))
    ensures ParseMember(StringText(f.key) + ([58] + (f.gap + (Render(f.value) + tail))))
         == Some((Member(f.key, ValueOf(f.value)), tail))
  {
    hide ParseValue, ParseChars, Render, WellFormed, ValueOf, SkipWhite, Escape;
    var value := Render(f.value) + tail;
    var colon := [58] + (f.gap + value);
    var s := StringText(f.key) + colon;
    EscapedParses(f.key, colon);
    assert s[1..] == Escape(f.key) + ([QUOTE] + colon);
    RenderStarts(f.value);
    SkipsBlank([], colon);
    assert [] + colon == colon;
    assert colon[1..] == f.gap + value;
    SkipsBlank(f.gap, value);
  }

  lemma StringStarts(s: bytes)
    ensures StringText(s) != [] && StringText(s)[0] == QUOTE
  {
  }

  lemma {:induction false} FieldsParse(fields: seq<Field>, rest: bytes)
    requires fields != []
    requires forall f | f in fields :: AllWhite(f.before) && AllWhite(f.gap) && AllWhite(f.after) && WellFormed(f.value)
    ensures var s := SkipWhite(RenderFields(fields) + rest);
      s != [] && s[0] != 125 && ParseMembers(s) == Some((FieldValues(fields), rest))
    decreases fields
  {
    hide ParseValue, ParseMember, Render, WellFormed, ValueOf, SkipWhite, Escape, StringText;
    assert StringText(fields[0].key)[0] == QUOTE by { StringStarts(fields[0].key); }
    var f := fields[0];
    var tail: bytes := if |fields| == 1 then [125] + rest else [44] + (RenderFields(fields[1..]) + rest);
    var field := StringText(f.key) + ([58] + (f.gap + (Render(f.value) + (f.after + tail))));
    assert RenderFields(fields) + rest == f.before + field;
    SkipsBlank(f.before, field);
    BlankEnds(f.after, tail);
    RenderParses(f.value, f.after + tail);
    FieldParses(f, f.after + tail);
    SkipsBlank(f.after, tail);
    if |fields| > 1 {
      assert tail[1..] == RenderFields(fields[1..]) + rest;
      FieldsParse(fields[1..], rest);
    } else {
      assert tail[1..] == rest && fields[1..] == [];
      assert FieldValues(fields) == [Member(f.key, ValueOf(f.value))];
    }
  }

  /** A laid-out text between white space is a JSON text for its value. */
  lemma TextParses(l: Layout, after: bytes)
    requires WellFormed(l) && AllWhite(after)
    ensures ParseText(Render(l) + after) == Some(ValueOf(l))
  {
    hide ParseValue, Render, WellFormed, ValueOf, SkipWhite;
    RenderStarts(l);
    SkipsBlank([], Render(l) + after);
    assert [] + (Render(l) + after) == Render(l) + after;
    RenderParses(l, after);
    SkipsBlank(after, []);
    assert after + [] == after;
  }
}
