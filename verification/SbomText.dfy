/** The text of a CycloneDX document, and the JSON value it is the laid-out form of. */
module SbomText {
  import opened Bytes
  import opened Json

  /** Three C buffers. */
  datatype Component = Component(name: bytes, version: bytes, path: bytes)

  // ----- the document as a laid-out JSON value -----

  function Key(before: string, key: string, value: Layout, after: string): Field {
    Field(Ascii(before), Ascii(key), Ascii(" "), value, Ascii(after))
  }

  function Evidence(path: bytes): Layout {
    Obj([], [Key("\n        ", "occurrences",
                 Arr([],
                     [Json.Item(Ascii("\n          "), Obj([], [Key(" ", "location", Str(path), " ")]),
                                Ascii("\n        "))]),
                 "\n      ")])
  }

  /** The version member, which an unparsed version does not get. */
  function VersionFields(version: bytes): seq<Field> {
    if version == [] then [] else [Key("\n      ", "version", Str(version), "")]
  }

  function ComponentLayout(c: Component): Layout {
    Obj([], [Key("\n      ", "type", Str(Ascii("library")), ""),
             Key("\n      ", "name", Str(CString(c.name)), "")]
            + VersionFields(CString(c.version))
            + [Key("\n      ", "evidence", Evidence(CString(c.path)), "\n    ")])
  }

  function Items(cs: seq<Component>): (r: seq<Json.Item>)
    ensures |r| == |cs|
  {
    if cs == [] then []
    else [Json.Item(Ascii("\n    "), ComponentLayout(cs[0]), if |cs| == 1 then Ascii("\n  ") else [])] + Items(cs[1..])
  }

  function Document(cs: seq<Component>): Layout {
    Obj([], [Key("\n  ", "bomFormat", Str(Ascii("CycloneDX")), ""),
             Key("\n  ", "specVersion", Str(Ascii("1.6")), ""),
             Key("\n  ", "version", Digit(1), ""),
             Key("\n  ", "components", Arr(Ascii("\n  "), Items(cs)), "\n")])
  }

  // ----- the printed text, piece by piece -----

  const DOCUMENT_OPEN: string := "{\n"
  const BOM_FORMAT_LINE: string := "  \"bomFormat\": \"CycloneDX\",\n"
  const SPEC_VERSION_LINE: string := "  \"specVersion\": \"1.6\",\n"
  const VERSION_LINE: string := "  \"version\": 1,\n"
  const COMPONENTS_OPEN: string := "  \"components\": [\n"
  const COMPONENT_OPEN: string := "    {\n"
  const TYPE_LINE: string := "      \"type\": \"library\",\n"
  const NAME_KEY: string := "      \"name\": "
  const VERSION_KEY: string := "      \"version\": "
  const EVIDENCE_OPEN: string := "      \"evidence\": {\n"
  const OCCURRENCES_OPEN: string := "        \"occurrences\": [\n"
  const LOCATION_KEY: string := "          { \"location\": "
  const LOCATION_CLOSE: string := " }\n"
  const OCCURRENCES_CLOSE: string := "        ]\n"
  const EVIDENCE_CLOSE: string := "      }\n"
  const COMPONENT_CLOSE: string := "    }"
  const COMPONENTS_CLOSE: string := "  ]\n"
  const DOCUMENT_CLOSE: string := "}\n"
  const COMMA_BREAK: string := ",\n"
  const BREAK: string := "\n"

  function VersionText(version: bytes): bytes {
    if version == [] then [] else Ascii(VERSION_KEY) + (StringText(version) + Ascii(COMMA_BREAK))
  }

  function EvidenceText(path: bytes): bytes {
    Ascii(EVIDENCE_OPEN) + (Ascii(OCCURRENCES_OPEN) + (Ascii(LOCATION_KEY) +
    (StringText(path) + (Ascii(LOCATION_CLOSE) + (Ascii(OCCURRENCES_CLOSE) + Ascii(EVIDENCE_CLOSE))))))
  }

  /** One component, without the comma and line break that end it. */
  function ComponentText(c: Component): bytes {
    Ascii(COMPONENT_OPEN) + (Ascii(TYPE_LINE) + (Ascii(NAME_KEY) + (StringText(CString(c.name)) + (Ascii(COMMA_BREAK) +
    (VersionText(CString(c.version)) + (EvidenceText(CString(c.path)) + Ascii(COMPONENT_CLOSE)))))))
  }

  function ComponentsText(cs: seq<Component>): bytes {
    if cs == [] then []
    else ComponentText(cs[0]) + (LineEnd(|cs| == 1) + ComponentsText(cs[1..]))
  }

  function LineEnd(last: bool): bytes {
    if last then Ascii(BREAK) else Ascii(COMMA_BREAK)
  }

  function Heading(): bytes {
    Ascii(DOCUMENT_OPEN) +
      (Ascii(BOM_FORMAT_LINE) + (Ascii(SPEC_VERSION_LINE) + (Ascii(VERSION_LINE) + Ascii(COMPONENTS_OPEN))))
  }

  function DocumentText(cs: seq<Component>): bytes {
    Heading() + (ComponentsText(cs) + (Ascii(COMPONENTS_CLOSE) + Ascii(DOCUMENT_CLOSE)))
  }

  // ----- the printed text is the laid-out document -----

  lemma Join(a: string, b: string)
    ensures Ascii(a) + Ascii(b) == Ascii(a + b)
  {
  }

  lemma JoinLeft(a: string, b: string, rest: bytes)
    ensures Ascii(a) + (Ascii(b) + rest) == Ascii(a + b) + rest
  {
    assert Ascii(a) + (Ascii(b) + rest) == (Ascii(a) + Ascii(b)) + rest;
    Join(a, b);
  }

  /** Text around a piece of wrapped text. */
  lemma Wrap(a: string, b: string, x: bytes, c: string, d: string)
    ensures Ascii(a) + ((Ascii(b) + (x + Ascii(c))) + Ascii(d)) == Ascii(a + b) + (x + Ascii(c + d))
  {
    var p, q, r, s := Ascii(a), Ascii(b), Ascii(c), Ascii(d);
    assert p + ((q + (x + r)) + s) == (p + q) + (x + (r + s));
    Join(a, b);
    Join(c, d);
  }

  /** Characters that a JSON string writes as they are. */
  predicate IsPlain(s: string) {
    forall i :: 0 <= i < |s| ==> ' ' <= s[i] < 128 as char && s[i] != '\"' && s[i] != '\\'
  }

  lemma {:induction false} PlainBytesEscape(s: bytes)
    requires forall i :: 0 <= i < |s| ==> 0x20 <= s[i] && s[i] != QUOTE && s[i] != BACKSLASH
    ensures Escape(s) == s
  {
    if s == [] {
    } else {
      PlainBytesEscape(s[1..]);
      assert s == [s[0]] + s[1..];
    }
  }

  lemma PlainText(s: string)
    requires IsPlain(s)
    ensures StringText(Ascii(s)) == Ascii("\"" + (s + "\""))
  {
    PlainBytesEscape(Ascii(s));
  }

  /** A key with its indentation, quotes and colon is one literal. */
  function KeyText(before: string, key: string): string {
    before + ("\"" + (key + "\": "))
  }

  lemma KeyIsText(before: string, key: string, rest: bytes)
    requires IsPlain(key)
    ensures Ascii(before) + (StringText(Ascii(key)) + ([58] + (Ascii(" ") + rest))) ==
            Ascii(KeyText(before, key)) + rest
  {
    PlainText(key);
    var a, b := Ascii(before), StringText(Ascii(key));
    assert a + (b + ([58] + (Ascii(" ") + rest))) == (a + (b + ([58] + Ascii(" ")))) + rest;
    assert a + (b + ([58] + Ascii(" "))) == Ascii(before + ("\"" + (key + "\": ")));
  }

  lemma LastField(before: string, key: string, value: Layout, after: string)
    requires IsPlain(key)
    ensures RenderFields([Key(before, key, value, after)]) ==
            Ascii(KeyText(before, key)) + (Render(value) + Ascii(after + "}"))
  {
    hide Render, StringText, Ascii, KeyText, IsPlain;
    KeyIsText(before, key, Render(value) + (Ascii(after) + [125]));
    assert Ascii(after) + [125] == Ascii(after + "}") by { ClosingIs(after); }
  }

  lemma ClosingIs(after: string)
    ensures Ascii(after) + [125] == Ascii(after + "}")
    ensures Ascii(after) + [93] == Ascii(after + "]")
    ensures Ascii(after) + [44] == Ascii(after + ",")
  {
  }

  lemma OpeningIs(before: string)
    ensures [123] + Ascii(before) == Ascii("{" + before)
    ensures [91] + Ascii(before) == Ascii("[" + before)
  {
  }

  lemma NextField(before: string, key: string, value: Layout, rest: seq<Field>)
    requires IsPlain(key) && rest != []
    ensures RenderFields([Key(before, key, value, "")] + rest) ==
            Ascii(KeyText(before, key)) + (Render(value) + (Ascii(",") + RenderFields(rest)))
  {
    hide Render, StringText, KeyText, IsPlain;
    var more := RenderFields(rest);
    var fields := [Key(before, key, value, "")] + rest;
    assert fields[1..] == rest;
    KeyIsText(before, key, Render(value) + (Ascii("") + ([44] + more)));
    assert Ascii("") + ([44] + more) == Ascii(",") + more;
  }

  lemma OneField(before: string, key: string, value: Layout, after: string)
    requires IsPlain(key)
    ensures Render(Obj([], [Key(before, key, value, after)])) ==
            Ascii("{" + KeyText(before, key)) + (Render(value) + Ascii(after + "}"))
  {
    hide StringText, KeyText, IsPlain, Ascii, RenderFields;
    LastField(before, key, value, after);
    OpeningIs(KeyText(before, key));
    assert [123] + (Ascii(KeyText(before, key)) + (Render(value) + Ascii(after + "}"))) ==
           ([123] + Ascii(KeyText(before, key))) + (Render(value) + Ascii(after + "}"));
  }

  lemma OneItem(before: string, value: Layout, after: string)
    ensures Render(Arr([], [Json.Item(Ascii(before), value, Ascii(after))])) ==
            Ascii("[" + before) + (Render(value) + Ascii(after + "]"))
  {
    hide StringText, Ascii;
    OpeningIs(before);
    ClosingIs(after);
    assert [91] + (Ascii(before) + (Render(value) + (Ascii(after) + [93]))) ==
           ([91] + Ascii(before)) + (Render(value) + (Ascii(after) + [93]));
  }

  /** What surrounds the path in a component's evidence. */
  function EvidenceOpen(): string {
    "{" + KeyText("\n        ", "occurrences") + ("[" + "\n          " + ("{" + KeyText(" ", "location")))
  }

  function EvidenceClose(): string {
    " " + "}" + ("\n        " + "]") + ("\n      " + "}")
  }

  /** A line that ends in a break, seen as one that starts with it. */
  lemma Shift(line: string, shifted: string, rest: string)
    requires "\n" + line == shifted + "\n"
    ensures "\n" + (line + rest) == shifted + ("\n" + rest)
  {
    assert "\n" + (line + rest) == ("\n" + line) + rest;
    assert shifted + ("\n" + rest) == (shifted + "\n") + rest;
  }

  lemma EvidenceLine()
    ensures "\n" + "      \"evidence\": {\n" == (KeyText("\n      ", "evidence") + "{") + "\n"
  {
  }

  lemma OccurrencesLine()
    ensures "\n" + "        \"occurrences\": [\n" == (KeyText("\n        ", "occurrences") + "[") + "\n"
  {
  }

  lemma LocationLine()
    ensures "\n" + "          { \"location\": " == "\n          " + ("{" + KeyText(" ", "location"))
  {
  }

  lemma EvidenceLines()
    ensures "\n" + ("      \"evidence\": {\n" + ("        \"occurrences\": [\n" + "          { \"location\": ")) ==
            KeyText("\n      ", "evidence") + EvidenceOpen()
  {
    hide *;
    var l1, l2, l3 := "      \"evidence\": {\n", "        \"occurrences\": [\n", "          { \"location\": ";
    var k1, k2, k3 := KeyText("\n      ", "evidence"), KeyText("\n        ", "occurrences"), KeyText(" ", "location");
    EvidenceLine();
    OccurrencesLine();
    LocationLine();
    Shift(l1, k1 + "{", l2 + l3);
    Shift(l2, k2 + "[", l3);
    EvidenceOpenIs();
    Regroup(k1, "{", k2, "[", "\n          " + ("{" + k3));
  }

  lemma Regroup(a: string, b: string, c: string, d: string, e: string)
    ensures (a + b) + ((c + d) + e) == a + (b + c + (d + e))
  {
  }

  lemma EvidenceOpenIs()
    ensures EvidenceOpen() ==
            "{" + KeyText("\n        ", "occurrences") + ("[" + ("\n          " + ("{" + KeyText(" ", "location"))))
  {
    hide KeyText;
    assert "[" + "\n          " + ("{" + KeyText(" ", "location")) ==
      "[" + ("\n          " + ("{" + KeyText(" ", "location")));
  }

  lemma EvidenceCloses()
    ensures " }\n" + ("        ]\n" + "      }") == EvidenceClose()
  {
  }

  lemma EvidenceKeysArePlain()
    ensures IsPlain("occurrences") && IsPlain("location") && IsPlain("evidence")
  {
  }

  lemma EvidenceIs(path: bytes)
    ensures var location := Obj([], [Key(" ", "location", Str(path), " ")]);
            var list := Arr([], [Json.Item(Ascii("\n          "), location, Ascii("\n        "))]);
            Evidence(path) == Obj([], [Key("\n        ", "occurrences", list, "\n      ")])
    ensures EvidenceOpen() ==
            "{" + KeyText("\n        ", "occurrences") + ("[" + "\n          " + ("{" + KeyText(" ", "location")))
    ensures EvidenceClose() == " " + "}" + ("\n        " + "]") + ("\n      " + "}")
  {
    hide KeyText, Ascii;
  }

  lemma EvidenceRenders(path: bytes)
    ensures Render(Evidence(path)) == Ascii(EvidenceOpen()) + (StringText(path) + Ascii(EvidenceClose()))
  {
    hide *;
    EvidenceKeysArePlain();
    var location := Obj([], [Key(" ", "location", Str(path), " ")]);
    var list := Arr([], [Json.Item(Ascii("\n          "), location, Ascii("\n        "))]);
    EvidenceIs(path);
    OneField("\n        ", "occurrences", list, "\n      ");
    OneItem("\n          ", location, "\n        ");
    OneField(" ", "location", Str(path), " ");
    StrRenders(path);
    Wrap("[" + "\n          ", "{" + KeyText(" ", "location"), StringText(path), " " + "}", "\n        " + "]");
    Wrap("{" + KeyText("\n        ", "occurrences"), "[" + "\n          " + ("{" + KeyText(" ", "location")),
         StringText(path),
         " " + "}" + ("\n        " + "]"), "\n      " + "}");
  }

  lemma StrRenders(text: bytes)
    ensures Render(Str(text)) == StringText(text)
  {
  }

  lemma TextAround(a: string, b: string, c: string, x: bytes, d: string, e: string, f: string, g: string)
    ensures Ascii(a) + (Ascii(b) + (Ascii(c) + (x + (Ascii(d) + (Ascii(e) + Ascii(f)))))) + Ascii(g) ==
            Ascii(a + (b + c)) + (x + Ascii(d + (e + f) + g))
  {
    hide Ascii;
    var p, q, r, s, t, u, v := Ascii(a), Ascii(b), Ascii(c), Ascii(d), Ascii(e), Ascii(f), Ascii(g);
    assert p + (q + (r + (x + (s + (t + u))))) + v == (p + (q + r)) + (x + ((s + (t + u)) + v));
    Join(b, c);
    Join(a, b + c);
    Join(e, f);
    Join(d, e + f);
    Join(d + (e + f), g);
  }

  lemma EvidenceCloses4()
    ensures " }\n" + ("        ]\n" + "      }\n") + "    }" == EvidenceClose() + ("\n    " + "}")
  {
    EvidenceCloses();
    hide EvidenceClose;
    var m1, m2, m3 := " }\n", "        ]\n", "      }";
    assert m3 + "\n" == "      }\n";
    assert "\n" + "    }" == "\n    " + "}";
    LastBreak(m1, m2, m3, "\n", "    }");
  }

  lemma LastBreak(a: string, b: string, c: string, d: string, e: string)
    ensures a + (b + (c + d)) + e == a + (b + c) + (d + e)
  {
  }

  lemma LeadingBreak(x: bytes, a: string, y: bytes)
    requires x == Ascii(a) + y
    ensures Ascii("\n") + x == Ascii("\n" + a) + y
  {
    JoinLeft("\n", a, y);
  }

  /** The evidence member, printed: the same bytes, with line breaks counted at the end of a line. */
  lemma EvidenceIsPrinted(path: bytes)
    ensures RenderFields([Key("\n      ", "evidence", Evidence(path), "\n    ")]) ==
            Ascii("\n") + (EvidenceText(path) + Ascii("    }"))
  {
    hide *;
    EvidenceKeysArePlain();
    LastField("\n      ", "evidence", Evidence(path), "\n    ");
    EvidenceRenders(path);
    var key := KeyText("\n      ", "evidence");
    Wrap(key, EvidenceOpen(), StringText(path), EvidenceClose(), "\n    " + "}");
    EvidenceTextIs(path);
    var l1, l2, l3 := "      \"evidence\": {\n", "        \"occurrences\": [\n", "          { \"location\": ";
    TextAround(l1, l2, l3, StringText(path), " }\n", "        ]\n", "      }\n", "    }");
    LeadingBreak(EvidenceText(path) + Ascii("    }"), l1 + (l2 + l3), StringText(path) +
                 Ascii(EvidenceClose() + ("\n    " + "}"))) by {
      EvidenceCloses4();
    }
    EvidenceLines();
  }

  lemma EvidenceTextIs(path: bytes)
    ensures EvidenceText(path) ==
            Ascii("      \"evidence\": {\n") +
              (Ascii("        \"occurrences\": [\n") + (Ascii("          { \"location\": ") +
            (StringText(path) + (Ascii(" }\n") + (Ascii("        ]\n") + Ascii("      }\n"))))))
  {
    hide Ascii, StringText;
  }

  lemma VersionLines()
    ensures IsPlain("version") && IsPlain("type") && IsPlain("name") && IsPlain("library")
    ensures KeyText("\n      ", "version") == "\n" + "      \"version\": "
    ensures "," + "\n" == ",\n"
  {
  }

  lemma VersionIsPrinted(version: bytes, path: bytes)
    ensures RenderFields(VersionFields(version) + [Key("\n      ", "evidence", Evidence(path), "\n    ")]) ==
            Ascii("\n") + (VersionText(version) + (EvidenceText(path) + Ascii("    }")))
  {
    hide Ascii, RenderFields, StringText, Evidence, EvidenceText, KeyText, IsPlain;
    var evidence := [Key("\n      ", "evidence", Evidence(path), "\n    ")];
    var rest := EvidenceText(path) + Ascii("    }");
    EvidenceIsPrinted(path);
    if version == [] {
      assert VersionFields(version) + evidence == evidence;
      assert VersionText(version) + rest == rest;
    } else {
      VersionLines();
      NextField("\n      ", "version", Str(version), evidence);
      StrRenders(version);
      JoinLeft(",", "\n", rest);
      JoinLeft("\n", "      \"version\": ", StringText(version) + (Ascii(",\n") + rest));
      var text := StringText(version);
      assert (Ascii("      \"version\": ") + (text + Ascii(",\n"))) + rest ==
        Ascii("      \"version\": ") + (text + (Ascii(",\n") + rest));
    }
  }

  lemma ComponentOpening()
    ensures var kind, name := KeyText("\n      ", "type"), KeyText("\n      ", "name");
            "    " + ("{" + (kind + ("\"library\"" + ("," + name)))) ==
            "    {\n" + ("      \"type\": \"library\",\n" + "      \"name\": ")
  {
    var kind, name := KeyText("\n      ", "type"), KeyText("\n      ", "name");
    assert "    " + "{" + "\n" == "    {\n";
    assert kind == "\n" + "      \"type\": ";
    assert "      \"type\": " + ("\"library\"" + ("," + "\n")) == "      \"type\": \"library\",\n";
    assert name == "\n" + "      \"name\": ";
    hide *;
    FivePieces("    ", "{", "\n", "      \"type\": ", "\"library\"", ",", "      \"name\": ");
  }

  lemma FivePieces(a: string, b: string, nl: string, t: string, l: string, c: string, n: string)
    ensures a + (b + ((nl + t) + (l + (c + (nl + n))))) == (a + b + nl) + ((t + (l + (c + nl))) + n)
  {
  }

  lemma LibraryIsText()
    ensures "\"" + ("library" + "\"") == "\"library\""
  {
  }

  /** A component, printed. */
  lemma ComponentIsPrinted(c: Component)
    ensures Ascii("    ") + Render(ComponentLayout(c)) == ComponentText(c)
  {
    hide *;
    var version, path := CString(c.version), CString(c.path);
    var kind, name := KeyText("\n      ", "type"), KeyText("\n      ", "name");
    var u := VersionText(version) + (EvidenceText(path) + Ascii("    }"));
    var w := StringText(CString(c.name)) + (Ascii(",\n") + u);
    var nameFields := ComponentLayoutIs(c);
    VersionLines();
    VersionIsPrinted(version, path);
    NextField("\n      ", "name", Str(CString(c.name)), VersionFields(version) +
              [Key("\n      ", "evidence", Evidence(path), "\n    ")]);
    StrRenders(CString(c.name));
    JoinLeft(",", "\n", u);
    assert RenderFields(nameFields) == Ascii(name) + w;
    NextField("\n      ", "type", Str(Ascii("library")), nameFields);
    StrRenders(Ascii("library"));
    PlainText("library");
    LibraryIsText();
    OpeningIs(kind);
    JoinLeft(",", name, w);
    JoinLeft("\"library\"", "," + name, w);
    JoinLeft(kind, "\"library\"" + ("," + name), w);
    OpenBrace(kind + ("\"library\"" + ("," + name)), w);
    JoinLeft("    ", "{" + (kind + ("\"library\"" + ("," + name))), w);
    ComponentOpening();
    ComponentTextIs(c, w);
  }

  lemma OpenBrace(text: string, rest: bytes)
    ensures [123] + (Ascii(text) + rest) == Ascii("{" + text) + rest
  {
    OpeningIs(text);
    assert [123] + (Ascii(text) + rest) == [123] + Ascii(text) + rest;
  }

  lemma ComponentLayoutIs(c: Component) returns (nameFields: seq<Field>)
    ensures nameFields == [Key("\n      ", "name", Str(CString(c.name)), "")] +
              (VersionFields(CString(c.version)) + [Key("\n      ", "evidence", Evidence(CString(c.path)), "\n    ")])
    ensures Render(ComponentLayout(c)) ==
            [123] + RenderFields([Key("\n      ", "type", Str(Ascii("library")), "")] + nameFields)
  {
    hide Ascii, Evidence, StringText, VersionFields, RenderFields;
    nameFields := [Key("\n      ", "name", Str(CString(c.name)), "")] +
      (VersionFields(CString(c.version)) + [Key("\n      ", "evidence", Evidence(CString(c.path)), "\n    ")]);
    var fields := [Key("\n      ", "type", Str(Ascii("library")), "")] + nameFields;
    assert ComponentLayout(c) == Obj([], fields);
  }

  lemma ComponentTextIs(c: Component, w: bytes)
    requires w == StringText(CString(c.name)) + (Ascii(",\n") + (VersionText(CString(c.version)) +
                  (EvidenceText(CString(c.path)) + Ascii("    }"))))
    ensures ComponentText(c) == Ascii("    {\n" + ("      \"type\": \"library\",\n" + "      \"name\": ")) + w
  {
    hide Ascii, VersionText, EvidenceText, StringText;
    JoinLeft("      \"type\": \"library\",\n", "      \"name\": ", w);
    JoinLeft("    {\n", "      \"type\": \"library\",\n" + "      \"name\": ", w);
  }

  lemma ListBreaks()
    ensures Ascii("\n    ") == Ascii("\n") + Ascii("    ")
    ensures Ascii("\n  ") + [93] == Ascii("\n") + Ascii("  ]")
    ensures [44] + Ascii("\n") == Ascii(",\n")
    ensures [91] + Ascii("\n") == Ascii("[\n")
  {
  }

  lemma ItemsUnfold(cs: seq<Component>)
    requires cs != []
    ensures Items(cs) != [] && Items(cs)[1..] == Items(cs[1..])
    ensures Items(cs)[0] == Json.Item(Ascii("\n    "), ComponentLayout(cs[0]), if |cs| == 1 then Ascii("\n  ") else [])
  {
    hide Ascii, ComponentLayout;
  }

  lemma RenderItemsUnfolds(cs: seq<Component>)
    requires cs != []
    ensures Items(cs) != [] && (|cs| > 1 ==> Items(cs[1..]) != [])
    ensures RenderItems(Items(cs)) == Ascii("\n    ") + (Render(ComponentLayout(cs[0])) +
              (if |cs| == 1 then Ascii("\n  ") + [93] else [44] + RenderItems(Items(cs[1..]))))
  {
    hide Ascii, ComponentLayout, Render, Items;
    ItemsUnfold(cs);
    assert [] + ([44] + RenderItems(Items(cs))) == [44] + RenderItems(Items(cs));
    if |cs| > 1 {
      var more := RenderItems(Items(cs[1..]));
      assert [] + ([44] + more) == [44] + more;
    }
  }

  lemma ComponentsTextUnfolds(cs: seq<Component>)
    requires cs != []
    ensures ComponentsText(cs) ==
            ComponentText(cs[0]) + (if |cs| > 1 then Ascii(",\n") + ComponentsText(cs[1..]) else Ascii("\n"))
  {
    hide Ascii, ComponentText;
    assert Ascii("\n") + [] == Ascii("\n");
  }

  lemma LastRow(nl: bytes, indent: bytes, r: bytes, close: bytes)
    ensures (nl + indent) + (r + (nl + close)) == nl + (((indent + r) + nl) + close)
  {
  }

  lemma Row(nl: bytes, indent: bytes, r: bytes, comma: bytes, more: bytes, close: bytes)
    ensures (nl + indent) + (r + (comma + (nl + (more + close)))) ==
            nl + (((indent + r) + ((comma + nl) + more)) + close)
  {
  }

  /** The components, printed. */
  lemma {:induction false} ComponentsArePrinted(cs: seq<Component>)
    requires cs != []
    ensures Items(cs) != [] && RenderItems(Items(cs)) == Ascii("\n") + (ComponentsText(cs) + Ascii("  ]"))
  {
    hide *;
    RenderItemsUnfolds(cs);
    ComponentsTextUnfolds(cs);
    ListBreaks();
    ComponentIsPrinted(cs[0]);
    var nl, indent, r := Ascii("\n"), Ascii("    "), Render(ComponentLayout(cs[0]));
    if |cs| == 1 {
      LastRow(nl, indent, r, Ascii("  ]"));
    } else {
      ComponentsArePrinted(cs[1..]);
      Row(nl, indent, r, [44], ComponentsText(cs[1..]), Ascii("  ]"));
    }
  }

  lemma ListIsPrinted(cs: seq<Component>)
    ensures Render(Arr(Ascii("\n  "), Items(cs))) == Ascii("[\n") + (ComponentsText(cs) + Ascii("  ]"))
  {
    hide *;
    ListBreaks();
    ArrIs(Ascii("\n  "), Items(cs));
    if cs == [] {
      NoItems(cs);
      assert [91] + (Ascii("\n") + Ascii("  ]")) == ([91] + Ascii("\n")) + ([] + Ascii("  ]"));
    } else {
      ComponentsArePrinted(cs);
      var text := ComponentsText(cs) + Ascii("  ]");
      assert [91] + (Ascii("\n") + text) == ([91] + Ascii("\n")) + text;
    }
  }

  lemma ArrIs(blank: bytes, items: seq<Json.Item>)
    ensures Render(Arr(blank, items)) == [91] + (if items == [] then blank + [93] else RenderItems(items))
  {
    hide RenderItems;
  }

  lemma NoItems(cs: seq<Component>)
    requires cs == []
    ensures Items(cs) == [] && ComponentsText(cs) == []
  {
  }

  function HeadingLines(): string {
    "{\n" +
      ("  \"bomFormat\": \"CycloneDX\",\n" +
       ("  \"specVersion\": \"1.6\",\n" + ("  \"version\": 1,\n" + "  \"components\": [\n")))
  }

  lemma HeadingIs()
    ensures Heading() == Ascii(HeadingLines())
  {
    hide Ascii;
    Join("  \"version\": 1,\n", "  \"components\": [\n");
    Join("  \"specVersion\": \"1.6\",\n", "  \"version\": 1,\n" + "  \"components\": [\n");
    Join("  \"bomFormat\": \"CycloneDX\",\n", "  \"specVersion\": \"1.6\",\n" +
         ("  \"version\": 1,\n" + "  \"components\": [\n"));
    Join("{\n", "  \"bomFormat\": \"CycloneDX\",\n" +
         ("  \"specVersion\": \"1.6\",\n" + ("  \"version\": 1,\n" + "  \"components\": [\n")));
  }

  /** The members of the document up to the opening bracket of the component list. */
  function HeadingMembers(): string {
    "{" +
      (KeyText("\n  ", "bomFormat") + ("\"CycloneDX\"" + ("," + (KeyText("\n  ", "specVersion") + ("\"1.6\"" + ("," +
    (KeyText("\n  ", "version") + ("1" + ("," + (KeyText("\n  ", "components") + "[\n"))))))))))
  }

  lemma MemberLine(key: string, value: string, line: string, rest: string)
    requires key + (value + ",\n") == "\n" + line
    ensures key + (value + ("," + ("\n" + rest))) == "\n" + (line + rest)
  {
    assert key + (value + ("," + ("\n" + rest))) == (key + (value + ("," + "\n"))) + rest;
    assert "," + "\n" == ",\n";
    assert "\n" + (line + rest) == ("\n" + line) + rest;
  }

  lemma BomFormatLine()
    ensures KeyText("\n  ", "bomFormat") + ("\"CycloneDX\"" + ",\n") == "\n" + "  \"bomFormat\": \"CycloneDX\",\n"
  {
  }

  lemma SpecVersionLine()
    ensures KeyText("\n  ", "specVersion") + ("\"1.6\"" + ",\n") == "\n" + "  \"specVersion\": \"1.6\",\n"
  {
  }

  lemma VersionLine()
    ensures KeyText("\n  ", "version") + ("1" + ",\n") == "\n" + "  \"version\": 1,\n"
  {
  }

  lemma ListLine()
    ensures KeyText("\n  ", "components") + "[\n" == "\n" + "  \"components\": [\n"
  {
  }

  lemma HeadingLinesIs()
    ensures HeadingLines() == "{\n" + ("  \"bomFormat\": \"CycloneDX\",\n" + ("  \"specVersion\": \"1.6\",\n" +
                              ("  \"version\": 1,\n" + "  \"components\": [\n")))
  {
  }

  lemma BraceBreak(rest: string)
    ensures "{" + ("\n" + rest) == "{\n" + rest
  {
  }

  lemma HeadingIsMembers()
    ensures HeadingMembers() == HeadingLines()
  {
    HeadingMembersIs();
    hide *;
    BomFormatLine();
    SpecVersionLine();
    VersionLine();
    ListLine();
    HeadingLinesIs();
    var bom, spec, version, list := "  \"bomFormat\": \"CycloneDX\",\n", "  \"specVersion\": \"1.6\",\n",
      "  \"version\": 1,\n", "  \"components\": [\n";
    MemberLine(KeyText("\n  ", "version"), "1", version, list);
    MemberLine(KeyText("\n  ", "specVersion"), "\"1.6\"", spec, version + list);
    MemberLine(KeyText("\n  ", "bomFormat"), "\"CycloneDX\"", bom, spec + (version + list));
    BraceBreak(bom + (spec + (version + list)));
  }

  lemma DocumentKeysArePlain()
    ensures IsPlain("bomFormat") && IsPlain("specVersion") && IsPlain("version") && IsPlain("components")
    ensures IsPlain("CycloneDX") && IsPlain("1.6")
  {
  }

  lemma ConstantsAreText()
    ensures "\"" + ("CycloneDX" + "\"") == "\"CycloneDX\"" && "\"" + ("1.6" + "\"") == "\"1.6\""
    ensures Render(Digit(1)) == Ascii("1")
  {
  }

  lemma DocumentIs(cs: seq<Component>)
    ensures var comps := [Key("\n  ", "components", Arr(Ascii("\n  "), Items(cs)), "\n")];
            var version := [Key("\n  ", "version", Digit(1), "")] + comps;
            var spec := [Key("\n  ", "specVersion", Str(Ascii("1.6")), "")] + version;
            Render(Document(cs)) == [123] + RenderFields([Key("\n  ", "bomFormat", Str(Ascii("CycloneDX")), "")] + spec)
  {
    hide Ascii, Items, RenderFields;
    var comps := [Key("\n  ", "components", Arr(Ascii("\n  "), Items(cs)), "\n")];
    var version := [Key("\n  ", "version", Digit(1), "")] + comps;
    var spec := [Key("\n  ", "specVersion", Str(Ascii("1.6")), "")] + version;
    var fields := [Key("\n  ", "bomFormat", Str(Ascii("CycloneDX")), "")] + spec;
    assert Document(cs) == Obj([], fields);
  }

  lemma MemberJoins(key: string, value: string, next: string, rest: bytes)
    ensures Ascii(key) + (Ascii(value) + (Ascii(",") + (Ascii(next) + rest))) ==
            Ascii(key + (value + ("," + next))) + rest
  {
    hide Ascii;
    JoinLeft(",", next, rest);
    JoinLeft(value, "," + next, rest);
    JoinLeft(key, value + ("," + next), rest);
  }

  /** What the writer prints is the laid-out document and a line break. */
  lemma DocumentIsPrinted(cs: seq<Component>)
    ensures DocumentText(cs) == Render(Document(cs)) + Ascii("\n")
  {
    hide *;
    var comps := [Key("\n  ", "components", Arr(Ascii("\n  "), Items(cs)), "\n")];
    var version := [Key("\n  ", "version", Digit(1), "")] + comps;
    var spec := [Key("\n  ", "specVersion", Str(Ascii("1.6")), "")] + version;
    DocumentIs(cs);
    DocumentKeysArePlain();
    ConstantsAreText();
    LastField("\n  ", "components", Arr(Ascii("\n  "), Items(cs)), "\n");
    ListIsPrinted(cs);
    Wrap(KeyText("\n  ", "components"), "[\n", ComponentsText(cs), "  ]", "\n" + "}");
    var body := ComponentsText(cs) + Ascii("  ]" + ("\n" + "}"));
    NextField("\n  ", "version", Digit(1), comps);
    NextField("\n  ", "specVersion", Str(Ascii("1.6")), version);
    NextField("\n  ", "bomFormat", Str(Ascii("CycloneDX")), spec);
    StrRenders(Ascii("1.6"));
    StrRenders(Ascii("CycloneDX"));
    PlainText("1.6");
    PlainText("CycloneDX");
    var list := KeyText("\n  ", "components") + "[\n";
    MemberJoins(KeyText("\n  ", "version"), "1", list, body);
    var fromVersion := KeyText("\n  ", "version") + ("1" + ("," + list));
    MemberJoins(KeyText("\n  ", "specVersion"), "\"1.6\"", fromVersion, body);
    var fromSpec := KeyText("\n  ", "specVersion") + ("\"1.6\"" + ("," + fromVersion));
    MemberJoins(KeyText("\n  ", "bomFormat"), "\"CycloneDX\"", fromSpec, body);
    OpenBrace(KeyText("\n  ", "bomFormat") + ("\"CycloneDX\"" + ("," + fromSpec)), body);
    HeadingMembersIs();
    HeadingIsMembers();
    HeadingIs();
    assert Render(Document(cs)) == Heading() + body;
    Footer(cs, body);
  }

  lemma HeadingMembersIs()
    ensures HeadingMembers() ==
      "{" +
        (KeyText("\n  ", "bomFormat") + ("\"CycloneDX\"" + ("," + (KeyText("\n  ", "specVersion") + ("\"1.6\"" + ("," +
      (KeyText("\n  ", "version") + ("1" + ("," + (KeyText("\n  ", "components") + "[\n"))))))))))
  {
    hide KeyText;
  }

  lemma Footer(cs: seq<Component>, body: bytes)
    requires body == ComponentsText(cs) + Ascii("  ]" + ("\n" + "}"))
    ensures Heading() + body + Ascii("\n") == DocumentText(cs)
  {
    hide Heading, ComponentsText, Ascii;
    FooterLines();
    Join("  ]" + ("\n" + "}"), "\n");
    Join("  ]\n", "}\n");
    assert Heading() + body + Ascii("\n") ==
      Heading() + (ComponentsText(cs) + (Ascii("  ]" + ("\n" + "}")) + Ascii("\n")));
  }

  lemma FooterLines()
    ensures "  ]" + ("\n" + "}") + "\n" == "  ]\n" + "}\n"
  {
  }
}
