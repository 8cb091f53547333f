/** Reading a printed CycloneDX document back: the JSON value it stands for, and the components in that value. */
module SbomReader {
  import opened Bytes
  import opened Json
  import opened SbomText

  // ----- a reader -----

  /** The value of the first member with this key. */
  function Find(members: seq<Member>, key: bytes): Option<Value> {
    if members == [] then None
    else if members[0].key == key then Some(members[0].value)
    else Find(members[1..], key)
  }

  function FindIn(v: Value, key: string): Option<Value> {
    if v.ObjectValue? then Find(v.members, Ascii(key)) else None
  }

  function FindText(v: Value, key: string): Option<bytes> {
    var found :- FindIn(v, key);
    if found.StringValue? then Some(found.text) else None
  }

  function FirstOf(v: Value): Option<Value> {
    if v.ArrayValue? && v.items != [] then Some(v.items[0]) else None
  }

  /** A library component with its first occurrence; a missing version reads as the empty one. */
  function ReadComponent(v: Value): Option<Component> {
    var kind :- FindText(v, "type");
    var name :- FindText(v, "name");
    var evidence :- FindIn(v, "evidence");
    var occurrences :- FindIn(evidence, "occurrences");
    var first :- FirstOf(occurrences);
    var path :- FindText(first, "location");
    if kind != Ascii("library") then None
    else if FindIn(v, "version").None? then Some(Component(name, [], path))
    else
      var version :- FindText(v, "version");
      if version == [] then None else Some(Component(name, version, path))
  }

  function ReadComponents(vs: seq<Value>): Option<seq<Component>> {
    if vs == [] then Some([])
    else
      var first :- ReadComponent(vs[0]);
      var rest :- ReadComponents(vs[1..]);
      Some([first] + rest)
  }

  /** The components of a version 1.6 CycloneDX document. */
  function ReadDocument(v: Value): Option<seq<Component>> {
    var format :- FindText(v, "bomFormat");
    var spec :- FindText(v, "specVersion");
    var version :- FindIn(v, "version");
    var components :- FindIn(v, "components");
    if format != Ascii("CycloneDX") || spec != Ascii("1.6") || version != NumberValue(1) ||
      !components.ArrayValue? then None
    else ReadComponents(components.items)
  }

  function ReadText(text: bytes): Option<seq<Component>> {
    var v :- ParseText(text);
    ReadDocument(v)
  }

  /** What the C functions see of each component. */
  function Seen(cs: seq<Component>): (r: seq<Component>)
    ensures |r| == |cs|
  {
    seq(|cs|, i requires 0 <= i < |cs| => Component(CString(cs[i].name), CString(cs[i].version), CString(cs[i].path)))
  }

  lemma DifferentTexts(a: string, b: string)
    requires |a| != |b| || (a != "" && b != "" && a[0] != b[0] && a[0] < 128 as char && b[0] < 128 as char)
    ensures Ascii(a) != Ascii(b)
  {
    if |a| == |b| {
      assert Ascii(a)[0] != Ascii(b)[0];
    }
  }

  function EvidenceValue(path: bytes): Value {
    ObjectValue([Member(Ascii("occurrences"),
                        ArrayValue([ObjectValue([Member(Ascii("location"), StringValue(path))])]))])
  }

  lemma EvidenceHasValue(path: bytes)
    ensures WellFormed(Evidence(path)) && ValueOf(Evidence(path)) == EvidenceValue(path)
  {
    hide Ascii, WellFormed, ValueOf;
    WhiteTexts();
    var location := Obj([], [Key(" ", "location", Str(path), " ")]);
    StrIs(path);
    OneFieldValue(" ", "location", Str(path), " ");
    var list := Arr([], [Item(Ascii("\n          "), location, Ascii("\n        "))]);
    OneItemValue("\n          ", location, "\n        ");
    OneFieldValue("\n        ", "occurrences", list, "\n      ");
  }

  lemma StrIs(text: bytes)
    ensures WellFormed(Str(text)) && ValueOf(Str(text)) == StringValue(text)
  {
  }

  lemma WhiteText(s: string)
    requires forall i :: 0 <= i < |s| ==> s[i] == ' ' || s[i] == '\n'
    ensures AllWhite(Ascii(s))
  {
    var r := Ascii(s);
    forall i | 0 <= i < |r| ensures IsWhite(r[i]) {
      assert s[i] < 128 as char;
    }
  }

  lemma WhiteTexts()
    ensures AllWhite(Ascii("")) && AllWhite(Ascii(" ")) && AllWhite(Ascii("\n")) && AllWhite(Ascii("\n  "))
    ensures AllWhite(Ascii("\n    ")) && AllWhite(Ascii("\n      ")) && AllWhite(Ascii("\n        "))
    ensures AllWhite(Ascii("\n          "))
  {
    hide AllWhite, Ascii;
    WhiteText("");
    WhiteText(" ");
    WhiteText("\n");
    WhiteText("\n  ");
    WhiteText("\n    ");
    WhiteText("\n      ");
    WhiteText("\n        ");
    WhiteText("\n          ");
  }

  lemma OneFieldValue(before: string, key: string, value: Layout, after: string)
    requires AllWhite(Ascii(before)) && AllWhite(Ascii(after)) && AllWhite(Ascii(" ")) && WellFormed(value)
    ensures WellFormed(Obj([], [Key(before, key, value, after)]))
    ensures ValueOf(Obj([], [Key(before, key, value, after)])) == ObjectValue([Member(Ascii(key), ValueOf(value))])
  {
    hide Ascii;
    var fields := [Key(before, key, value, after)];
    assert FieldValues(fields[1..]) == [];
  }

  lemma OneItemValue(before: string, value: Layout, after: string)
    requires AllWhite(Ascii(before)) && AllWhite(Ascii(after)) && WellFormed(value)
    ensures WellFormed(Arr([], [Item(Ascii(before), value, Ascii(after))]))
    ensures ValueOf(Arr([], [Item(Ascii(before), value, Ascii(after))])) == ArrayValue([ValueOf(value)])
  {
    hide Ascii;
    var items := [Item(Ascii(before), value, Ascii(after))];
    assert ItemValues(items[1..]) == [];
  }

  ghost predicate FieldsAreWellFormed(fields: seq<Field>) {
    forall f | f in fields :: AllWhite(f.before) && AllWhite(f.gap) && AllWhite(f.after) && WellFormed(f.value)
  }

  lemma FieldCons(before: string, key: string, value: Layout, after: string, rest: seq<Field>)
    requires AllWhite(Ascii(before)) && AllWhite(Ascii(after)) && AllWhite(Ascii(" ")) && WellFormed(value)
    requires FieldsAreWellFormed(rest)
    ensures FieldsAreWellFormed([Key(before, key, value, after)] + rest)
    ensures FieldValues([Key(before, key, value, after)] + rest) ==
            [Member(Ascii(key), ValueOf(value))] + FieldValues(rest)
  {
    hide Ascii, WellFormed, ValueOf, AllWhite;
    var fields := [Key(before, key, value, after)] + rest;
    assert fields[1..] == rest;
  }

  lemma NoFields()
    ensures FieldsAreWellFormed([]) && FieldValues([]) == []
  {
  }

  lemma ObjIs(fields: seq<Field>)
    requires FieldsAreWellFormed(fields)
    ensures WellFormed(Obj([], fields)) && ValueOf(Obj([], fields)) == ObjectValue(FieldValues(fields))
  {
    hide FieldValues;
  }

  function VersionMembers(version: bytes): seq<Member> {
    if version == [] then [] else [Member(Ascii("version"), StringValue(version))]
  }

  /** The JSON value of one component. */
  function ComponentValue(c: Component): Value {
    ObjectValue([Member(Ascii("type"), StringValue(Ascii("library")))] +
                ([Member(Ascii("name"), StringValue(CString(c.name)))] +
                (VersionMembers(CString(c.version)) + [Member(Ascii("evidence"), EvidenceValue(CString(c.path)))])))
  }

  lemma VersionFieldsValue(version: bytes, rest: seq<Field>)
    requires FieldsAreWellFormed(rest)
    ensures FieldsAreWellFormed(VersionFields(version) + rest)
    ensures FieldValues(VersionFields(version) + rest) == VersionMembers(version) + FieldValues(rest)
  {
    hide Ascii, FieldsAreWellFormed, FieldValues, WellFormed, ValueOf, AllWhite;
    if version == [] {
      assert VersionFields(version) + rest == rest;
      assert [] + FieldValues(rest) == FieldValues(rest);
    } else {
      WhiteTexts();
      StrIs(version);
      FieldCons("\n      ", "version", Str(version), "", rest);
    }
  }

  lemma ComponentHasValue(c: Component)
    ensures WellFormed(ComponentLayout(c)) && ValueOf(ComponentLayout(c)) == ComponentValue(c)
  {
    hide *;
    var name, version, path := CString(c.name), CString(c.version), CString(c.path);
    var evidence := [Key("\n      ", "evidence", Evidence(path), "\n    ")];
    WhiteTexts();
    NoFields();
    EvidenceHasValue(path);
    FieldCons("\n      ", "evidence", Evidence(path), "\n    ", []);
    assert evidence + [] == evidence;
    assert [Member(Ascii("evidence"), EvidenceValue(path))] + [] == [Member(Ascii("evidence"), EvidenceValue(path))];
    VersionFieldsValue(version, evidence);
    StrIs(name);
    FieldCons("\n      ", "name", Str(name), "", VersionFields(version) + evidence);
    var nameFields := [Key("\n      ", "name", Str(name), "")] + (VersionFields(version) + evidence);
    StrIs(Ascii("library"));
    FieldCons("\n      ", "type", Str(Ascii("library")), "", nameFields);
    ObjIs([Key("\n      ", "type", Str(Ascii("library")), "")] + nameFields);
    ComponentLayoutUnfolds(c);
  }

  lemma ComponentLayoutUnfolds(c: Component)
    ensures ComponentLayout(c) == Obj([], [Key("\n      ", "type", Str(Ascii("library")), "")] +
              ([Key("\n      ", "name", Str(CString(c.name)), "")] +
               (VersionFields(CString(c.version)) +
                [Key("\n      ", "evidence", Evidence(CString(c.path)), "\n    ")])))
    ensures ComponentValue(c) ==
            ObjectValue([Member(Ascii("type"), StringValue(Ascii("library")))] +
                        ([Member(Ascii("name"), StringValue(CString(c.name)))] +
                (VersionMembers(CString(c.version)) + [Member(Ascii("evidence"), EvidenceValue(CString(c.path)))])))
  {
    hide Ascii, Evidence, VersionFields, CString, EvidenceValue, VersionMembers;
  }

  lemma FindHere(key: bytes, value: Value, rest: seq<Member>)
    ensures Find([Member(key, value)] + rest, key) == Some(value)
  {
  }

  lemma FindLater(other: bytes, value: Value, rest: seq<Member>, key: bytes)
    requires other != key
    ensures Find([Member(other, value)] + rest, key) == Find(rest, key)
  {
    assert ([Member(other, value)] + rest)[1..] == rest;
  }

  lemma ComponentKeysDiffer()
    ensures var kind, name, version, evidence := Ascii("type"), Ascii("name"), Ascii("version"), Ascii("evidence");
            kind != name && kind != version && kind != evidence && name != version && name != evidence &&
              version != evidence
  {
    DifferentTexts("type", "name");
    DifferentTexts("type", "version");
    DifferentTexts("type", "evidence");
    DifferentTexts("name", "version");
    DifferentTexts("name", "evidence");
    DifferentTexts("version", "evidence");
  }

  lemma FindNothing(key: bytes)
    ensures Find([], key) == None
  {
  }

  lemma ComponentMembers(c: Component)
    ensures var v := ComponentValue(c);
            && v.ObjectValue?
            && Find(v.members, Ascii("type")) == Some(StringValue(Ascii("library")))
            && Find(v.members, Ascii("name")) == Some(StringValue(CString(c.name)))
            && Find(v.members, Ascii("version")) ==
              (if CString(c.version) == [] then None else Some(StringValue(CString(c.version))))
            && Find(v.members, Ascii("evidence")) == Some(EvidenceValue(CString(c.path)))
  {
    ComponentLayoutUnfolds(c);
    hide *;
    ComponentKeysDiffer();
    var kind, name, version, evidence := Ascii("type"), Ascii("name"), Ascii("version"), Ascii("evidence");
    var library, n, e := StringValue(Ascii("library")), StringValue(CString(c.name)), EvidenceValue(CString(c.path));
    var ms1 := [Member(evidence, e)];
    assert ms1 + [] == ms1;
    FindHere(evidence, e, []);
    FindLater(evidence, e, [], version);
    FindNothing(version);
    var ms2 := VersionMembers(CString(c.version)) + ms1;
    VersionMember(CString(c.version), ms1);
    var ms3 := [Member(name, n)] + ms2;
    FindHere(name, n, ms2);
    FindLater(name, n, ms2, version);
    FindLater(name, n, ms2, evidence);
    FindHere(kind, library, ms3);
    FindLater(kind, library, ms3, name);
    FindLater(kind, library, ms3, version);
    FindLater(kind, library, ms3, evidence);
  }

  lemma VersionMember(version: bytes, rest: seq<Member>)
    requires Find(rest, Ascii("version")) == None
    ensures Find(VersionMembers(version) + rest, Ascii("version")) == if version == [] then None
            else Some(StringValue(version))
    ensures Find(VersionMembers(version) + rest, Ascii("evidence")) == Find(rest, Ascii("evidence"))
  {
    hide Ascii;
    ComponentKeysDiffer();
    if version == [] {
      assert VersionMembers(version) + rest == rest;
    } else {
      FindHere(Ascii("version"), StringValue(version), rest);
      FindLater(Ascii("version"), StringValue(version), rest, Ascii("evidence"));
    }
  }

  lemma EvidenceReads(path: bytes)
    ensures var occurrences := FindIn(EvidenceValue(path), "occurrences");
            && occurrences.Some? && FirstOf(occurrences.value).Some?
            && FindText(FirstOf(occurrences.value).value, "location") == Some(path)
  {
    hide Ascii;
  }

  lemma ComponentReads(c: Component)
    ensures ReadComponent(ComponentValue(c)) == Some(Component(CString(c.name), CString(c.version), CString(c.path)))
  {
    ComponentMembers(c);
    EvidenceReads(CString(c.path));
    hide Ascii, CString, ComponentValue, EvidenceValue, Find, FirstOf;
  }

  function ComponentValues(cs: seq<Component>): (r: seq<Value>)
    ensures |r| == |cs|
  {
    if cs == [] then [] else [ComponentValue(cs[0])] + ComponentValues(cs[1..])
  }

  ghost predicate ItemsAreWellFormed(items: seq<Json.Item>) {
    forall i | i in items :: AllWhite(i.before) && AllWhite(i.after) && WellFormed(i.value)
  }

  lemma {:induction false} ComponentsHaveValues(cs: seq<Component>)
    ensures ItemsAreWellFormed(Items(cs)) && ItemValues(Items(cs)) == ComponentValues(cs)
  {
    hide Ascii, AllWhite, WellFormed, ValueOf, ComponentValue, ComponentLayout;
    if cs == [] {
    } else {
      WhiteTexts();
      EmptyIsWhite();
      ItemsUnfold(cs);
      ComponentHasValue(cs[0]);
      ComponentsHaveValues(cs[1..]);
      assert Items(cs) == [Items(cs)[0]] + Items(cs[1..]);
    }
  }

  lemma EmptyIsWhite()
    ensures AllWhite([])
  {
  }

  lemma ArrIsWellFormed(blank: bytes, items: seq<Json.Item>)
    requires AllWhite(blank) && ItemsAreWellFormed(items)
    ensures WellFormed(Arr(blank, items)) && ValueOf(Arr(blank, items)) == ArrayValue(ItemValues(items))
  {
    hide ItemValues;
  }

  /** The JSON value of a document. */
  function DocumentValue(cs: seq<Component>): Value {
    ObjectValue([Member(Ascii("bomFormat"), StringValue(Ascii("CycloneDX")))] +
                ([Member(Ascii("specVersion"), StringValue(Ascii("1.6")))] +
                 ([Member(Ascii("version"), NumberValue(1))] +
                  [Member(Ascii("components"), ArrayValue(ComponentValues(cs)))])))
  }

  lemma DocumentHasValue(cs: seq<Component>)
    ensures WellFormed(Document(cs)) && ValueOf(Document(cs)) == DocumentValue(cs)
  {
    hide *;
    WhiteTexts();
    NoFields();
    ComponentsHaveValues(cs);
    ArrIsWellFormed(Ascii("\n  "), Items(cs));
    var list := Arr(Ascii("\n  "), Items(cs));
    var comps := [Key("\n  ", "components", list, "\n")];
    FieldCons("\n  ", "components", list, "\n", []);
    assert comps + [] == comps;
    assert [Member(Ascii("components"), ArrayValue(ComponentValues(cs)))] + [] ==
      [Member(Ascii("components"), ArrayValue(ComponentValues(cs)))];
    DigitIs();
    FieldCons("\n  ", "version", Digit(1), "", comps);
    var version := [Key("\n  ", "version", Digit(1), "")] + comps;
    StrIs(Ascii("1.6"));
    FieldCons("\n  ", "specVersion", Str(Ascii("1.6")), "", version);
    var spec := [Key("\n  ", "specVersion", Str(Ascii("1.6")), "")] + version;
    StrIs(Ascii("CycloneDX"));
    FieldCons("\n  ", "bomFormat", Str(Ascii("CycloneDX")), "", spec);
    ObjIs([Key("\n  ", "bomFormat", Str(Ascii("CycloneDX")), "")] + spec);
    DocumentUnfolds(cs);
  }

  lemma DigitIs()
    ensures WellFormed(Digit(1)) && ValueOf(Digit(1)) == NumberValue(1)
  {
  }

  lemma DocumentUnfolds(cs: seq<Component>)
    ensures Document(cs) == Obj([], [Key("\n  ", "bomFormat", Str(Ascii("CycloneDX")), "")] +
              ([Key("\n  ", "specVersion", Str(Ascii("1.6")), "")] + ([Key("\n  ", "version", Digit(1), "")] +
               [Key("\n  ", "components", Arr(Ascii("\n  "), Items(cs)), "\n")])))
    ensures DocumentValue(cs) ==
            ObjectValue([Member(Ascii("bomFormat"), StringValue(Ascii("CycloneDX")))] +
                        ([Member(Ascii("specVersion"), StringValue(Ascii("1.6")))] +
                         ([Member(Ascii("version"), NumberValue(1))] +
                          [Member(Ascii("components"), ArrayValue(ComponentValues(cs)))])))
  {
    hide Ascii, Items, ComponentValues;
  }

  lemma DocumentKeysDiffer()
    ensures var bom, spec, version, comps := Ascii("bomFormat"), Ascii("specVersion"), Ascii("version"),
            Ascii("components");
            bom != spec && bom != version && bom != comps && spec != version && spec != comps && version != comps
  {
    DifferentTexts("bomFormat", "specVersion");
    DifferentTexts("bomFormat", "version");
    DifferentTexts("bomFormat", "components");
    DifferentTexts("specVersion", "version");
    DifferentTexts("specVersion", "components");
    DifferentTexts("version", "components");
  }

  lemma DocumentMembers(cs: seq<Component>)
    ensures var v := DocumentValue(cs);
            && v.ObjectValue?
            && Find(v.members, Ascii("bomFormat")) == Some(StringValue(Ascii("CycloneDX")))
            && Find(v.members, Ascii("specVersion")) == Some(StringValue(Ascii("1.6")))
            && Find(v.members, Ascii("version")) == Some(NumberValue(1))
            && Find(v.members, Ascii("components")) == Some(ArrayValue(ComponentValues(cs)))
  {
    DocumentUnfolds(cs);
    hide *;
    DocumentKeysDiffer();
    var bom, spec, version, comps := Ascii("bomFormat"), Ascii("specVersion"), Ascii("version"), Ascii("components");
    var format, level, list := StringValue(Ascii("CycloneDX")), StringValue(Ascii("1.6")),
      ArrayValue(ComponentValues(cs));
    var ms1 := [Member(comps, list)];
    assert ms1 + [] == ms1;
    FindHere(comps, list, []);
    var ms2 := [Member(version, NumberValue(1))] + ms1;
    FindHere(version, NumberValue(1), ms1);
    FindLater(version, NumberValue(1), ms1, comps);
    var ms3 := [Member(spec, level)] + ms2;
    FindHere(spec, level, ms2);
    FindLater(spec, level, ms2, version);
    FindLater(spec, level, ms2, comps);
    FindHere(bom, format, ms3);
    FindLater(bom, format, ms3, spec);
    FindLater(bom, format, ms3, version);
    FindLater(bom, format, ms3, comps);
  }

  lemma {:induction false} ComponentsRead(cs: seq<Component>)
    ensures ReadComponents(ComponentValues(cs)) == Some(Seen(cs))
  {
    hide ReadComponent, ComponentValue, CString;
    if cs == [] {
    } else {
      ComponentReads(cs[0]);
      ComponentsRead(cs[1..]);
      assert ComponentValues(cs)[1..] == ComponentValues(cs[1..]);
      assert Seen(cs) == [Seen(cs)[0]] + Seen(cs[1..]);
    }
  }

  lemma DocumentReads(cs: seq<Component>)
    ensures ReadDocument(DocumentValue(cs)) == Some(Seen(cs))
  {
    DocumentMembers(cs);
    ComponentsRead(cs);
    hide Ascii, CString, DocumentValue, ComponentValues, ReadComponents, Find, Seen;
  }

  /** Whatever components are written, the text is JSON, and reads back as what C sees of them, in order. */
  lemma SbomRoundTrip(cs: seq<Component>)
    ensures ParseText(DocumentText(cs)) == Some(DocumentValue(cs))
    ensures ReadText(DocumentText(cs)) == Some(Seen(cs))
  {
    hide *;
    DocumentIsPrinted(cs);
    DocumentHasValue(cs);
    WhiteTexts();
    TextParses(Document(cs), Ascii("\n"));
    DocumentReads(cs);
    ReadTextIs(DocumentText(cs));
  }

  lemma ReadTextIs(text: bytes)
    ensures ReadText(text) == if ParseText(text).None? then None else ReadDocument(ParseText(text).value)
  {
    hide ParseText, ReadDocument;
  }

  ghost predicate HasNoNul(c: Component) {
    NUL !in c.name && NUL !in c.version && NUL !in c.path
  }

  /** Components without NULs read back exactly; so different lists of them never print the same text. */
  lemma SbomIsFaithful(cs: seq<Component>)
    requires forall i :: 0 <= i < |cs| ==> HasNoNul(cs[i])
    ensures ReadText(DocumentText(cs)) == Some(cs)
  {
    hide DocumentText, ReadText, CString;
    SbomRoundTrip(cs);
    forall i | 0 <= i < |cs| ensures Seen(cs)[i] == cs[i] {
      assert HasNoNul(cs[i]);
      NulFreeIsWhole(cs[i].name);
      NulFreeIsWhole(cs[i].version);
      NulFreeIsWhole(cs[i].path);
    }
    assert Seen(cs) == cs;
  }
}
