/** The CycloneDX writer: what it prints is a JSON text that holds the components it was given. */
module Sbom {
  import opened Bytes
  import opened Json
  import opened SbomText

  // ----- the writer -----

  class OutStream {
    var written: bytes

    constructor ()
      ensures written == []
    {
      written := [];
    }

    method Putc(c: byte)
      modifies this
      ensures written == old(written) + [c]
    {
      written := written + [c];
    }

    method Puts(text: string)
      modifies this
      ensures written == old(written) + Ascii(text)
    {
      written := written + Ascii(text);
    }

    /** A number below 2^16 as four lower-case hexadecimal digits. */
    method PutHex4(v: nat)
      requires v < 0x1_0000
      modifies this
      ensures written ==
              old(written) + [HexDigit(v / 0x1000), HexDigit(v / 0x100 % 16), HexDigit(v / 0x10 % 16), HexDigit(v % 16)]
    {
      written := written + [HexDigit(v / 0x1000), HexDigit(v / 0x100 % 16), HexDigit(v / 0x10 % 16), HexDigit(v % 16)];
    }
  }

  /** One byte of a string. */
  method WriteEscaped(out: OutStream, c: byte)
    modifies out
    ensures out.written == old(out.written) + EscapeByte(c)
  {
    hide HexDigit;
    if c == QUOTE {
      out.Puts("\\\"");
    } else if c == BACKSLASH {
      out.Puts("\\\\");
    } else if c == 10 {
      out.Puts("\\n");
    } else if c == 13 {
      out.Puts("\\r");
    } else if c == 9 {
      out.Puts("\\t");
    } else if c < 0x20 {
      out.Puts("\\u");
      out.PutHex4(c);
    } else {
      out.Putc(c);
    }
  }

  /** A C string as a JSON string: everything before its NUL. */
  method WriteJsonString(out: OutStream, s: bytes)
    modifies out
    ensures out.written == old(out.written) + StringText(CString(s))
  {
    hide EscapeByte;
    ghost var text := CString(s);
    ghost var start := out.written + [QUOTE];
    out.Putc(QUOTE);
    var p := 0;
    assert text[0..] == text;
    while p < |s| && s[p] != NUL
      invariant p <= |s| && forall i :: 0 <= i < p ==> s[i] != NUL
      invariant p <= |text|
      invariant out.written + Escape(text[p..]) == start + Escape(text)
    {
      assert text[p..] == [s[p]] + text[p + 1..];
      assert out.written + (EscapeByte(s[p]) + Escape(text[p + 1..])) ==
        out.written + EscapeByte(s[p]) + Escape(text[p + 1..]);
      WriteEscaped(out, s[p]);
      p := p + 1;
    }
    assert text[p..] == [];
    assert out.written + [] == out.written;
    out.Putc(QUOTE);
  }

  lemma InOrder(start: bytes, a: bytes, b: bytes, c: bytes, d: bytes, e: bytes, f: bytes, g: bytes)
    ensures start + a + b + c + d + e + f + g == start + (a + (b + (c + (d + (e + (f + g))))))
  {
  }

  lemma InOrder3(start: bytes, a: bytes, b: bytes, c: bytes)
    ensures start + a + b + c == start + (a + (b + c))
  {
  }

  method WriteVersion(out: OutStream, version: bytes)
    modifies out
    ensures out.written == old(out.written) + VersionText(CString(version))
  {
    hide *;
    FirstIsNul(version);
    VersionTextIs(CString(version));
    ghost var start := out.written;
    if version != [] && version[0] != NUL {
      out.Puts(VERSION_KEY);
      WriteJsonString(out, version);
      out.Puts(COMMA_BREAK);
      InOrder3(start, Ascii(VERSION_KEY), StringText(CString(version)), Ascii(COMMA_BREAK));
    }
  }

  lemma VersionTextIs(version: bytes)
    ensures VersionText(version) == if version == [] then []
            else Ascii(VERSION_KEY) + (StringText(version) + Ascii(COMMA_BREAK))
  {
  }

  method WriteComponent(out: OutStream, c: Component, last: bool)
    modifies out
    ensures out.written == old(out.written) + (ComponentText(c) + LineEnd(last))
  {
    hide *;
    ghost var start := out.written;
    LineEnds(last);
    out.Puts(COMPONENT_OPEN);
    out.Puts(TYPE_LINE);
    out.Puts(NAME_KEY);
    WriteJsonString(out, c.name);
    out.Puts(COMMA_BREAK);
    WriteVersion(out, c.version);
    WriteEvidence(out, c.path);
    InOrder(start, Ascii(COMPONENT_OPEN), Ascii(TYPE_LINE), Ascii(NAME_KEY), StringText(CString(c.name)),
            Ascii(COMMA_BREAK),
            VersionText(CString(c.version)), EvidenceText(CString(c.path)));
    out.Puts(if last then LAST_COMPONENT_CLOSE else NEXT_COMPONENT_CLOSE);
    ComponentTextUnfolds(start, c, last);
  }

  const LAST_COMPONENT_CLOSE: string := "    }\n"
  const NEXT_COMPONENT_CLOSE: string := "    },\n"

  lemma FirstIsNul(s: bytes)
    ensures CString(s) == [] <==> s == [] || s[0] == NUL
  {
  }

  lemma LineEnds(last: bool)
    ensures Ascii(if last then LAST_COMPONENT_CLOSE else NEXT_COMPONENT_CLOSE) == Ascii(COMPONENT_CLOSE) + LineEnd(last)
  {
  }

  method WriteEvidence(out: OutStream, path: bytes)
    modifies out
    ensures out.written == old(out.written) + EvidenceText(CString(path))
  {
    hide *;
    ghost var start := out.written;
    EvidenceTextUnfolds(CString(path));
    out.Puts(EVIDENCE_OPEN);
    out.Puts(OCCURRENCES_OPEN);
    out.Puts(LOCATION_KEY);
    WriteJsonString(out, path);
    out.Puts(LOCATION_CLOSE);
    out.Puts(OCCURRENCES_CLOSE);
    out.Puts(EVIDENCE_CLOSE);
    InOrder(start, Ascii(EVIDENCE_OPEN), Ascii(OCCURRENCES_OPEN), Ascii(LOCATION_KEY), StringText(CString(path)),
            Ascii(LOCATION_CLOSE), Ascii(OCCURRENCES_CLOSE), Ascii(EVIDENCE_CLOSE));
  }

  lemma EvidenceTextUnfolds(path: bytes)
    ensures EvidenceText(path) ==
            Ascii(EVIDENCE_OPEN) + (Ascii(OCCURRENCES_OPEN) + (Ascii(LOCATION_KEY) + (StringText(path) +
              (Ascii(LOCATION_CLOSE) + (Ascii(OCCURRENCES_CLOSE) + Ascii(EVIDENCE_CLOSE))))))
  {
  }

  lemma ComponentTextUnfolds(start: bytes, c: Component, last: bool)
    ensures start + (Ascii(COMPONENT_OPEN) + (Ascii(TYPE_LINE) + (Ascii(NAME_KEY) + (StringText(CString(c.name)) +
              (Ascii(COMMA_BREAK) + (VersionText(CString(c.version)) + EvidenceText(CString(c.path)))))))) +
            (Ascii(COMPONENT_CLOSE) + LineEnd(last)) == start + (ComponentText(c) + LineEnd(last))
  {
    hide Ascii, StringText, VersionText, EvidenceText, CString, LineEnd;
    RegroupComponent(start, Ascii(COMPONENT_OPEN), Ascii(TYPE_LINE), Ascii(NAME_KEY), StringText(CString(c.name)),
                     Ascii(COMMA_BREAK),
            VersionText(CString(c.version)), EvidenceText(CString(c.path)), Ascii(COMPONENT_CLOSE), LineEnd(last));
  }

  lemma RegroupComponent(start: bytes, a: bytes, b: bytes, c: bytes, d: bytes, e: bytes, f: bytes, g: bytes, h: bytes,
                         end: bytes)
    ensures start + (a + (b + (c + (d + (e + (f + g)))))) + (h + end) ==
            start + ((a + (b + (c + (d + (e + (f + (g + h))))))) + end)
  {
  }

  method WriteCycloneDx(components: seq<Component>, out: OutStream)
    modifies out
    ensures out.written == old(out.written) + DocumentText(components)
  {
    hide *;
    ghost var start := out.written;
    out.Puts(DOCUMENT_OPEN);
    out.Puts(BOM_FORMAT_LINE);
    out.Puts(SPEC_VERSION_LINE);
    out.Puts(VERSION_LINE);
    out.Puts(COMPONENTS_OPEN);
    DocumentTextUnfolds(start, components);
    ghost var body := out.written;
    assert components[0..] == components;
    for i := 0 to |components|
      invariant out.written + ComponentsText(components[i..]) == body + ComponentsText(components)
    {
      ComponentsTextUnfoldsAt(out.written, components, i);
      WriteComponent(out, components[i], i + 1 == |components|);
    }
    NoComponents(out.written, components);
    out.Puts(COMPONENTS_CLOSE);
    out.Puts(DOCUMENT_CLOSE);
  }

  lemma ComponentsTextUnfoldsAt(start: bytes, cs: seq<Component>, i: nat)
    requires i < |cs|
    ensures start + ComponentsText(cs[i..]) ==
            start + (ComponentText(cs[i]) + LineEnd(i + 1 == |cs|)) + ComponentsText(cs[i + 1..])
  {
    hide ComponentText, LineEnd;
    assert cs[i..][0] == cs[i] && cs[i..][1..] == cs[i + 1..];
    var text, end, more := ComponentText(cs[i]), LineEnd(i + 1 == |cs|), ComponentsText(cs[i + 1..]);
    assert start + (text + (end + more)) == start + (text + end) + more;
  }

  lemma NoComponents(start: bytes, cs: seq<Component>)
    ensures start + ComponentsText(cs[|cs|..]) == start
  {
    assert cs[|cs|..] == [];
    assert start + [] == start;
  }

  lemma DocumentTextUnfolds(start: bytes, cs: seq<Component>)
    ensures start + Ascii(DOCUMENT_OPEN) + Ascii(BOM_FORMAT_LINE) + Ascii(SPEC_VERSION_LINE) + Ascii(VERSION_LINE) +
              Ascii(COMPONENTS_OPEN) + ComponentsText(cs) + Ascii(COMPONENTS_CLOSE) + Ascii(DOCUMENT_CLOSE) ==
            start + DocumentText(cs)
  {
    hide Ascii, ComponentsText;
    InOrder(start, Ascii(DOCUMENT_OPEN), Ascii(BOM_FORMAT_LINE), Ascii(SPEC_VERSION_LINE), Ascii(VERSION_LINE),
            Ascii(COMPONENTS_OPEN), ComponentsText(cs), Ascii(COMPONENTS_CLOSE));
    RegroupDocument(start, Ascii(DOCUMENT_OPEN), Ascii(BOM_FORMAT_LINE), Ascii(SPEC_VERSION_LINE), Ascii(VERSION_LINE),
                    Ascii(COMPONENTS_OPEN), ComponentsText(cs), Ascii(COMPONENTS_CLOSE), Ascii(DOCUMENT_CLOSE));
  }

  lemma RegroupDocument(start: bytes, a: bytes, b: bytes, c: bytes, d: bytes, e: bytes, f: bytes, g: bytes, h: bytes)
    ensures start + (a + (b + (c + (d + (e + (f + g)))))) + h == start + ((a + (b + (c + (d + e)))) + (f + (g + h)))
  {
  }
}
