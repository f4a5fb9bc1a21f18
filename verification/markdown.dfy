/*
 * The SUMMARY.md renderer of internal/book/markdownGenerator.go. The Go
 * generator appends to a string builder; here a Generator is the buffer
 * written so far, and each write returns the extended generator.
 *
 * The rendering is also given a second, line-based definition (a summary is a
 * list of lines, each ended by a newline) and the two are proved equal.
 */
module Markdown {
  import opened Pages

  // ---------------------------------------------------------------------------
  // String helpers of the Go standard library
  // ---------------------------------------------------------------------------

  /** strings.Repeat: `count` copies of `s`, one after another. */
  function Repeat(s: string, count: nat): (r: string)
    ensures |r| == |s| * count
    decreases count
  {
    if count == 0 then "" else s + Repeat(s, count - 1)
  }

  /** Repeating a one-character string gives that character at every position. */
  lemma {:induction false} RepeatChar(c: char, count: nat)
    ensures |Repeat([c], count)| == count
    ensures forall i :: 0 <= i < count ==> Repeat([c], count)[i] == c
    decreases count
  {
    if count > 0 {
      RepeatChar(c, count - 1);
    }
  }

  /** `n` copies of two spaces are 2n spaces. */
  lemma {:induction false} RepeatTwoSpaces(count: nat)
    ensures Repeat("  ", count) == Spaces(2 * count)
    decreases count
  {
    if count > 0 {
      RepeatTwoSpaces(count - 1);
      assert Spaces(2 * count) == "  " + Spaces(2 * (count - 1));
    }
  }

  /** A run of `n` spaces. */
  function Spaces(n: nat): string {
    seq(n, _ => ' ')
  }

  /**
   * strings.ReplaceAll(s, " ", "%20"): every space becomes %20, every other
   * character is kept.
   */
  function EscapeSpaces(s: string): (r: string)
    ensures ' ' !in r
    ensures ' ' !in s ==> r == s
    ensures |r| >= |s|
  {
    if s == [] then ""
    else (if s[0] == ' ' then "%20" else [s[0]]) + EscapeSpaces(s[1..])
  }

  /** Reads %20 back as a space; the inverse of EscapeSpaces on text without '%'. */
  function UnescapeSpaces(s: string): string
    decreases |s|
  {
    if s == [] then ""
    else if |s| >= 3 && s[..3] == "%20" then " " + UnescapeSpaces(s[3..])
    else [s[0]] + UnescapeSpaces(s[1..])
  }

  /** On text without '%', escaping loses nothing: unescaping gives the text back. */
  lemma {:induction false} UnescapeEscapeSpaces(s: string)
    requires '%' !in s
    ensures UnescapeSpaces(EscapeSpaces(s)) == s
    decreases |s|
  {
    if s != [] {
      UnescapeEscapeSpaces(s[1..]);
      var rest := EscapeSpaces(s[1..]);
      if s[0] == ' ' {
        UnescapeEscapedSpace(rest);
      } else {
        UnescapePlainChar(s[0], rest);
      }
      assert s == [s[0]] + s[1..];
    }
  }

  /** An escaped space at the head of the text unescapes to a space. */
  lemma UnescapeEscapedSpace(rest: string)
    ensures UnescapeSpaces("%20" + rest) == " " + UnescapeSpaces(rest)
  {
    var t := "%20" + rest;
    assert t[..3] == "%20";
    assert t[3..] == rest;
  }

  /** Any character other than '%' at the head of the text is kept as it is. */
  lemma UnescapePlainChar(c: char, rest: string)
    requires c != '%'
    ensures UnescapeSpaces([c] + rest) == [c] + UnescapeSpaces(rest)
  {
    var t := [c] + rest;
    assert t[0] == c;
    assert t[1..] == rest;
  }

  /** Escaping works character by character, so it distributes over concatenation. */
  lemma {:induction false} EscapeSpacesAppend(a: string, b: string)
    ensures EscapeSpaces(a + b) == EscapeSpaces(a) + EscapeSpaces(b)
    decreases |a|
  {
    if a != [] {
      var p := if a[0] == ' ' then "%20" else [a[0]];
      assert (a + b)[0] == a[0];
      assert (a + b)[1..] == a[1..] + b;
      assert EscapeSpaces(a + b) == p + EscapeSpaces(a[1..] + b);
      EscapeSpacesAppend(a[1..], b);
      AppendAssoc(p, EscapeSpaces(a[1..]), EscapeSpaces(b));
    } else {
      assert a + b == b;
    }
  }

  // ---------------------------------------------------------------------------
  // Markdown pieces
  // ---------------------------------------------------------------------------

  /** getLinkPath: the link to an entry's file in a version's folder, spaces escaped. */
  function LinkPath(entry: TOCEntry, version: string): (r: string)
    ensures ' ' !in r
  {
    EscapeSpaces("/" + ContentDirName + "/" + version + "/" + entry.file)
  }

  /** The fixed parts of the link contain no space, so only the version and the file are escaped. */
  lemma LinkPathParts(entry: TOCEntry, version: string)
    ensures LinkPath(entry, version) == "/contents/" + EscapeSpaces(version) + "/" + EscapeSpaces(entry.file)
  {
    assert "/" + ContentDirName + "/" == "/contents/";
    EscapeBetween("/contents/", version, "/", entry.file);
  }

  /** Escaping text whose fixed pieces have no space escapes only the variable pieces. */
  lemma EscapeBetween(c: string, v: string, sep: string, f: string)
    requires ' ' !in c && ' ' !in sep
    ensures EscapeSpaces(c + v + sep + f) == c + EscapeSpaces(v) + sep + EscapeSpaces(f)
  {
    EscapeSpacesAppend(c + v + sep, f);
    EscapeSpacesAppend(c + v, sep);
    EscapeSpacesAppend(c, v);
  }

  /** getLink: the markdown link [desc](url). */
  function Link(desc: string, url: string): string {
    "[" + desc + "](" + url + ")"
  }

  /**
   * getListItemWithIndent: a bullet indented by two spaces per level. Go's
   * strings.Repeat panics on a negative count, so the indent must not be
   * negative.
   */
  function ListItem(desc: string, url: string, indent: int): string
    requires indent >= 0
  {
    Repeat("  ", indent) + "*" + " " + Link(desc, url)
  }

  /** A list item is 2 * indent spaces, then "* ", then the link. */
  lemma ListItemShape(desc: string, url: string, indent: int)
    requires indent >= 0
    ensures ListItem(desc, url, indent) == Spaces(2 * indent) + "* " + Link(desc, url)
  {
    RepeatTwoSpaces(indent);
    AppendAssoc(Spaces(2 * indent), "*", " ");
  }

  /** getTitle: `level` hashes, a space, the content. */
  function Title(content: string, level: int): string
    requires level >= 0
  {
    Repeat("#", level) + " " + content
  }

  /** A title is read back as its level (the run of leading hashes) and its content. */
  lemma TitleShape(content: string, level: nat)
    ensures |Title(content, level)| == level + 1 + |content|
    ensures forall i :: 0 <= i < level ==> Title(content, level)[i] == '#'
    ensures Title(content, level)[level] == ' '
    ensures Title(content, level)[level + 1..] == content
  {
    RepeatChar('#', level);
  }

  // ---------------------------------------------------------------------------
  // The generator
  // ---------------------------------------------------------------------------

  /** markdownGenerator: the text written so far. */
  datatype Generator = Generator(buffer: string)

  function NewGenerator(): Generator {
    Generator("")
  }

  function WriteLine(g: Generator): Generator {
    Generator(g.buffer + "\n")
  }

  function WriteVersion(g: Generator, version: string): Generator {
    Generator(g.buffer + Title(version, 2) + "\n")
  }

  function WriteSection(g: Generator, section: string): Generator {
    Generator(g.buffer + Title(section, 3) + "\n")
  }

  /** Every entry's order is usable as an indent. */
  predicate IndentsOk(entries: seq<TOCEntry>) {
    forall k :: 0 <= k < |entries| ==> entries[k].order >= 0
  }

  predicate SectionIndentsOk(sections: seq<OrderedTocSection>) {
    forall j :: 0 <= j < |sections| ==> IndentsOk(sections[j].section.entries)
  }

  predicate VersionIndentsOk(versions: seq<OrderedVersionTocs>) {
    forall i :: 0 <= i < |versions| ==> SectionIndentsOk(versions[i].sections)
  }

  /** WriteTOCs: one list item per entry, in order, each on its own line. */
  function WriteTOCs(g: Generator, entries: seq<TOCEntry>, version: string): Generator
    requires IndentsOk(entries)
    decreases |entries|
  {
    if entries == [] then g
    else
      var e := entries[0];
      var next := Generator(g.buffer + ListItem(e.name, LinkPath(e, version), e.order) + "\n");
      WriteTOCs(next, entries[1..], version)
  }

  /** The body of GenerateSummary's inner loop, over a version's sections in order. */
  function WriteSections(g: Generator, sections: seq<OrderedTocSection>, version: string): Generator
    requires SectionIndentsOk(sections)
    decreases |sections|
  {
    if sections == [] then g
    else
      var s := sections[0];
      var next := WriteLine(WriteTOCs(WriteLine(WriteSection(g, s.name)), s.section.entries, version));
      WriteSections(next, sections[1..], version)
  }

  /** GenerateSummary: for each version, its heading and then its sections, in order. */
  function GenerateSummary(g: Generator, versions: seq<OrderedVersionTocs>): Generator
    requires VersionIndentsOk(versions)
    decreases |versions|
  {
    if versions == [] then g
    else
      var v := versions[0];
      GenerateSummary(WriteSections(WriteLine(WriteVersion(g, v.version)), v.sections, v.version), versions[1..])
  }

  /** The text of SUMMARY.md for the sorted tables of contents. */
  function Summary(versions: seq<OrderedVersionTocs>): string
    requires VersionIndentsOk(versions)
  {
    GenerateSummary(NewGenerator(), versions).buffer
  }

  // ---------------------------------------------------------------------------
  // The same summary, as a list of lines
  // ---------------------------------------------------------------------------

  /** Lines joined with a newline after each one. */
  function Unlines(lines: seq<string>): string
    decreases |lines|
  {
    if lines == [] then "" else lines[0] + "\n" + Unlines(lines[1..])
  }

  lemma {:induction false} UnlinesAppend(a: seq<string>, b: seq<string>)
    ensures Unlines(a + b) == Unlines(a) + Unlines(b)
    decreases |a|
  {
    if a != [] {
      assert (a + b)[0] == a[0];
      assert (a + b)[1..] == a[1..] + b;
      assert Unlines(a + b) == a[0] + "\n" + Unlines(a[1..] + b);
      UnlinesAppend(a[1..], b);
      AppendAssoc(a[0] + "\n", Unlines(a[1..]), Unlines(b));
    } else {
      assert a + b == b;
    }
  }

  /** The line for one entry: its indent, a bullet, a link to its file in the version's folder. */
  function EntryLine(e: TOCEntry, version: string): string
    requires e.order >= 0
  {
    Spaces(2 * e.order) + "* " + Link(e.name, "/contents/" + EscapeSpaces(version) + "/" + EscapeSpaces(e.file))
  }

  function EntryLines(entries: seq<TOCEntry>, version: string): (r: seq<string>)
    requires IndentsOk(entries)
    ensures |r| == |entries|
    decreases |entries|
  {
    if entries == [] then [] else [EntryLine(entries[0], version)] + EntryLines(entries[1..], version)
  }

  /** A section: its heading, a blank line, its entries, a blank line. */
  function SectionLines(sections: seq<OrderedTocSection>, version: string): seq<string>
    requires SectionIndentsOk(sections)
    decreases |sections|
  {
    if sections == [] then []
    else
      var s := sections[0];
      ["### " + s.name, ""] + EntryLines(s.section.entries, version) + [""]
        + SectionLines(sections[1..], version)
  }

  /** A version: its heading, a blank line, its sections. */
  function SummaryLines(versions: seq<OrderedVersionTocs>): seq<string>
    requires VersionIndentsOk(versions)
    decreases |versions|
  {
    if versions == [] then []
    else
      var v := versions[0];
      ["## " + v.version, ""] + SectionLines(v.sections, v.version) + SummaryLines(versions[1..])
  }

  lemma ListItemIsEntryLine(e: TOCEntry, version: string)
    requires e.order >= 0
    ensures ListItem(e.name, LinkPath(e, version), e.order) == EntryLine(e, version)
  {
    LinkPathParts(e, version);
    ListItemShape(e.name, LinkPath(e, version), e.order);
  }

  lemma TitleLevels(content: string)
    ensures Title(content, 2) == "## " + content
    ensures Title(content, 3) == "### " + content
  {
    assert Repeat("#", 2) == "##";
    assert Repeat("#", 3) == "###";
    AppendAssoc("##", " ", content);
    AppendAssoc("###", " ", content);
  }

  /** A heading line followed by a blank line. */
  lemma HeadingLines(g: Generator, title: string, heading: string)
    requires title == heading
    ensures WriteLine(Generator(g.buffer + title + "\n")).buffer == g.buffer + Unlines([heading, ""])
  {
    assert Unlines([heading, ""]) == heading + "\n" + ("" + "\n" + Unlines([]));
    assert "" + "\n" + Unlines([]) == "\n";
    AppendAssoc(g.buffer, heading + "\n", "\n");
    AppendAssoc(g.buffer, heading, "\n");
  }

  /** WriteTOCs appends exactly the entry lines. */
  lemma {:induction false} WriteTOCsLines(g: Generator, entries: seq<TOCEntry>, version: string)
    requires IndentsOk(entries)
    ensures WriteTOCs(g, entries, version).buffer == g.buffer + Unlines(EntryLines(entries, version))
    decreases |entries|
  {
    if entries != [] {
      var e := entries[0];
      ListItemIsEntryLine(e, version);
      var line := EntryLine(e, version);
      var next := Generator(g.buffer + line + "\n");
      var rest := Unlines(EntryLines(entries[1..], version));
      assert WriteTOCs(g, entries, version) == WriteTOCs(next, entries[1..], version);
      WriteTOCsLines(next, entries[1..], version);
      assert EntryLines(entries, version) == [line] + EntryLines(entries[1..], version);
      assert Unlines(EntryLines(entries, version)) == line + "\n" + rest;
      AppendAssoc(g.buffer, line + "\n", rest);
      AppendAssoc(g.buffer, line, "\n");
    }
  }

  /** WriteSections appends exactly the section lines. */
  lemma {:induction false} WriteSectionsLines(g: Generator, sections: seq<OrderedTocSection>, version: string)
    requires SectionIndentsOk(sections)
    ensures WriteSections(g, sections, version).buffer == g.buffer + Unlines(SectionLines(sections, version))
    decreases |sections|
  {
    if sections != [] {
      var s := sections[0];
      var head := ["### " + s.name, ""];
      var body := EntryLines(s.section.entries, version);
      var tail := SectionLines(sections[1..], version);
      var g1 := WriteLine(WriteSection(g, s.name));
      TitleLevels(s.name);
      HeadingLines(g, Title(s.name, 3), "### " + s.name);
      var g2 := WriteTOCs(g1, s.section.entries, version);
      WriteTOCsLines(g1, s.section.entries, version);
      var next := WriteLine(g2);
      assert WriteSections(g, sections, version) == WriteSections(next, sections[1..], version);
      WriteSectionsLines(next, sections[1..], version);
      assert SectionLines(sections, version) == head + body + [""] + tail;
      UnlinesAppend(head + body + [""], tail);
      UnlinesAppend(head + body, [""]);
      UnlinesAppend(head, body);
      assert Unlines([""]) == "\n";
      var uh, ub, ut := Unlines(head), Unlines(body), Unlines(tail);
      AppendAssoc(g.buffer, uh + ub + "\n", ut);
      AppendAssoc(g.buffer, uh + ub, "\n");
      AppendAssoc(g.buffer, uh, ub);
    }
  }

  /** GenerateSummary appends exactly the summary lines. */
  lemma {:induction false} GenerateSummaryLines(g: Generator, versions: seq<OrderedVersionTocs>)
    requires VersionIndentsOk(versions)
    ensures GenerateSummary(g, versions).buffer == g.buffer + Unlines(SummaryLines(versions))
    decreases |versions|
  {
    if versions != [] {
      var v := versions[0];
      var head := ["## " + v.version, ""];
      var body := SectionLines(v.sections, v.version);
      var tail := SummaryLines(versions[1..]);
      var g1 := WriteLine(WriteVersion(g, v.version));
      TitleLevels(v.version);
      HeadingLines(g, Title(v.version, 2), "## " + v.version);
      var g2 := WriteSections(g1, v.sections, v.version);
      WriteSectionsLines(g1, v.sections, v.version);
      assert GenerateSummary(g, versions) == GenerateSummary(g2, versions[1..]);
      GenerateSummaryLines(g2, versions[1..]);
      assert SummaryLines(versions) == head + body + tail;
      UnlinesAppend(head + body, tail);
      UnlinesAppend(head, body);
      var uh, ub, ut := Unlines(head), Unlines(body), Unlines(tail);
      AppendAssoc(g.buffer, uh + ub, ut);
      AppendAssoc(g.buffer, uh, ub);
    }
  }

  /** The summary of two lists of versions is the first's summary followed by the second's. */
  lemma SummaryAppend(a: seq<OrderedVersionTocs>, b: seq<OrderedVersionTocs>)
    requires VersionIndentsOk(a) && VersionIndentsOk(b)
    ensures VersionIndentsOk(a + b)
    ensures Summary(a + b) == Summary(a) + Summary(b)
  {
    assert VersionIndentsOk(a + b) by {
      forall i | 0 <= i < |a + b|
        ensures SectionIndentsOk((a + b)[i].sections)
      {
        if i < |a| { assert (a + b)[i] == a[i]; } else { assert (a + b)[i] == b[i - |a|]; }
      }
    }
    SummaryLinesAppend(a, b);
    UnlinesAppend(SummaryLines(a), SummaryLines(b));
    SummaryIsUnlines(a + b);
    SummaryIsUnlines(a);
    SummaryIsUnlines(b);
  }

  /** SUMMARY.md is exactly its lines, each ended by a newline. */
  lemma SummaryIsUnlines(versions: seq<OrderedVersionTocs>)
    requires VersionIndentsOk(versions)
    ensures Summary(versions) == Unlines(SummaryLines(versions))
  {
    GenerateSummaryLines(NewGenerator(), versions);
    assert "" + Unlines(SummaryLines(versions)) == Unlines(SummaryLines(versions));
  }

  lemma {:induction false} SummaryLinesAppend(a: seq<OrderedVersionTocs>, b: seq<OrderedVersionTocs>)
    requires VersionIndentsOk(a) && VersionIndentsOk(b) && VersionIndentsOk(a + b)
    ensures SummaryLines(a + b) == SummaryLines(a) + SummaryLines(b)
    decreases |a|
  {
    if a != [] {
      assert (a + b)[0] == a[0];
      assert (a + b)[1..] == a[1..] + b;
      var v := a[0];
      var h := ["## " + v.version, ""] + SectionLines(v.sections, v.version);
      assert SummaryLines(a + b) == h + SummaryLines(a[1..] + b);
      SummaryLinesAppend(a[1..], b);
      AppendAssoc(h, SummaryLines(a[1..]), SummaryLines(b));
    } else {
      assert a + b == b;
    }
  }

  // ---------------------------------------------------------------------------
  // The generator test's expected text
  // ---------------------------------------------------------------------------

  /** An entry at indent 1 with nothing to escape: two spaces, a bullet, the plain link. */
  lemma IndentOneLine(e: TOCEntry, version: string)
    requires e.order == 1 && ' ' !in version && ' ' !in e.file
    ensures EntryLine(e, version) == "  * " + Link(e.name, "/contents/" + version + "/" + e.file)
  {
    assert Spaces(2) + "* " == "  * ";
    AppendAssoc(Spaces(2), "* ", Link(e.name, "/contents/" + version + "/" + e.file));
  }

  lemma DocumentOneUrl()
    ensures "/contents/" + "9.0.0" + "/" + "DocumentOne.md" == "/contents/9.0.0/DocumentOne.md"
  {
    assert "/contents/" + "9.0.0" + "/" == "/contents/9.0.0/";
  }

  lemma DocumentOneLine(e: TOCEntry)
    requires e == TOCEntry("DocumentOne", "DocumentOne.md", 1)
    ensures EntryLine(e, "9.0.0") == "  * " + Link("DocumentOne", "/contents/9.0.0/DocumentOne.md")
  {
    IndentOneLine(e, "9.0.0");
    DocumentOneUrl();
  }

  lemma DocumentTwoUrl()
    ensures "/contents/" + "9.0.0" + "/" + "DocumentTwo.md" == "/contents/9.0.0/DocumentTwo.md"
  {
    assert "/contents/" + "9.0.0" + "/" == "/contents/9.0.0/";
  }

  lemma DocumentTwoLine(e: TOCEntry)
    requires e == TOCEntry("DocumentTwo", "DocumentTwo.md", 1)
    ensures EntryLine(e, "9.0.0") == "  * " + Link("DocumentTwo", "/contents/9.0.0/DocumentTwo.md")
  {
    IndentOneLine(e, "9.0.0");
    DocumentTwoUrl();
  }

  lemma DocumentThreeUrl()
    ensures "/contents/" + "10.0.0" + "/" + "DocumentThree.md" == "/contents/10.0.0/DocumentThree.md"
  {
    assert "/contents/" + "10.0.0" + "/" == "/contents/10.0.0/";
  }

  lemma DocumentThreeLine(e: TOCEntry)
    requires e == TOCEntry("DocumentThree", "DocumentThree.md", 1)
    ensures EntryLine(e, "10.0.0") == "  * " + Link("DocumentThree", "/contents/10.0.0/DocumentThree.md")
  {
    IndentOneLine(e, "10.0.0");
    DocumentThreeUrl();
  }

  /** A version heading written after the lines `before`. */
  lemma VersionBlockLines(g: Generator, before: seq<string>, version: string)
    requires g.buffer == Unlines(before)
    ensures WriteLine(WriteVersion(g, version)).buffer == Unlines(before + ["## " + version, ""])
  {
    TitleLevels(version);
    HeadingLines(g, Title(version, 2), "## " + version);
    UnlinesAppend(before, ["## " + version, ""]);
  }

  /** A section heading and its entries written after the lines `before`. */
  lemma SectionBlockLines(g: Generator, before: seq<string>, name: string, entries: seq<TOCEntry>, version: string)
    requires g.buffer == Unlines(before)
    requires IndentsOk(entries)
    ensures WriteTOCs(WriteLine(WriteSection(g, name)), entries, version).buffer
      == Unlines(before + ["### " + name, ""] + EntryLines(entries, version))
  {
    var g1 := WriteLine(WriteSection(g, name));
    TitleLevels(name);
    HeadingLines(g, Title(name, 3), "### " + name);
    UnlinesAppend(before, ["### " + name, ""]);
    WriteTOCsLines(g1, entries, version);
    UnlinesAppend(before + ["### " + name, ""], EntryLines(entries, version));
  }

  /** A blank line written after the lines `before`. */
  lemma BlankLine(g: Generator, before: seq<string>)
    requires g.buffer == Unlines(before)
    ensures WriteLine(g).buffer == Unlines(before + [""])
  {
    UnlinesAppend(before, [""]);
    assert Unlines([""]) == "\n";
  }

  /**
   * The call sequence of the generator test, for any entries: a version
   * heading, a section with two entries, a blank line, a section with one
   * entry. Each write adds its own lines, in call order.
   */
  lemma GeneratorTestCalls(g: Generator, one: TOCEntry, two: TOCEntry, three: TOCEntry)
    requires g.buffer == ""
    requires one.order >= 0 && two.order >= 0 && three.order >= 0
    ensures
      var g1 := WriteLine(WriteVersion(g, "v9.0.0"));
      var g2 := WriteLine(WriteSection(g1, "BrighterConfiguration"));
      var g3 := WriteLine(WriteTOCs(g2, [one, two], "9.0.0"));
      var g4 := WriteLine(WriteSection(g3, "DarkerConfiguration"));
      WriteTOCs(g4, [three], "10.0.0").buffer == Unlines(TestLines(one, two, three))
  {
    var g3 := WriteLine(WriteTOCs(WriteLine(WriteSection(WriteLine(WriteVersion(g, "v9.0.0")), "BrighterConfiguration")), [one, two], "9.0.0"));
    FirstSectionLines(g, one, two);
    var p3 := [] + ["## " + "v9.0.0", ""] + ["### " + "BrighterConfiguration", ""] + EntryLines([one, two], "9.0.0") + [""];
    SectionBlockLines(g3, p3, "DarkerConfiguration", [three], "10.0.0");
  }

  /** The first half of the generator test: the version heading and the first section. */
  lemma FirstSectionLines(g0: Generator, one: TOCEntry, two: TOCEntry)
    requires g0.buffer == ""
    requires one.order >= 0 && two.order >= 0
    ensures WriteLine(WriteTOCs(WriteLine(WriteSection(WriteLine(WriteVersion(g0, "v9.0.0")), "BrighterConfiguration")), [one, two], "9.0.0")).buffer
      == Unlines([] + ["## " + "v9.0.0", ""] + ["### " + "BrighterConfiguration", ""] + EntryLines([one, two], "9.0.0") + [""])
  {
    assert g0.buffer == Unlines([]);
    var g1 := WriteLine(WriteVersion(g0, "v9.0.0"));
    VersionBlockLines(g0, [], "v9.0.0");
    var p1 := [] + ["## " + "v9.0.0", ""];
    var g3a := WriteTOCs(WriteLine(WriteSection(g1, "BrighterConfiguration")), [one, two], "9.0.0");
    SectionBlockLines(g1, p1, "BrighterConfiguration", [one, two], "9.0.0");
    BlankLine(g3a, p1 + ["### " + "BrighterConfiguration", ""] + EntryLines([one, two], "9.0.0"));
  }

  /** The lines the generator test's calls write, before any literal is evaluated. */
  function TestLines(one: TOCEntry, two: TOCEntry, three: TOCEntry): seq<string>
    requires one.order >= 0 && two.order >= 0 && three.order >= 0
  {
    [] + ["## " + "v9.0.0", ""] + ["### " + "BrighterConfiguration", ""] + EntryLines([one, two], "9.0.0")
      + [""] + ["### " + "DarkerConfiguration", ""] + EntryLines([three], "10.0.0")
  }

  /** For the test's three entries, those lines are the ones the test expects. */
  lemma TestLinesExpected(one: TOCEntry, two: TOCEntry, three: TOCEntry)
    requires one == TOCEntry("DocumentOne", "DocumentOne.md", 1)
    requires two == TOCEntry("DocumentTwo", "DocumentTwo.md", 1)
    requires three == TOCEntry("DocumentThree", "DocumentThree.md", 1)
    ensures TestLines(one, two, three) == [
        "## v9.0.0",
        "",
        "### BrighterConfiguration",
        "",
        "  * " + Link("DocumentOne", "/contents/9.0.0/DocumentOne.md"),
        "  * " + Link("DocumentTwo", "/contents/9.0.0/DocumentTwo.md"),
        "",
        "### DarkerConfiguration",
        "",
        "  * " + Link("DocumentThree", "/contents/10.0.0/DocumentThree.md")]
  {
    TestLinesText(TestLines(one, two, three), one, two, three);
  }

  lemma TestLinesText(p4: seq<string>, one: TOCEntry, two: TOCEntry, three: TOCEntry)
    requires one == TOCEntry("DocumentOne", "DocumentOne.md", 1)
    requires two == TOCEntry("DocumentTwo", "DocumentTwo.md", 1)
    requires three == TOCEntry("DocumentThree", "DocumentThree.md", 1)
    requires p4 == [] + ["## " + "v9.0.0", ""] + ["### " + "BrighterConfiguration", ""] + EntryLines([one, two], "9.0.0")
      + [""] + ["### " + "DarkerConfiguration", ""] + EntryLines([three], "10.0.0")
    ensures p4 == [
        "## v9.0.0",
        "",
        "### BrighterConfiguration",
        "",
        "  * " + Link("DocumentOne", "/contents/9.0.0/DocumentOne.md"),
        "  * " + Link("DocumentTwo", "/contents/9.0.0/DocumentTwo.md"),
        "",
        "### DarkerConfiguration",
        "",
        "  * " + Link("DocumentThree", "/contents/10.0.0/DocumentThree.md")]
  {
    var a := "  * " + Link("DocumentOne", "/contents/9.0.0/DocumentOne.md");
    var b := "  * " + Link("DocumentTwo", "/contents/9.0.0/DocumentTwo.md");
    var c := "  * " + Link("DocumentThree", "/contents/10.0.0/DocumentThree.md");
    NineEntryLines(one, two);
    TenEntryLines(three);
    TestLayout(a, b, c);
  }

  lemma NineEntryLines(one: TOCEntry, two: TOCEntry)
    requires one == TOCEntry("DocumentOne", "DocumentOne.md", 1)
    requires two == TOCEntry("DocumentTwo", "DocumentTwo.md", 1)
    ensures EntryLines([one, two], "9.0.0") == [
      "  * " + Link("DocumentOne", "/contents/9.0.0/DocumentOne.md"),
      "  * " + Link("DocumentTwo", "/contents/9.0.0/DocumentTwo.md")]
  {
    DocumentOneLine(one);
    DocumentTwoLine(two);
    EntryLinesPair(one, two, "9.0.0");
  }

  lemma TenEntryLines(three: TOCEntry)
    requires three == TOCEntry("DocumentThree", "DocumentThree.md", 1)
    ensures EntryLines([three], "10.0.0") == ["  * " + Link("DocumentThree", "/contents/10.0.0/DocumentThree.md")]
  {
    DocumentThreeLine(three);
    EntryLinesSingle(three, "10.0.0");
  }

  lemma EntryLinesSingle(e: TOCEntry, version: string)
    requires e.order >= 0
    ensures EntryLines([e], version) == [EntryLine(e, version)]
  {
    assert [e][1..] == [];
  }

  lemma EntryLinesPair(one: TOCEntry, two: TOCEntry, version: string)
    requires one.order >= 0 && two.order >= 0
    ensures EntryLines([one, two], version) == [EntryLine(one, version), EntryLine(two, version)]
  {
    assert [one, two][1..] == [two];
    assert EntryLines([two], version) == [EntryLine(two, version)];
  }

  /** The headings and blank lines of the generator test around its three entry lines. */
  lemma TestLayout(a: string, b: string, c: string)
    ensures [] + ["## " + "v9.0.0", ""] + ["### " + "BrighterConfiguration", ""] + [a, b]
      + [""] + ["### " + "DarkerConfiguration", ""] + [c]
      == ["## v9.0.0", "", "### BrighterConfiguration", "", a, b, "", "### DarkerConfiguration", "", c]
  {
    assert "## " + "v9.0.0" == "## v9.0.0";
    assert "### " + "BrighterConfiguration" == "### BrighterConfiguration";
    assert "### " + "DarkerConfiguration" == "### DarkerConfiguration";
  }
}
