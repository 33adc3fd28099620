/**
 * What survives a trip from the string nodes through the table and back into
 * `strings.xml` lines: the header's languages, comments, and the name, texts
 * and extra attributes of a string.
 */
module RoundTrip {
  import opened Wrappers
  import opened Strings
  import opened Attrs
  import opened DefaultTable
  import opened TableWriter
  import opened TableReader
  import opened XmlEmitter

  /** The content of a file written one line at a time, each line followed by a newline. */
  function TableText(lines: seq<string>): string {
    if lines == [] then [] else Join("\n", lines) + "\n"
  }

  /** The lines a reader sees in the written lines: a written line that holds newlines is several. */
  function Physical(lines: seq<string>): seq<string>
    decreases |lines|
  {
    if lines == [] then [] else Physical(lines[..|lines| - 1]) + Split(lines[|lines| - 1], '\n')
  }

  lemma {:induction false} PhysicalAppend(a: seq<string>, b: seq<string>)
    ensures Physical(a + b) == Physical(a) + Physical(b)
    decreases |b|
  {
    if b == [] {
      assert a + b == a;
    } else {
      var init, last := b[..|b| - 1], b[|b| - 1];
      assert (a + b)[..|a + b| - 1] == a + init;
      assert (a + b)[|a + b| - 1] == last;
      PhysicalAppend(a, init);
      calc {
        Physical(a + b);
        Physical(a + init) + Split(last, '\n');
        Physical(a) + Physical(init) + Split(last, '\n');
        Physical(a) + (Physical(init) + Split(last, '\n'));
        Physical(a) + Physical(b);
      }
    }
  }

  lemma {:induction false} SplitJoinedLines(lines: seq<string>)
    requires lines != []
    ensures Split(Join("\n", lines), '\n') == Physical(lines)
    decreases |lines|
  {
    var n := |lines| - 1;
    if n == 0 {
      assert Physical(lines) == Physical([]) + Split(lines[0], '\n');
    } else {
      var prefix := lines[..n];
      assert lines == prefix + [lines[n]];
      JoinSnoc("\n", prefix, lines[n]);
      assert Join("\n", lines) == Join("\n", prefix) + ['\n'] + lines[n];
      SplitConcat(Join("\n", prefix), lines[n], '\n');
      SplitJoinedLines(prefix);
    }
  }

  /** Reading back a written file gives its lines, each split at the newlines it holds. */
  lemma LinesOfTable(lines: seq<string>)
    ensures Lines(TableText(lines)) == Physical(lines)
  {
    if lines != [] {
      var j := Join("\n", lines);
      assert TableText(lines) == j + ['\n'] + [];
      SplitConcat(j, [], '\n');
      SplitJoinedLines(lines);
    }
  }

  /** The cells of the header row. */
  function HeaderCells(langs: seq<string>): (cells: seq<string>)
    ensures |cells| == |langs| + 3
  {
    ["key", "default"] + langs + ["extra_arguments"]
  }

  /** The header has no whitespace at its edges, so it is not blank and `strip` leaves it alone. */
  lemma HeaderStripped(langs: seq<string>, sep: char)
    ensures Strip(Header(langs, sep)) == Header(langs, sep)
    ensures !IsBlank(Header(langs, sep))
  {
    var cells := HeaderCells(langs);
    assert Header(langs, sep) == Join([sep], cells);
    JoinEdges([sep], cells);
    StripKeepsSpaceFreeEdges(Header(langs, sep));
    StripEmptyAllSpace(Header(langs, sep));
  }

  /** The separator may appear in no header cell. */
  predicate HeaderClean(langs: seq<string>, sep: char) {
    && sep !in "key" && sep !in "default" && sep !in "extra_arguments"
    && forall j :: 0 <= j < |langs| ==> sep !in langs[j]
  }

  /** Splitting the header at the separator recovers the languages it was written with. */
  lemma HeaderRoundTrip(langs: seq<string>, sep: char)
    requires HeaderClean(langs, sep)
    ensures HeaderLanguages(Header(langs, sep), sep) == langs
  {
    var cells := HeaderCells(langs);
    HeaderStripped(langs, sep);
    assert forall i :: 0 <= i < |cells| ==> sep !in cells[i] by {
      forall i | 0 <= i < |cells| ensures sep !in cells[i] {
        if 2 <= i < |cells| - 1 {
          assert cells[i] == langs[i - 2];
        }
      }
    }
    SplitJoin(cells, sep);
    assert Split(Strip(Header(langs, sep)), sep) == cells;
    var r := Slice(cells);
    if |langs| > 0 {
      assert forall j :: 0 <= j < |langs| ==> r[j] == langs[j];
    }
  }

  /**
   * Line 147 as written recovers the languages only when the separator is
   * whitespace and no language holds any.
   */
  lemma HeaderAsWrittenRoundTrip(langs: seq<string>, sep: char)
    requires IsSpace(sep)
    requires forall j :: 0 <= j < |langs| ==> langs[j] != [] && NoSpace(langs[j])
    ensures HeaderLanguagesAsWritten(Header(langs, sep)) == langs
  {
    var cells := HeaderCells(langs);
    HeaderStripped(langs, sep);
    assert forall i :: 0 <= i < |cells| ==> cells[i] != [] && NoSpace(cells[i]) by {
      forall i | 0 <= i < |cells| ensures cells[i] != [] && NoSpace(cells[i]) {
        if 2 <= i < |cells| - 1 {
          assert cells[i] == langs[i - 2];
        }
      }
    }
    SplitWhitespaceJoin(cells, sep);
    var r := Slice(cells);
    if |langs| > 0 {
      assert forall j :: 0 <= j < |langs| ==> r[j] == langs[j];
    }
  }

  /** With any other separator, line 147 as written finds no language at all. */
  lemma HeaderAsWrittenLosesLanguages(langs: seq<string>, sep: char)
    requires !IsSpace(sep)
    requires forall j :: 0 <= j < |langs| ==> NoSpace(langs[j])
    ensures HeaderLanguagesAsWritten(Header(langs, sep)) == []
  {
    var cells := HeaderCells(langs);
    forall i | 0 <= i < |cells| ensures NoSpace(cells[i]) {
      if 2 <= i < |cells| - 1 {
        assert cells[i] == langs[i - 2];
      }
    }
    JoinNoSpace(sep, cells);
    HeaderStripped(langs, sep);
    HeaderAsWrittenFindsNone(Header(langs, sep));
  }

  /**
   * Reading a written table as the code does finds its header on the first
   * line, takes the header's whitespace-separated words as its languages, and
   * reads the rows from the lines after it. Those are the written languages
   * for a whitespace separator, and none for any other.
   */
  lemma ReadWrittenTable(entries: seq<Node>, langs: seq<string>, sep: char)
    requires TableLines(entries, langs, sep).Ok?
    requires sep != '\n' && forall j :: 0 <= j < |langs| ==> '\n' !in langs[j]
    ensures var lines := TableLines(entries, langs, sep).value;
      var found := HeaderLanguagesAsWritten(Header(langs, sep));
      var rows := ReadRowsAsWritten(Physical(lines[1..]), found, sep);
      ReadAsWritten(TableText(lines), sep) == if rows.None? then Err(TooFewFields) else Ok((rows.value, found))
    ensures IsSpace(sep) && (forall j :: 0 <= j < |langs| ==> langs[j] != [] && NoSpace(langs[j])) ==>
      HeaderLanguagesAsWritten(Header(langs, sep)) == langs
    ensures !IsSpace(sep) && (forall j :: 0 <= j < |langs| ==> NoSpace(langs[j])) ==>
      HeaderLanguagesAsWritten(Header(langs, sep)) == []
  {
    var lines := TableLines(entries, langs, sep).value;
    WrittenLines(entries, langs, sep);
    var physical := Lines(TableText(lines));
    HeaderStripped(langs, sep);
    FirstNonBlank(physical, 0);
    assert physical[1..] == Physical(lines[1..]);
    if IsSpace(sep) && (forall j :: 0 <= j < |langs| ==> langs[j] != [] && NoSpace(langs[j])) {
      HeaderAsWrittenRoundTrip(langs, sep);
    }
    if !IsSpace(sep) && (forall j :: 0 <= j < |langs| ==> NoSpace(langs[j])) {
      HeaderAsWrittenLosesLanguages(langs, sep);
    }
  }

  /**
   * The corrected reading of a written table finds its header on the first
   * line, recovers the languages, and reads the rows from the lines after it.
   */
  lemma ReadWrittenTableCorrected(entries: seq<Node>, langs: seq<string>, sep: char)
    requires TableLines(entries, langs, sep).Ok?
    requires HeaderClean(langs, sep) && sep != '\n'
    requires forall j :: 0 <= j < |langs| ==> '\n' !in langs[j]
    ensures var lines := TableLines(entries, langs, sep).value;
      Read(TableText(lines), sep) == Ok((ReadRows(Physical(lines[1..]), langs, sep), langs))
  {
    var lines := TableLines(entries, langs, sep).value;
    WrittenLines(entries, langs, sep);
    var physical := Lines(TableText(lines));
    HeaderStripped(langs, sep);
    FirstNonBlank(physical, 0);
    assert physical[1..] == Physical(lines[1..]);
    HeaderRoundTrip(langs, sep);
  }

  /** The written table's text reads back as the header line followed by the rows' physical lines. */
  lemma WrittenLines(entries: seq<Node>, langs: seq<string>, sep: char)
    requires TableLines(entries, langs, sep).Ok?
    requires sep != '\n' && forall j :: 0 <= j < |langs| ==> '\n' !in langs[j]
    ensures var lines := TableLines(entries, langs, sep).value;
      Lines(TableText(lines)) == [Header(langs, sep)] + Physical(lines[1..])
  {
    var lines := TableLines(entries, langs, sep).value;
    var h := Header(langs, sep);
    assert lines == [h] + lines[1..];
    var cells := HeaderCells(langs);
    forall i | 0 <= i < |cells| ensures '\n' !in cells[i] {
      if 2 <= i < |cells| - 1 {
        assert cells[i] == langs[i - 2];
      }
    }
    assert h == Join([sep], cells);
    JoinedLinePhysical(cells, sep);
    LinesOfTable(lines);
    PhysicalAppend([h], lines[1..]);
  }

  /** Text the writer passes through unchanged and the reader splits nowhere. */
  predicate PlainCell(s: string, sep: char) {
    sep !in s && '\n' !in s && ZeroWidthSpace !in s && NonBreakingHyphen !in s
  }

  /** The node the comment pre-pass makes of `<!--c-->`. */
  function CommentNode(c: string): (node: Node)
    ensures Describable(node) && NameOf(node).None?
  {
    assert Get([(CommentKey, c)], CommentKey) == Some(c);
    assert CommentKey != NameKey by {
      assert CommentKey[1] != NameKey[1];
    }
    [(CommentKey, c)]
  }

  /** A comment row is written as a newline followed by the comment between `%%` marks. */
  lemma CommentRowLines(c: string, langs: seq<string>, sep: char)
    requires PlainCell(c, sep)
    ensures Physical([RowLine(CommentNode(c), langs, sep)]) == ["", "%%" + c + "%%"]
  {
    var cell := CommentCell(c);
    var body := "%%" + c + "%%";
    assert RowCells(CommentNode(c), langs) == [cell];
    EscapeKeepsPlainText(cell);
    assert EscapeCells([cell]) == [cell];
    assert RowLine(CommentNode(c), langs, sep) == cell;
    assert cell == [] + ['\n'] + body;
    SplitConcat([], body, '\n');
    SplitNoSeparator(body, '\n');
    assert Physical([cell]) == Physical([]) + Split(cell, '\n');
  }

  /** The two lines of a comment row are read as a blank record and the comment. */
  lemma CommentRowRead(c: string, langs: seq<string>, sep: char)
    requires c != [] && '%' !in c
    ensures ReadRowsAsWritten(["", "%%" + c + "%%"], langs, sep) == Some([Blank, Comment(c)])
    ensures ReadRows(["", "%%" + c + "%%"], langs, sep) == [Blank, Comment(c)]
  {
    var lines := ["", "%%" + c + "%%"];
    var rows := [Blank, Comment(c)];
    ParseLineBlank("", langs, sep);
    ParseCommentLine(c, langs, sep);
    forall i | 0 <= i < |lines|
      ensures ParseLineAsWritten(lines[i], langs, sep) == Some(rows[i])
      ensures ParseLine(lines[i], langs, sep) == rows[i]
    {
      if i == 0 {
        assert lines[i] == "" && rows[i] == Blank;
      } else {
        assert lines[i] == "%%" + c + "%%" && rows[i] == Comment(c);
      }
    }
    ReadRowsAsWrittenOf(lines, langs, sep, rows);
    ReadRowsOf(lines, langs, sep, rows);
  }

  /** Each file writes the blank record as an empty line and the comment as a comment line. */
  lemma CommentRowEmitted(c: string, lang: string)
    requires lang != "extras"
    ensures EmitRows([Blank, Comment(c)], lang) == Emitted(["", CommentLine(c)], [Blank, Comment(c)], None)
  {
    var rows := [Blank, Comment(c)];
    assert rows[..1] == [Blank] && [Blank][..0] == [];
    assert EmitRow(Blank, lang) == Step(Some(""), Blank, None);
    assert EmitRows([], lang) == Emitted([], [], None);
    assert EmitRows([Blank], lang) == Emitted([""], [Blank], None);
    assert EmitRow(Comment(c), lang) == Step(Some(CommentLine(c)), Comment(c), None);
  }

  /**
   * A comment survives the table and comes back as the same comment line
   * in every language's file, which the next forward run reads as the same
   * pseudo element. The row is read as a blank line followed by the comment,
   * so each file also gains an empty line before it.
   */
  lemma CommentRoundTrip(c: string, langs: seq<string>, sep: char, lang: string)
    requires c != [] && '%' !in c && PlainCell(c, sep) && lang != "extras"
    ensures Physical([RowLine(CommentNode(c), langs, sep)]) == ["", "%%" + c + "%%"]
    ensures ReadRowsAsWritten(["", "%%" + c + "%%"], langs, sep) == Some([Blank, Comment(c)])
    ensures EmitRows([Blank, Comment(c)], lang) == Emitted(["", CommentLine(c)], [Blank, Comment(c)], None)
    ensures IsIndentedComment(CommentLine(c))
    ensures RewriteCommentLine(CommentLine(c)) == "    <string comment=\"" + c + "\"/>"
  {
    CommentRowLines(c, langs, sep);
    CommentRowRead(c, langs, sep);
    CommentRowEmitted(c, lang);
    RewriteIndentedComment(c);
  }

  /** The attribute an extras item becomes in the default file. */
  function QuotedAttr(a: Attr): string {
    DropMarker(a.0) + "=\"" + a.1 + "\""
  }

  /** The attributes of a node that travel in the extras cell. */
  function Extras(node: Node, langs: seq<string>): seq<Attr> {
    ExtraAttrs(node, ExcludedKeys(langs))
  }

  /** The language columns may not take the place of the reader's own fields. */
  predicate LanguagesClean(langs: seq<string>) {
    && (forall j, k :: 0 <= j < k < |langs| ==> langs[j] != langs[k])
    && (forall j :: 0 <= j < |langs| ==> langs[j] !in ["key", "default", "translatable", "comment", "extras"])
  }

  /**
   * The conditions under which a row survives the table: a name that does
   * not start with whitespace or `%`, cells free of the separator, newlines
   * and the escaped characters, a row that does not end in whitespace (with
   * a whitespace separator such as the default tab, a row whose extras cell
   * is empty ends in the separator, which `strip` removes), and extras items
   * that the reader's `;` and `=` splits leave whole.
   */
  predicate CleanCells(node: Node, langs: seq<string>, sep: char) {
    && NameOf(node).Some? && NameOf(node).value != []
    && !IsSpace(NameOf(node).value[0]) && NameOf(node).value[0] != '%'
    && sep != '\n'
    && (forall i :: 0 <= i < |RowCells(node, langs)| ==> PlainCell(RowCells(node, langs)[i], sep))
    && (if ExtrasCell(node, langs) == [] then !IsSpace(sep) else !IsSpace(ExtrasCell(node, langs)[|ExtrasCell(node, langs)| - 1]))
    && ExtrasClean(node, langs)
  }

  /** A clean translatable string, whose first translation does not read as the untranslatable marker. */
  predicate CleanEntry(node: Node, langs: seq<string>, sep: char) {
    && CleanCells(node, langs, sep)
    && !NotTranslatable(node)
    && (langs != [] ==> LanguageCell(node, langs[0]) != NotTranslatableText)
  }

  /** The reader's `;` and `=` splits leave every extras item whole. */
  predicate ExtrasClean(node: Node, langs: seq<string>) {
    forall i :: 0 <= i < |Extras(node, langs)| ==>
      var a := Extras(node, langs)[i];
      ExtraSeparator !in ExtraItem(a) && ExtraAssign !in DropMarker(a.0) && ExtraAssign !in a.1
  }

  /**
   * Cells free of the separator and of newlines, the first starting with
   * neither whitespace nor `%` and the line ending in no whitespace, make one
   * physical line that `strip` leaves alone, that is no comment, and that
   * splits back into the cells.
   */
  lemma JoinedLine(cells: seq<string>, sep: char)
    requires sep != '\n' && |cells| >= 1
    requires forall i :: 0 <= i < |cells| ==> sep !in cells[i] && '\n' !in cells[i]
    requires cells[0] != [] && !IsSpace(cells[0][0]) && cells[0][0] != '%'
    requires var last := cells[|cells| - 1]; if last == [] then !IsSpace(sep) else !IsSpace(last[|last| - 1])
    ensures var line := Join([sep], cells);
      && Physical([line]) == [line]
      && Strip(line) == line
      && CommentMatch(line).None?
      && Split(line, sep) == cells
  {
    JoinedLineEdges(cells, sep);
    JoinedLinePhysical(cells, sep);
    SplitJoin(cells, sep);
  }

  /** Such a line starts with the first cell and ends without whitespace, so `strip` keeps it and it is no comment. */
  lemma JoinedLineEdges(cells: seq<string>, sep: char)
    requires |cells| >= 1
    requires cells[0] != [] && !IsSpace(cells[0][0]) && cells[0][0] != '%'
    requires var last := cells[|cells| - 1]; if last == [] then !IsSpace(sep) else !IsSpace(last[|last| - 1])
    ensures var line := Join([sep], cells);
      && Strip(line) == line
      && CommentMatch(line).None?
  {
    var line := Join([sep], cells);
    JoinFirst([sep], cells);
    var n := |cells| - 1;
    if cells[n] == [] {
      assert cells == cells[..n] + [cells[n]];
      JoinSnoc([sep], cells[..n], cells[n]);
      assert line[|line| - 1] == sep;
    } else {
      JoinLast([sep], cells);
    }
    StripKeepsSpaceFreeEdges(line);
    assert line[0] != '%';
  }

  /** Cells and a separator without newlines make a single physical line. */
  lemma JoinedLinePhysical(cells: seq<string>, sep: char)
    requires sep != '\n'
    requires forall i :: 0 <= i < |cells| ==> '\n' !in cells[i]
    ensures Physical([Join([sep], cells)]) == [Join([sep], cells)]
  {
    var line := Join([sep], cells);
    JoinAvoids(sep, cells, '\n');
    SplitNoSeparator(line, '\n');
    assert Physical([line]) == Physical([]) + Split(line, '\n');
  }

  /** A clean row is one physical line that splits back into its cells. */
  lemma EntryLineSplits(node: Node, langs: seq<string>, sep: char)
    requires CleanCells(node, langs, sep)
    ensures var line := RowLine(node, langs, sep);
      && Physical([line]) == [line]
      && Strip(line) == line
      && CommentMatch(line).None?
      && Split(line, sep) == RowCells(node, langs)
  {
    var cells := RowCells(node, langs);
    EscapeCellsPlain(cells);
    assert RowLine(node, langs, sep) == Join([sep], cells);
    assert cells[0] == NameOf(node).value && cells[|cells| - 1] == ExtrasCell(node, langs);
    JoinedLine(cells, sep);
  }

  /** The extras list the reader builds for a clean node: its attributes in quoted form. */
  function QuotedExtras(node: Node, langs: seq<string>): (quoted: seq<string>)
    ensures |quoted| == |Extras(node, langs)|
  {
    seq(|Extras(node, langs)|, i requires 0 <= i < |Extras(node, langs)| => QuotedAttr(Extras(node, langs)[i]))
  }

  /** The extras cell holds the node's extra attributes and reads back as their quoted forms. */
  lemma ExtrasRoundTrip(node: Node, langs: seq<string>, rest: seq<string>)
    requires ExtrasClean(node, langs)
    requires |rest| == |langs| + 1 && rest[|langs|] == ExtrasCell(node, langs)
    ensures RequoteAll(ExtraCells(rest, langs)) == QuotedExtras(node, langs)
  {
    var attrs := Extras(node, langs);
    var items := ExtraItems(attrs);
    assert ";" == [ExtraSeparator];
    if items == [] {
      assert ExtrasCell(node, langs) == [];
    } else {
      assert items[0] == DropMarker(attrs[0].0) + "=" + attrs[0].1;
      JoinNonEmpty(";", items);
      assert ExtraCells(rest, langs) == Split(Join([ExtraSeparator], items), ExtraSeparator);
      SplitJoin(items, ExtraSeparator);
      forall i | 0 <= i < |items| ensures Requote(items[i]) == QuotedAttr(attrs[i]) {
        RequoteItem(DropMarker(attrs[i].0), attrs[i].1);
      }
    }
  }

  /** The extras cell is empty exactly when the node has no extra attribute. */
  lemma ExtrasCellEmptyIff(node: Node, langs: seq<string>)
    ensures ExtrasCell(node, langs) == [] <==> Extras(node, langs) == []
  {
    var attrs := Extras(node, langs);
    var items := ExtraItems(attrs);
    if items != [] {
      assert items[0] == DropMarker(attrs[0].0) + "=" + attrs[0].1;
      JoinNonEmpty(";", items);
    }
  }

  /**
   * The extras list the code as written builds from a clean row's extras
   * cell: the quoted attributes, or the lone item `"` when the node has none.
   */
  function ExtrasRead(node: Node, langs: seq<string>): (extras: seq<string>)
    ensures Extras(node, langs) == [] ==> extras == ["\""]
    ensures Extras(node, langs) != [] ==> extras == QuotedExtras(node, langs)
  {
    ExtrasCellEmptyIff(node, langs);
    if ExtrasCell(node, langs) == [] then ["\""] else QuotedExtras(node, langs)
  }

  /** As written, the extras cell reads back as the quoted attributes, or as `"` when it is empty. */
  lemma ExtrasRoundTripAsWritten(node: Node, langs: seq<string>, rest: seq<string>)
    requires ExtrasClean(node, langs)
    requires |rest| == |langs| + 1 && rest[|langs|] == ExtrasCell(node, langs)
    ensures RequoteAll(ExtraCellsAsWritten(rest, langs)) == ExtrasRead(node, langs)
  {
    assert Min(|langs|, |rest|) < |rest|;
    if ExtrasCell(node, langs) == [] {
      assert ExtraCellsAsWritten(rest, langs) == [""];
      RequoteEmpty();
    } else {
      ExtrasRoundTrip(node, langs, rest);
      assert ExtraCellsAsWritten(rest, langs) == ExtraCells(rest, langs);
    }
  }

  /** The name of a node the writer describes by name. */
  function Name(node: Node): string
    requires NameOf(node).Some?
  {
    NameOf(node).value
  }

  /** The fields the reader builds for a clean translatable node. */
  function EntryFields(node: Node, langs: seq<string>): map<string, string>
    requires NameOf(node).Some?
  {
    ZipInto(map["key" := Name(node), "default" := GetOr(node, TextKey, "")], langs, LanguageCells(node, langs))
  }

  /** The record built from the cells after the key and default text of a clean translatable row. */
  lemma MakeCleanEntry(node: Node, langs: seq<string>, sep: char, rest: seq<string>)
    requires CleanEntry(node, langs, sep)
    requires rest == LanguageCells(node, langs) + [ExtrasCell(node, langs)]
    ensures MakeEntry(Name(node), GetOr(node, TextKey, ""), rest, langs, ExtraCellsAsWritten(rest, langs)) ==
      Entry(EntryFields(node, langs), ExtrasRead(node, langs))
  {
    assert Min(|langs|, |rest|) == |langs|;
    assert rest[..|langs|] == LanguageCells(node, langs);
    ExtrasRoundTripAsWritten(node, langs, rest);
  }

  /**
   * A clean translatable row is read back as the record of its name and
   * texts, with its quoted extras, or the stray item `"` when it has none.
   */
  lemma EntryParses(node: Node, langs: seq<string>, sep: char)
    requires CleanEntry(node, langs, sep)
    ensures ParseLineAsWritten(RowLine(node, langs, sep), langs, sep) == Some(Entry(EntryFields(node, langs), ExtrasRead(node, langs)))
  {
    CleanRowParses(node, langs, sep);
    MakeCleanEntry(node, langs, sep, LanguageCells(node, langs) + [ExtrasCell(node, langs)]);
  }

  /** The fields of a clean record: the key, the default text and one text per language, nothing else. */
  lemma EntryFieldsContent(node: Node, langs: seq<string>)
    requires NameOf(node).Some? && LanguagesClean(langs)
    ensures var fields := EntryFields(node, langs);
      && fields.Keys == {"key", "default"} + (set j | 0 <= j < |langs| :: langs[j])
      && fields["key"] == Name(node)
      && fields["default"] == GetOr(node, TextKey, "")
      && forall j :: 0 <= j < |langs| ==> fields[langs[j]] == LanguageCell(node, langs[j])
  {
    var values := LanguageCells(node, langs);
    ZipIntoValues(map["key" := Name(node), "default" := GetOr(node, TextKey, "")], langs, values);
    assert "key" !in langs && "default" !in langs by {
      forall j | 0 <= j < |langs| ensures langs[j] != "key" && langs[j] != "default" {
        assert langs[j] !in ["key", "default", "translatable", "comment", "extras"];
      }
    }
    forall j | 0 <= j < |langs| ensures langs[j] !in langs[j + 1..] {
      forall k | j + 1 <= k < |langs| ensures langs[k] != langs[j] {
      }
    }
    assert (set i | 0 <= i < |langs| && i < |values| :: langs[i]) == set j | 0 <= j < |langs| :: langs[j];
  }

  /** No reserved name is a key of a clean record. */
  lemma EntryFieldsReserved(node: Node, langs: seq<string>)
    requires NameOf(node).Some? && LanguagesClean(langs)
    ensures var fields := EntryFields(node, langs);
      "translatable" !in fields && "comment" !in fields && "extras" !in fields
      && "key" in fields && "default" in fields
  {
    var fields := EntryFields(node, langs);
    EntryFieldsContent(node, langs);
    forall k | k in ["translatable", "comment", "extras"] ensures k !in fields {
      forall i | 0 <= i < |langs| ensures langs[i] != k {
        assert langs[i] !in ["key", "default", "translatable", "comment", "extras"];
      }
    }
  }

  /**
   * The record of a clean translatable node is written to the default file,
   * with whatever extras list it carries, when it has a default text.
   */
  lemma EntryEmittedDefault(node: Node, extras: seq<string>, langs: seq<string>)
    requires NameOf(node).Some? && LanguagesClean(langs)
    ensures var row := Entry(EntryFields(node, langs), extras);
      var text := GetOr(node, TextKey, "");
      EmitRow(row, DefaultLanguage) ==
        Step(if text == "" then None else Some(StringLine(Name(node), ExtraString(extras, true), text)), row, None)
  {
    EntryFieldsContent(node, langs);
    EntryFieldsReserved(node, langs);
  }

  /**
   * The record of a clean translatable node is written to a language's file,
   * with the name only, when it has a text in that language.
   */
  lemma EntryEmittedLanguage(node: Node, extras: seq<string>, langs: seq<string>, j: nat)
    requires NameOf(node).Some? && LanguagesClean(langs) && j < |langs|
    ensures var row := Entry(EntryFields(node, langs), extras);
      var cell := LanguageCell(node, langs[j]);
      EmitRow(row, langs[j]) == Step(if cell == "" then None else Some(StringLine(Name(node), "", cell)), row, None)
  {
    var fields := EntryFields(node, langs);
    EntryFieldsContent(node, langs);
    EntryFieldsReserved(node, langs);
    assert langs[j] !in ["key", "default", "translatable", "comment", "extras"];
    assert langs[j] != DefaultLanguage;
    assert langs[j] in fields && fields[langs[j]] == LanguageCell(node, langs[j]);
    assert "comment" !in fields && "translatable" !in fields && "extras" !in fields;
    assert ExtraString(extras, false) == "";
  }

  /**
   * A clean translatable string through the whole trip: its row is one line
   * of the table, the code reads the line back as its record, and the record
   * gives the default file the name, the extras the code read and the
   * default text, and each language's file the name and that language's
   * text. The extras are the node's own attributes when it has any; a node
   * without any comes back with the stray attribute `"`.
   */
  lemma EntryRoundTrip(node: Node, langs: seq<string>, sep: char)
    requires CleanEntry(node, langs, sep) && LanguagesClean(langs)
    ensures var line := RowLine(node, langs, sep);
      && Physical([line]) == [line]
      && ParseLineAsWritten(line, langs, sep) == Some(Entry(EntryFields(node, langs), ExtrasRead(node, langs)))
    ensures var row := Entry(EntryFields(node, langs), ExtrasRead(node, langs));
      var text := GetOr(node, TextKey, "");
      EmitRow(row, DefaultLanguage).line ==
        if text == "" then None else Some(StringLine(Name(node), ExtraString(ExtrasRead(node, langs), true), text))
    ensures var row := Entry(EntryFields(node, langs), ExtrasRead(node, langs));
      forall j :: 0 <= j < |langs| ==>
        EmitRow(row, langs[j]).line ==
          if GetOr(node, langs[j], "") == "" then None else Some(StringLine(Name(node), "", GetOr(node, langs[j], "")))
  {
    EntryLineSplits(node, langs, sep);
    EntryParses(node, langs, sep);
    EntryEmittedDefault(node, ExtrasRead(node, langs), langs);
    forall j | 0 <= j < |langs|
      ensures var row := Entry(EntryFields(node, langs), ExtrasRead(node, langs));
        EmitRow(row, langs[j]).line ==
          if GetOr(node, langs[j], "") == "" then None else Some(StringLine(Name(node), "", GetOr(node, langs[j], "")))
    {
      EntryEmittedLanguage(node, ExtrasRead(node, langs), langs, j);
      assert LanguageCell(node, langs[j]) == GetOr(node, langs[j], "");
    }
  }

  /** The fields the reader builds for a clean untranslatable node. */
  function UntranslatableFields(node: Node): map<string, string>
    requires NameOf(node).Some?
  {
    map["key" := Name(node), "default" := GetOr(node, TextKey, ""), "translatable" := "false"]
  }

  /** The record the code as written reads back from the cells of a clean row, whichever way it is marked. */
  lemma {:induction false} CleanRowParses(node: Node, langs: seq<string>, sep: char)
    requires CleanCells(node, langs, sep)
    ensures var rest := LanguageCells(node, langs) + [ExtrasCell(node, langs)];
      ParseLineAsWritten(RowLine(node, langs, sep), langs, sep) ==
        Some(MakeEntry(Name(node), GetOr(node, TextKey, ""), rest, langs, ExtraCellsAsWritten(rest, langs)))
  {
    var line := RowLine(node, langs, sep);
    var cells := RowCells(node, langs);
    EntryLineSplits(node, langs, sep);
    assert Split(Strip(line), sep) == cells && |cells| >= 3;
    var rest := LanguageCells(node, langs) + [ExtrasCell(node, langs)];
    var head := [Name(node), GetOr(node, TextKey, "")];
    assert cells == head + rest;
    assert cells[2..] == rest;
  }

  /** Through a table with at least one language, an untranslatable row is read back with its marker. */
  lemma UntranslatableParses(node: Node, langs: seq<string>, sep: char)
    requires CleanCells(node, langs, sep) && NotTranslatable(node) && langs != []
    ensures ParseLineAsWritten(RowLine(node, langs, sep), langs, sep) == Some(Entry(UntranslatableFields(node), ExtrasRead(node, langs)))
  {
    var rest := LanguageCells(node, langs) + [ExtrasCell(node, langs)];
    CleanRowParses(node, langs, sep);
    assert Min(|langs|, |rest|) == |langs|;
    assert rest[..|langs|][0] == NotTranslatableText;
    ExtrasRoundTripAsWritten(node, langs, rest);
  }

  /**
   * The default file writes an untranslatable record with `translatable="false"`
   * after its extra attributes, and keeps the extended list in the record; no
   * language's file writes it.
   */
  lemma UntranslatableEmitted(node: Node, extras: seq<string>, langs: seq<string>)
    requires NameOf(node).Some? && LanguagesClean(langs)
    ensures var row := Entry(UntranslatableFields(node), extras);
      var text := GetOr(node, TextKey, "");
      var items := extras + ["translatable=\"false\""];
      EmitRow(row, DefaultLanguage) ==
        if text == "" then Step(None, row, None)
        else Step(Some("    <string name=\"" + Name(node) + "\" " + Join(" ", items) + ">" + text + "</string>"), Entry(row.fields, items), None)
    ensures var row := Entry(UntranslatableFields(node), extras);
      forall j :: 0 <= j < |langs| ==> EmitRow(row, langs[j]) == Step(None, row, None)
  {
    UntranslatableEmittedDefault(node, extras);
    var row := Entry(UntranslatableFields(node), extras);
    forall j | 0 <= j < |langs| ensures EmitRow(row, langs[j]) == Step(None, row, None) {
      UntranslatableSkipped(node, extras, langs[j]);
    }
  }

  /** The default file's call on an untranslatable record. */
  lemma UntranslatableEmittedDefault(node: Node, extras: seq<string>)
    requires NameOf(node).Some?
    ensures var row := Entry(UntranslatableFields(node), extras);
      var text := GetOr(node, TextKey, "");
      var items := extras + ["translatable=\"false\""];
      EmitRow(row, DefaultLanguage) ==
        if text == "" then Step(None, row, None)
        else Step(Some("    <string name=\"" + Name(node) + "\" " + Join(" ", items) + ">" + text + "</string>"), Entry(row.fields, items), None)
  {
    var fields := UntranslatableFields(node);
    assert "comment" !in fields && "extras" !in fields && fields[DefaultLanguage] == GetOr(node, TextKey, "");
    if GetOr(node, TextKey, "") != "" {
      EmitDefaultUntranslatable(fields, extras);
      assert "translatable=\"" + fields["translatable"] + "\"" == "translatable=\"false\"";
      assert fields["key"] == Name(node);
    } else {
      assert EmitRow(Entry(fields, extras), DefaultLanguage) == Step(None, Entry(fields, extras), None);
    }
  }

  /** Another language's call skips an untranslatable record. */
  lemma UntranslatableSkipped(node: Node, extras: seq<string>, lang: string)
    requires NameOf(node).Some? && lang !in ["key", "default", "translatable", "comment", "extras"]
    ensures var row := Entry(UntranslatableFields(node), extras);
      EmitRow(row, lang) == Step(None, row, None)
  {
    assert UntranslatableFields(node).Keys == {"key", "default", "translatable"};
  }

  /**
   * An untranslatable string keeps its marker through a table with at least
   * one language, and comes back in the default file only.
   */
  lemma UntranslatableRoundTrip(node: Node, langs: seq<string>, sep: char)
    requires CleanCells(node, langs, sep) && NotTranslatable(node) && langs != [] && LanguagesClean(langs)
    ensures ParseLineAsWritten(RowLine(node, langs, sep), langs, sep) == Some(Entry(UntranslatableFields(node), ExtrasRead(node, langs)))
    ensures var row := Entry(UntranslatableFields(node), ExtrasRead(node, langs));
      var text := GetOr(node, TextKey, "");
      var items := ExtrasRead(node, langs) + ["translatable=\"false\""];
      EmitRow(row, DefaultLanguage).line ==
        if text == "" then None else Some("    <string name=\"" + Name(node) + "\" " + Join(" ", items) + ">" + text + "</string>")
    ensures var row := Entry(UntranslatableFields(node), ExtrasRead(node, langs));
      forall j :: 0 <= j < |langs| ==> EmitRow(row, langs[j]).line.None?
  {
    UntranslatableParses(node, langs, sep);
    UntranslatableEmitted(node, ExtrasRead(node, langs), langs);
  }

  /** Through a table without languages, the untranslatable marker is lost. */
  lemma UntranslatableNeedsALanguage(node: Node, sep: char)
    requires CleanCells(node, [], sep) && NotTranslatable(node)
    ensures ParseLineAsWritten(RowLine(node, [], sep), [], sep) ==
      Some(Entry(map["key" := Name(node), "default" := GetOr(node, TextKey, "")], ExtrasRead(node, [])))
  {
    var rest := LanguageCells(node, []) + [ExtrasCell(node, [])];
    CleanRowParses(node, [], sep);
    ExtrasRoundTripAsWritten(node, [], rest);
  }

  /**
   * A line without the separator that is neither blank nor a comment is
   * read as a key with empty texts, where the code as written fails.
   */
  lemma KeyOnlyLine(line: string, langs: seq<string>, sep: char)
    requires !IsBlank(line) && CommentMatch(Strip(line)).None? && sep !in Strip(line)
    ensures ParseLine(line, langs, sep) == MakeEntry(Strip(line), "", [], langs, [])
    ensures ParseLineAsWritten(line, langs, sep) == None
  {
    SplitNoSeparator(Strip(line), sep);
    ParseLineBlank(line, langs, sep);
    ParseLineAsWrittenFails(line, langs, sep);
  }

  /** A string with a name and nothing else is written with tabs and no language as `k\t\t`. */
  lemma KeyOnlyRowWritten()
    ensures RowLine([(NameKey, "k")], [], '\t') == "k\t\t"
  {
    KeyOnlyRowCells();
    EscapeCellsPlain(["k", "", ""]);
    var cells := ["k", "", ""];
    assert cells[1..] == ["", ""] && cells[1..][1..] == [""];
    assert Join(['\t'], [""]) == "";
    assert Join(['\t'], ["", ""]) == "\t";
  }

  /** A string with a name and nothing else has the cells `k`, an empty text and an empty extras cell. */
  lemma KeyOnlyRowCells()
    ensures RowCells([(NameKey, "k")], []) == ["k", "", ""]
  {
    var node := [(NameKey, "k")];
    assert NameOf(node) == Some("k");
    assert Get(node, TextKey).None?;
    assert ExtraAttrs(node, ExcludedKeys([])) == [] by {
      assert node[..0] == [];
    }
  }

  /**
   * A string with a name and nothing else, written with the default tab
   * separator and no language: `strip` removes the trailing tabs, and the
   * code as written fails on the line.
   */
  lemma KeyOnlyRowAsWritten()
    ensures RowLine([(NameKey, "k")], [], '\t') == "k\t\t"
    ensures ParseLineAsWritten("k\t\t", [], '\t') == None
    ensures ParseLine("k\t\t", [], '\t') == Entry(map["key" := "k", "default" := ""], [])
  {
    KeyOnlyRowWritten();
    KeyOnlyRowRead();
  }

  /** `k\t\t` read back: the code as written fails, the corrected reading gives the key with an empty text. */
  lemma KeyOnlyRowRead()
    ensures ParseLineAsWritten("k\t\t", [], '\t') == None
    ensures ParseLine("k\t\t", [], '\t') == Entry(map["key" := "k", "default" := ""], [])
  {
    KeyOnlyRowStrips();
    KeyOnlyLine("k\t\t", [], '\t');
  }

  /** `strip` leaves `k` of `k\t\t`. */
  lemma KeyOnlyRowStrips()
    ensures Strip("k\t\t") == "k" && !IsBlank("k\t\t")
    ensures CommentMatch("k").None? && '\t' !in "k"
  {
    var line := "k\t\t";
    assert !IsSpace('k') && IsSpace('\t');
    assert TrimStart(line) == line;
    assert line[..2] == "k\t" && line[..2][..1] == "k";
    assert TrimEnd("k") == "k";
    assert TrimEnd("k\t") == "k";
    assert TrimEnd(line) == "k";
  }

  /** A plain string `k` with the text `v` has the cells `k`, `v` and an empty extras cell. */
  lemma PlainRowCells()
    ensures RowCells([(NameKey, "k"), (TextKey, "v")], []) == ["k", "v", ""]
  {
    var node := [(NameKey, "k"), (TextKey, "v")];
    assert NameOf(node) == Some("k");
    assert Get(node, TextKey) == Some("v");
    assert ExtraAttrs(node, ExcludedKeys([])) == [] by {
      var excluded := ExcludedKeys([]);
      assert excluded[0] == NameKey && excluded[1] == TextKey;
      assert node[..1] == [(NameKey, "k")];
      assert node[..1][..0] == [];
      assert ExtraAttrs(node[..1], excluded) == [];
    }
  }

  /** A plain string `k` with the text `v` is written with a comma as `k,v,`. */
  lemma PlainRowWritten()
    ensures RowLine([(NameKey, "k"), (TextKey, "v")], [], ',') == "k,v,"
  {
    PlainRowCells();
    EscapeCellsPlain(["k", "v", ""]);
    PlainJoin();
  }

  /** The cells `k`, `v` and an empty one joined with commas. */
  lemma PlainJoin()
    ensures Join([','], ["k", "v", ""]) == "k,v,"
  {
    var cells := ["k", "v", ""];
    assert cells[1..] == ["v", ""] && cells[1..][1..] == [""];
    assert Join([','], [""]) == "";
    assert Join([','], ["v", ""]) == "v,";
  }

  /** The line `k,v,` splits into the key, the text and an empty extras cell. */
  lemma PlainRowSplits()
    ensures Strip("k,v,") == "k,v," && CommentMatch("k,v,").None?
    ensures Split("k,v,", ',') == ["k", "v", ""]
  {
    StripKeepsSpaceFreeEdges("k,v,");
    PlainJoin();
    SplitJoin(["k", "v", ""], ',');
  }

  /** An empty extras item is requoted into a lone quote. */
  lemma RequoteEmpty()
    ensures Requote("") == "\""
  {
    assert Split("", ExtraAssign) == [[]];
    assert Join("=\"", [[]]) == [];
  }

  /** The record of `k,v,` is written to the default file with whatever extras it holds. */
  lemma PlainEntryEmitted(extras: seq<string>)
    ensures EmitRow(Entry(map["key" := "k", "default" := "v"], extras), DefaultLanguage).line ==
      Some(StringLine("k", ExtraString(extras, true), "v"))
  {
    var fields := map["key" := "k", "default" := "v"];
    assert fields.Keys == {"key", "default"};
    assert "comment" !in fields && "translatable" !in fields && "extras" !in fields;
    assert fields[DefaultLanguage] == "v" && fields["key"] == "k";
  }

  /**
   * A plain string written with a comma: its empty extras cell is read as
   * one item by the code as written, which writes a stray quote into the
   * element; the reading where an empty cell holds no item writes the
   * element as it was.
   */
  lemma EmptyExtrasAsWritten()
    ensures RowLine([(NameKey, "k"), (TextKey, "v")], [], ',') == "k,v,"
    ensures ParseLineAsWritten("k,v,", [], ',') == Some(Entry(map["key" := "k", "default" := "v"], ["\""]))
    ensures EmitRow(Entry(map["key" := "k", "default" := "v"], ["\""]), DefaultLanguage).line ==
      Some(StringLine("k", " \"", "v"))
    ensures ParseLine("k,v,", [], ',') == Entry(map["key" := "k", "default" := "v"], [])
    ensures EmitRow(Entry(map["key" := "k", "default" := "v"], []), DefaultLanguage).line ==
      Some(StringLine("k", "", "v"))
  {
    assert EmitRow(Entry(map["key" := "k", "default" := "v"], ["\""]), DefaultLanguage).line ==
      Some(StringLine("k", " \"", "v")) by {
      PlainEntryEmitted(["\""]);
      assert ExtraString(["\""], true) == " \"";
    }
    assert EmitRow(Entry(map["key" := "k", "default" := "v"], []), DefaultLanguage).line ==
      Some(StringLine("k", "", "v")) by {
      PlainEntryEmitted([]);
      assert ExtraString([], true) == "";
    }
    PlainRowWritten();
    PlainLineAsWritten();
    PlainLineCorrected();
  }

  /** The code as written reads `k,v,` with one extras item, the lone quote. */
  lemma PlainLineAsWritten()
    ensures ParseLineAsWritten("k,v,", [], ',') == Some(Entry(map["key" := "k", "default" := "v"], ["\""]))
  {
    assert Split("k,v,", ',')[2..] == [""] by {
      PlainRowSplits();
    }
    assert ExtraCellsAsWritten([""], []) == [""];
    assert RequoteAll([""]) == ["\""] by {
      RequoteEmpty();
    }
    PlainRowSplits();
  }

  /** The corrected reading reads `k,v,` with no extras item. */
  lemma PlainLineCorrected()
    ensures ParseLine("k,v,", [], ',') == Entry(map["key" := "k", "default" := "v"], [])
  {
    assert Split("k,v,", ',')[2..] == [""] by {
      PlainRowSplits();
    }
    assert ExtraCells([""], []) == [];
    PlainRowSplits();
  }
}
