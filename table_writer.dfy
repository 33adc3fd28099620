/**
 * Rendering the merged entry list as the delimited table: the header row, one
 * row of cells per entry (a named string or a comment), and the escaping of
 * two invisible characters in every cell.
 */
module TableWriter {
  import opened Wrappers
  import opened Strings
  import opened Attrs
  import opened DefaultTable

  const NotTranslatableText: string := "not-translatable"
  const ZeroWidthSpace: char := '\U{200B}'
  const NonBreakingHyphen: char := '\U{2011}'
  const EscapedZeroWidthSpace: string := "\\u200b"
  const EscapedNonBreakingHyphen: string := "\\u2011"

  /** `escape_unicodes`: two chained `replace` calls. */
  function Escape(s: string): string {
    ReplaceChar(ReplaceChar(s, ZeroWidthSpace, EscapedZeroWidthSpace), NonBreakingHyphen, EscapedNonBreakingHyphen)
  }

  /** What one character turns into: the escape read character by character. */
  function EscapeChar(c: char): string {
    if c == ZeroWidthSpace then EscapedZeroWidthSpace
    else if c == NonBreakingHyphen then EscapedNonBreakingHyphen
    else [c]
  }

  function EscapeEach(s: string): string
    decreases |s|
  {
    if s == [] then [] else EscapeChar(s[0]) + EscapeEach(s[1..])
  }

  /** The chained replacements agree with the character-wise escape: every other character stays, in order. */
  lemma {:induction false} EscapeIsCharWise(s: string)
    ensures Escape(s) == EscapeEach(s)
    decreases |s|
  {
    if s != [] {
      EscapeIsCharWise(s[1..]);
      var first := ReplaceChar(s, ZeroWidthSpace, EscapedZeroWidthSpace);
      var head := if s[0] == ZeroWidthSpace then EscapedZeroWidthSpace else [s[0]];
      var tail := ReplaceChar(s[1..], ZeroWidthSpace, EscapedZeroWidthSpace);
      assert first == head + tail;
      ReplaceCharAppend(head, tail, NonBreakingHyphen, EscapedNonBreakingHyphen);
      if s[0] == ZeroWidthSpace {
        ReplaceCharAbsent(EscapedZeroWidthSpace, NonBreakingHyphen, EscapedNonBreakingHyphen);
      }
    }
  }

  /** No escaped text holds either invisible character. */
  lemma EscapeRemovesInvisibles(s: string)
    ensures ZeroWidthSpace !in Escape(s) && NonBreakingHyphen !in Escape(s)
  {
    var first := ReplaceChar(s, ZeroWidthSpace, EscapedZeroWidthSpace);
    ReplaceCharRemoves(s, ZeroWidthSpace, EscapedZeroWidthSpace, ZeroWidthSpace);
    ReplaceCharRemoves(first, NonBreakingHyphen, EscapedNonBreakingHyphen, ZeroWidthSpace);
    ReplaceCharRemoves(first, NonBreakingHyphen, EscapedNonBreakingHyphen, NonBreakingHyphen);
  }

  /** Text without the two characters passes through unchanged. */
  lemma EscapeKeepsPlainText(s: string)
    requires ZeroWidthSpace !in s && NonBreakingHyphen !in s
    ensures Escape(s) == s
  {
    ReplaceCharAbsent(s, ZeroWidthSpace, EscapedZeroWidthSpace);
    ReplaceCharAbsent(s, NonBreakingHyphen, EscapedNonBreakingHyphen);
  }

  /** Cells without the two invisible characters are written as they are. */
  lemma EscapeCellsPlain(cells: seq<string>)
    requires forall i :: 0 <= i < |cells| ==> ZeroWidthSpace !in cells[i] && NonBreakingHyphen !in cells[i]
    ensures EscapeCells(cells) == cells
  {
    forall i | 0 <= i < |cells| ensures Escape(cells[i]) == cells[i] {
      EscapeKeepsPlainText(cells[i]);
    }
  }

  lemma EscapeAppend(a: string, b: string)
    ensures Escape(a + b) == Escape(a) + Escape(b)
  {
    ReplaceCharAppend(a, b, ZeroWidthSpace, EscapedZeroWidthSpace);
    ReplaceCharAppend(ReplaceChar(a, ZeroWidthSpace, EscapedZeroWidthSpace),
      ReplaceChar(b, ZeroWidthSpace, EscapedZeroWidthSpace), NonBreakingHyphen, EscapedNonBreakingHyphen);
  }

  /** The escape is not one-to-one: the character and its escape sequence look alike in the table. */
  lemma EscapeNotInjective()
    ensures [ZeroWidthSpace] != EscapedZeroWidthSpace
    ensures Escape([ZeroWidthSpace]) == Escape(EscapedZeroWidthSpace)
  {
    assert |EscapedZeroWidthSpace| == 6;
    EscapeIsCharWise([ZeroWidthSpace]);
    assert EscapeEach([ZeroWidthSpace]) == EscapedZeroWidthSpace + EscapeEach([]);
    EscapeKeepsPlainText(EscapedZeroWidthSpace);
  }

  /** The writer handles nodes that carry a name or a comment. */
  predicate Describable(node: Node) {
    NameOf(node).Some? || Get(node, CommentKey).Some?
  }

  predicate NotTranslatable(node: Node) {
    Get(node, TranslatableKey) == Some("false")
  }

  /** The cell of one language column. */
  function LanguageCell(node: Node, lang: string): string {
    if NotTranslatable(node) then NotTranslatableText else GetOr(node, lang, "")
  }

  function LanguageCells(node: Node, langs: seq<string>): seq<string> {
    seq(|langs|, j requires 0 <= j < |langs| => LanguageCell(node, langs[j]))
  }

  /** Keys that never reach the extras cell. */
  function ExcludedKeys(langs: seq<string>): seq<string> {
    [NameKey, TextKey] + langs + [TranslatableKey]
  }

  /** The attributes whose key is not excluded, in the node's order. */
  function ExtraAttrs(node: Node, excluded: seq<string>): seq<Attr>
    decreases |node|
  {
    if node == [] then []
    else
      var last := node[|node| - 1];
      ExtraAttrs(node[..|node| - 1], excluded) + (if last.0 in excluded then [] else [last])
  }

  /** `k[1:]`: the key without its `@` marker. */
  function DropMarker(k: string): string {
    if k == [] then [] else k[1..]
  }

  function ExtraItem(a: Attr): string {
    DropMarker(a.0) + "=" + a.1
  }

  function ExtraItems(attrs: seq<Attr>): seq<string> {
    seq(|attrs|, i requires 0 <= i < |attrs| => ExtraItem(attrs[i]))
  }

  function ExtrasCell(node: Node, langs: seq<string>): string {
    Join(";", ExtraItems(ExtraAttrs(node, ExcludedKeys(langs))))
  }

  function CommentCell(comment: string): string {
    "\n%%" + comment + "%%"
  }

  /** The cells of one row. */
  function RowCells(node: Node, langs: seq<string>): seq<string>
    requires Describable(node)
  {
    match NameOf(node)
    case Some(name) => [name, GetOr(node, TextKey, "")] + LanguageCells(node, langs) + [ExtrasCell(node, langs)]
    case None => [CommentCell(Get(node, CommentKey).value)]
  }

  function EscapeCells(cells: seq<string>): seq<string> {
    seq(|cells|, i requires 0 <= i < |cells| => Escape(cells[i]))
  }

  /** One written row, without its trailing newline. */
  function RowLine(node: Node, langs: seq<string>, sep: char): string
    requires Describable(node)
  {
    Join([sep], EscapeCells(RowCells(node, langs)))
  }

  /** The header row, without its trailing newline. */
  function Header(langs: seq<string>, sep: char): string {
    Join([sep], ["key", "default"] + langs + ["extra_arguments"])
  }

  /** The attribute filter keeps the node's order: it distributes over concatenation. */
  lemma {:induction false} ExtraAttrsAppend(a: Node, b: Node, excluded: seq<string>)
    ensures ExtraAttrs(a + b, excluded) == ExtraAttrs(a, excluded) + ExtraAttrs(b, excluded)
    decreases |b|
  {
    if b == [] {
      assert a + b == a;
    } else {
      var b' := b[..|b| - 1];
      assert (a + b)[..|a + b| - 1] == a + b';
      ExtraAttrsAppend(a, b', excluded);
    }
  }

  /** The filter keeps exactly the attributes whose key is not excluded. */
  lemma {:induction false} ExtraAttrsMembers(node: Node, excluded: seq<string>)
    ensures forall a :: a in ExtraAttrs(node, excluded) <==> a in node && a.0 !in excluded
    decreases |node|
  {
    if node != [] {
      var prefix := node[..|node| - 1];
      ExtraAttrsMembers(prefix, excluded);
      assert node == prefix + [node[|node| - 1]];
    }
  }

  lemma JoinNonEmpty(sep: string, parts: seq<string>)
    requires parts != [] && parts[0] != []
    ensures Join(sep, parts) != []
  {
  }

  /** The extras cell is empty exactly when every attribute is excluded. */
  lemma ExtrasCellEmpty(node: Node, langs: seq<string>)
    ensures ExtrasCell(node, langs) == [] <==> forall a :: a in node ==> a.0 in ExcludedKeys(langs)
  {
    var attrs := ExtraAttrs(node, ExcludedKeys(langs));
    ExtraAttrsMembers(node, ExcludedKeys(langs));
    if attrs != [] {
      assert attrs[0] in attrs;
      assert '=' in ExtraItem(attrs[0]);
      JoinNonEmpty(";", ExtraItems(attrs));
    }
  }

  /** The cell of column `j + 2` of a named entry's row is its language cell. */
  lemma RowCellsLanguage(node: Node, langs: seq<string>, j: nat)
    requires NameOf(node).Some? && j < |langs|
    ensures |RowCells(node, langs)| == |langs| + 3
    ensures RowCells(node, langs)[j + 2] == LanguageCell(node, langs[j])
  {
    var front := [NameOf(node).value, GetOr(node, TextKey, "")];
    var cells := LanguageCells(node, langs);
    assert RowCells(node, langs) == front + cells + [ExtrasCell(node, langs)];
    assert (front + cells)[j + 2] == cells[j];
  }

  /**
   * A named row holds the name, the text (empty when absent), one cell per
   * language and the extras cell; a comment row holds the comment cell alone.
   */
  lemma RowCellsLayout(node: Node, langs: seq<string>)
    requires Describable(node)
    ensures var cells := RowCells(node, langs);
      NameOf(node).Some? ==>
        && |cells| == |langs| + 3
        && cells[0] == NameOf(node).value
        && cells[1] == GetOr(node, TextKey, "")
        && (forall j :: 0 <= j < |langs| ==> cells[j + 2] == LanguageCell(node, langs[j]))
        && cells[|langs| + 2] == ExtrasCell(node, langs)
    ensures NameOf(node).None? ==> RowCells(node, langs) == [CommentCell(Get(node, CommentKey).value)]
  {
    if NameOf(node).Some? {
      var front := [NameOf(node).value, GetOr(node, TextKey, "")];
      var middle := LanguageCells(node, langs);
      var cells := RowCells(node, langs);
      assert cells == front + middle + [ExtrasCell(node, langs)];
      forall j | 0 <= j < |langs| ensures cells[j + 2] == LanguageCell(node, langs[j]) {
        assert cells[j + 2] == middle[j];
      }
    }
  }

  /** `@translatable` never reaches the extras cell, whatever its value. */
  lemma ExtrasIgnoreTranslatable(node: Node, langs: seq<string>, v: string)
    ensures ExtrasCell(Set(node, TranslatableKey, v), langs) == ExtrasCell(node, langs)
  {
    var node' := Set(node, TranslatableKey, v);
    var ex := ExcludedKeys(langs);
    assert TranslatableKey in ex;
    if Get(node, TranslatableKey).None? {
      assert node' == node + [(TranslatableKey, v)];
      ExtraAttrsAppend(node, [(TranslatableKey, v)], ex);
      assert [(TranslatableKey, v)][..0] == [];
      assert ExtraAttrs([(TranslatableKey, v)], ex) == [];
    } else {
      assert forall i :: 0 <= i < |node| && node[i].0 !in ex ==> node[i].0 != TranslatableKey;
      SetKeepsOtherPairs(node, TranslatableKey, v);
      SetKeepsKeys(node, TranslatableKey, v);
      ExtraAttrsSameKeys(node, node', ex);
    }
    assert ExtraAttrs(node', ex) == ExtraAttrs(node, ex);
  }

  /**
   * The value of `@translatable` changes only the language cells: the key,
   * default and extras cells are the same whatever it is set to.
   */
  lemma TranslatableOnlyAffectsLanguageCells(node: Node, langs: seq<string>, v: string)
    requires NameOf(node).Some?
    ensures var before := RowCells(node, langs);
            var after := RowCells(Set(node, TranslatableKey, v), langs);
            && |before| == |after| == |langs| + 3
            && before[0] == after[0] && before[1] == after[1]
            && before[|langs| + 2] == after[|langs| + 2]
  {
    var node' := Set(node, TranslatableKey, v);
    ExtrasIgnoreTranslatable(node, langs, v);
    assert NameOf(node') == NameOf(node) && Get(node', TextKey) == Get(node, TextKey);
    RowCellsLayout(node, langs);
    RowCellsLayout(node', langs);
  }

  /** Rewriting the value of an excluded key does not change the extras. */
  lemma {:induction false} ExtraAttrsSameKeys(a: Node, b: Node, excluded: seq<string>)
    requires |a| == |b| && Keys(a) == Keys(b)
    requires forall i :: 0 <= i < |a| && a[i].0 !in excluded ==> a[i] == b[i]
    ensures ExtraAttrs(a, excluded) == ExtraAttrs(b, excluded)
    decreases |a|
  {
    if a != [] {
      var n := |a| - 1;
      assert Keys(a[..n]) == Keys(a)[..n] && Keys(b[..n]) == Keys(b)[..n];
      assert a[n].0 == Keys(a)[n] == Keys(b)[n] == b[n].0;
      ExtraAttrsSameKeys(a[..n], b[..n], excluded);
    }
  }

  /**
   * One iteration of the writer loop of `process_res_folder`, lines 57-70:
   * the cells of one entry before escaping.
   */
  method RenderEntry(node: Node, langs: seq<string>) returns (cells: seq<string>)
    requires Describable(node)
    ensures cells == RowCells(node, langs)
    ensures NameOf(node).Some? ==>
      && |cells| == |langs| + 3
      && cells[0] == NameOf(node).value
      && cells[1] == GetOr(node, TextKey, "")
      && (forall j :: 0 <= j < |langs| ==> cells[j + 2] == LanguageCell(node, langs[j]))
      && cells[|langs| + 2] == ExtrasCell(node, langs)
    ensures NameOf(node).None? ==> cells == [CommentCell(Get(node, CommentKey).value)]
  {
    var notTranslatable := Get(node, TranslatableKey) == Some("false");
    if NameOf(node).Some? {
      var keysInOrder := [NameKey, TextKey] + langs;
      var values := LookUpValues(node, keysInOrder);
      if notTranslatable {
        values := MarkNotTranslatable(values);
      }
      var extraData := CollectExtras(node, keysInOrder + [TranslatableKey]);
      var expected := [NameOf(node).value, GetOr(node, TextKey, "")] + LanguageCells(node, langs);
      assert |values| == |expected|;
      forall j | 0 <= j < |values| ensures values[j] == expected[j] {
        if j >= 2 {
          assert keysInOrder[j] == langs[j - 2] && expected[j] == LanguageCell(node, langs[j - 2]);
        }
      }
      assert values == expected;
      cells := values + [Join(";", extraData)];
    } else {
      cells := [CommentCell(Get(node, CommentKey).value)];
    }
    RowCellsLayout(node, langs);
  }

  /** Line 60: the value of each key in turn, the empty text for a key the node lacks. */
  method LookUpValues(node: Node, keys: seq<string>) returns (values: seq<string>)
    ensures |values| == |keys| && forall j :: 0 <= j < |keys| ==> values[j] == GetOr(node, keys[j], "")
  {
    values := [];
    for i := 0 to |keys|
      invariant |values| == i
      invariant forall j :: 0 <= j < i ==> values[j] == GetOr(node, keys[j], "")
    {
      values := values + [GetOr(node, keys[i], "")];
    }
  }

  /** Lines 61-63: every value after the name and the default text becomes the untranslatable marker. */
  method MarkNotTranslatable(values: seq<string>) returns (marked: seq<string>)
    requires |values| >= 2
    ensures |marked| == |values| && marked[0] == values[0] && marked[1] == values[1]
    ensures forall j :: 2 <= j < |values| ==> marked[j] == NotTranslatableText
  {
    marked := values;
    for i := 2 to |marked|
      invariant |marked| == |values| && marked[0] == values[0] && marked[1] == values[1]
      invariant forall j :: 2 <= j < i ==> marked[j] == NotTranslatableText
    {
      marked := marked[i := NotTranslatableText];
    }
  }

  /** Lines 64-67: one `name=value` item per attribute whose key is not excluded, in the node's order. */
  method CollectExtras(node: Node, excluded: seq<string>) returns (extraData: seq<string>)
    ensures extraData == ExtraItems(ExtraAttrs(node, excluded))
  {
    extraData := [];
    for i := 0 to |node|
      invariant extraData == ExtraItems(ExtraAttrs(node[..i], excluded))
    {
      assert node[..i + 1][..i] == node[..i];
      var (k, v) := node[i];
      if k !in excluded {
        extraData := extraData + [DropMarker(k) + "=" + v];
      }
    }
    assert node[..|node|] == node;
  }

  /**
   * Raised when the first entry has neither a name nor a comment: the row
   * variable of the writer loop is then still unbound.
   */
  datatype WriteError = UnboundRow

  /**
   * The rows written for `entries`. An entry with neither a name nor a comment
   * does not reassign the loop's row variable, so it repeats the row before
   * it; before any row exists that is an error.
   */
  function RowLines(entries: seq<Node>, langs: seq<string>, sep: char): (r: Result<seq<string>, WriteError>)
    ensures r.Ok? ==> |r.value| == |entries|
    decreases |entries|
  {
    if entries == [] then Ok([])
    else
      var prev := RowLines(entries[..|entries| - 1], langs, sep);
      var e := entries[|entries| - 1];
      if prev.Err? then prev
      else if Describable(e) then Ok(prev.value + [RowLine(e, langs, sep)])
      else if prev.value == [] then Err(UnboundRow)
      else Ok(prev.value + [prev.value[|prev.value| - 1]])
  }

  /**
   * One step of the writer loop: an entry with a name or a comment adds its
   * own row, any other entry repeats the last row.
   */
  lemma WriteStep(entries: seq<Node>, langs: seq<string>, sep: char, i: nat, rows: seq<string>, line: string)
    requires i < |entries| && RowLines(entries[..i], langs, sep) == Ok(rows)
    requires Describable(entries[i]) ==> line == RowLine(entries[i], langs, sep)
    requires !Describable(entries[i]) ==> rows != [] && line == rows[|rows| - 1]
    ensures RowLines(entries[..i + 1], langs, sep) == Ok(rows + [line])
  {
    assert entries[..i + 1][..i] == entries[..i];
  }

  /** The header followed by the rows: the lines of the table file. */
  function TableLines(entries: seq<Node>, langs: seq<string>, sep: char): Result<seq<string>, WriteError> {
    match RowLines(entries, langs, sep)
    case Ok(rows) => Ok([Header(langs, sep)] + rows)
    case Err(e) => Err(e)
  }

  /** Writing fails exactly when the first entry has neither a name nor a comment. */
  lemma {:induction false} RowLinesFails(entries: seq<Node>, langs: seq<string>, sep: char)
    ensures RowLines(entries, langs, sep).Err? <==> entries != [] && !Describable(entries[0])
    decreases |entries|
  {
    if |entries| > 1 {
      var prefix := entries[..|entries| - 1];
      RowLinesFails(prefix, langs, sep);
      assert prefix[0] == entries[0];
    }
  }

  /** Writing more entries only appends rows. */
  lemma {:induction false} RowLinesPrefix(entries: seq<Node>, langs: seq<string>, sep: char, n: nat)
    requires n <= |entries| && RowLines(entries, langs, sep).Ok?
    ensures RowLines(entries[..n], langs, sep).Ok?
    ensures RowLines(entries, langs, sep).value[..n] == RowLines(entries[..n], langs, sep).value
    decreases |entries|
  {
    if n < |entries| {
      var prefix := entries[..|entries| - 1];
      assert prefix[..n] == entries[..n];
      RowLinesPrefix(prefix, langs, sep, n);
    } else {
      assert entries[..n] == entries;
    }
  }

  /** A first entry with neither a name nor a comment makes the whole table fail. */
  lemma TableLinesUnbound(entries: seq<Node>, langs: seq<string>, sep: char)
    requires entries != [] && !Describable(entries[0])
    ensures TableLines(entries, langs, sep) == Err(UnboundRow)
  {
    RowLinesFails(entries, langs, sep);
    assert RowLines(entries, langs, sep).Err?;
    assert RowLines(entries, langs, sep).error == UnboundRow;
  }

  /**
   * Each entry with a name or a comment gets its own row; any other entry
   * repeats the row before it.
   */
  lemma RowLinesRows(entries: seq<Node>, langs: seq<string>, sep: char, i: nat)
    requires RowLines(entries, langs, sep).Ok? && i < |entries|
    ensures Describable(entries[i]) ==> RowLines(entries, langs, sep).value[i] == RowLine(entries[i], langs, sep)
    ensures !Describable(entries[i]) ==> 0 < i && RowLines(entries, langs, sep).value[i] == RowLines(entries, langs, sep).value[i - 1]
  {
    var upto := entries[..i + 1];
    RowLinesPrefix(entries, langs, sep, i + 1);
    var rows := RowLines(upto, langs, sep).value;
    assert upto[..i] == entries[..i] && upto[i] == entries[i];
    var prev := RowLines(entries[..i], langs, sep);
    assert RowLines(entries, langs, sep).value[i] == rows[i];
    if Describable(entries[i]) {
      assert rows == prev.value + [RowLine(entries[i], langs, sep)];
    } else {
      assert rows == prev.value + [prev.value[|prev.value| - 1]];
      RowLinesPrefix(upto, langs, sep, i);
      assert RowLines(entries, langs, sep).value[i - 1] == rows[i - 1];
    }
  }

  /** One row of the writer loop, its cells escaped and joined by the separator. */
  method WriteRow(node: Node, langs: seq<string>, sep: char) returns (line: string)
    requires Describable(node)
    ensures line == RowLine(node, langs, sep)
  {
    var cells := RenderEntry(node, langs);
    var escaped := seq(|cells|, j requires 0 <= j < |cells| => Escape(cells[j]));
    assert escaped == EscapeCells(RowCells(node, langs));
    line := Join([sep], escaped);
  }

  /**
   * The writing part of `process_res_folder`, lines 55-72: the header and one
   * line per entry; the file holds each of them followed by a newline.
   */
  method WriteTable(entries: seq<Node>, langs: seq<string>, sep: char) returns (r: Result<seq<string>, WriteError>)
    ensures r == TableLines(entries, langs, sep)
  {
    var rows: seq<string> := [];
    var last: Option<string> := None;
    assert RowLines(entries[..0], langs, sep) == Ok([]) by {
      assert entries[..0] == [];
    }
    for i := 0 to |entries|
      invariant RowLines(entries[..i], langs, sep) == Ok(rows)
      invariant last == if i == 0 then None else Some(rows[i - 1])
    {
      var line: string;
      if Describable(entries[i]) {
        line := WriteRow(entries[i], langs, sep);
      } else if last.None? {
        TableLinesUnbound(entries, langs, sep);
        return Err(UnboundRow);
      } else {
        line := last.value;
      }
      WriteStep(entries, langs, sep, i, rows, line);
      rows := rows + [line];
      last := Some(line);
    }
    assert entries[..|entries|] == entries;
    r := Ok([Header(langs, sep)] + rows);
  }
}
