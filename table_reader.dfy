/**
 * `get_string_dicts_from_csv`: reading the delimited table back into one
 * record per line. A record is the Python dict of the source: empty for a
 * blank line, `{"comment": c}` for a comment line, and for a string line the
 * string fields (`key`, `default`, maybe `translatable`, one per language)
 * next to the `extras` list.
 */
module TableReader {
  import opened Wrappers
  import opened Strings
  import opened TableWriter

  /** The records of the reader; an entry's `fields` are the dict's string-valued items. */
  datatype Row =
    | Blank
    | Comment(text: string)
    | Entry(fields: map<string, string>, extras: seq<string>)

  /**
   * Why reading stops: no header line before the end of the file, or the
   * `ValueError` the tuple unpacking of line 158 raises on a line with a
   * single field.
   */
  datatype ReadError = NoHeader | TooFewFields

  const ExtraSeparator: char := ';'
  const ExtraAssign: char := '='

  /**
   * The lines `readline` and `readlines` hand out, without their line
   * terminators: the text split at each newline, where a final newline does
   * not open another line.
   */
  function Lines(text: string): (lines: seq<string>)
    ensures forall i :: 0 <= i < |lines| ==> '\n' !in lines[i]
  {
    var parts := Split(text, '\n');
    SplitFieldsLackSeparator(text, '\n');
    if parts[|parts| - 1] == [] then parts[..|parts| - 1] else parts
  }

  /** `line.strip() == ""`. */
  predicate IsBlank(line: string) {
    AllSpace(line)
  }

  /** The position of the first line that is not blank: the header. */
  function FindHeader(lines: seq<string>): (h: Option<nat>)
    ensures h.Some? ==> h.value < |lines| && !IsBlank(lines[h.value])
    ensures h.Some? ==> forall i :: 0 <= i < h.value ==> IsBlank(lines[i])
    ensures h.None? <==> forall i :: 0 <= i < |lines| ==> IsBlank(lines[i])
    decreases |lines|
  {
    if lines == [] then None
    else if !IsBlank(lines[0]) then Some(0)
    else match FindHeader(lines[1..])
      case Some(h) => Some(h + 1)
      case None => None
  }

  /** `readline` after `i` earlier calls: the `i`-th line, or "" once the file is exhausted. */
  function ReadLineAt(lines: seq<string>, i: nat): string {
    if i < |lines| then lines[i] else ""
  }

  /**
   * The header search of lines 144-146 as written, run for at most `fuel`
   * iterations: `None` means the loop is still running.
   */
  function SkipBlankAsWritten(lines: seq<string>, i: nat, fuel: nat): Option<nat>
    decreases fuel
  {
    if fuel == 0 then None
    else if !IsBlank(ReadLineAt(lines, i)) then Some(i)
    else SkipBlankAsWritten(lines, i + 1, fuel - 1)
  }

  /** On a table of blank lines only, the loop as written never ends, however long it runs. */
  lemma {:induction false} SkipBlankNeverEnds(lines: seq<string>, i: nat, fuel: nat)
    requires forall j :: 0 <= j < |lines| ==> IsBlank(lines[j])
    ensures SkipBlankAsWritten(lines, i, fuel).None?
    decreases fuel
  {
    if fuel > 0 {
      SkipBlankNeverEnds(lines, i + 1, fuel - 1);
    }
  }

  /** When the table has a header, the loop as written finds the same line as the corrected search. */
  lemma {:induction false} SkipBlankFindsHeader(lines: seq<string>, i: nat, fuel: nat)
    requires FindHeader(lines).Some? && i <= FindHeader(lines).value < i + fuel
    requires forall j :: i <= j < FindHeader(lines).value ==> IsBlank(lines[j])
    ensures SkipBlankAsWritten(lines, i, fuel) == FindHeader(lines)
    decreases fuel
  {
    if i < FindHeader(lines).value {
      SkipBlankFindsHeader(lines, i + 1, fuel - 1);
    }
  }

  /** Python's `xs[2:-1]`. */
  function Slice(xs: seq<string>): (r: seq<string>)
    ensures |xs| <= 3 ==> r == []
    ensures |xs| > 3 ==> |r| == |xs| - 3 && forall i :: 0 <= i < |r| ==> r[i] == xs[i + 2]
  {
    if |xs| <= 3 then [] else xs[2..|xs| - 1]
  }

  /** The languages of the header as line 147 computes them: the header split at whitespace. */
  function HeaderLanguagesAsWritten(header: string): seq<string> {
    Slice(SplitWhitespace(Strip(header)))
  }

  /** The languages of the header split at the table's own separator. */
  function HeaderLanguages(header: string, sep: char): seq<string> {
    Slice(Split(Strip(header), sep))
  }

  /** With a separator that is not whitespace and a header without whitespace, line 147 finds no language. */
  lemma HeaderAsWrittenFindsNone(header: string)
    requires NoSpace(header) && header != []
    ensures HeaderLanguagesAsWritten(header) == []
  {
    StripKeepsSpaceFreeEdges(header);
    SplitWhitespaceToken(header);
  }

  /** Length of the leading run of characters other than `%`. */
  function NonPercentRun(s: string): (n: nat)
    ensures n <= |s| && '%' !in s[..n]
    ensures n < |s| ==> s[n] == '%'
    decreases |s|
  {
    if s == [] || s[0] == '%' then 0
    else
      var n := NonPercentRun(s[1..]);
      assert s[..n + 1] == [s[0]] + s[1..][..n];
      n + 1
  }

  /** `re.match(r"%%([^%]+)%%", s)` and its group 1. */
  function CommentMatch(s: string): (m: Option<string>)
    ensures m.Some? ==> m.value != [] && '%' !in m.value
    ensures m.Some? ==> exists rest :: s == "%%" + m.value + "%%" + rest
  {
    if |s| >= 2 && s[..2] == "%%" then
      var n := NonPercentRun(s[2..]);
      if n > 0 && 2 + n + 2 <= |s| && s[2 + n..2 + n + 2] == "%%" then
        assert s[2..2 + n] == s[2..][..n];
        assert s == "%%" + s[2..2 + n] + "%%" + s[2 + n + 2..];
        Some(s[2..2 + n])
      else None
    else None
  }

  /** A text without `%` between two `%%` is matched, whatever follows. */
  lemma CommentMatchOf(c: string, rest: string)
    requires c != [] && '%' !in c
    ensures CommentMatch("%%" + c + "%%" + rest) == Some(c)
  {
    var s := "%%" + c + "%%" + rest;
    assert s[..2] == "%%";
    assert s[2..] == c + "%%" + rest;
    assert NonPercentRun(s[2..]) == |c| by {
      NonPercentRunOf(c, "%%" + rest);
      assert s[2..] == c + ("%%" + rest);
    }
    assert s[2 + |c|..2 + |c| + 2] == "%%";
    assert s[2..2 + |c|] == c;
  }

  lemma {:induction false} NonPercentRunOf(c: string, t: string)
    requires '%' !in c && t != [] && t[0] == '%'
    ensures NonPercentRun(c + t) == |c|
    decreases |c|
  {
    if c == [] {
      assert c + t == t;
    } else {
      assert (c + t)[1..] == c[1..] + t;
      NonPercentRunOf(c[1..], t);
    }
  }

  /** `'="'.join(extra.split("=")) + '"'`: every `=` becomes `="` and a quote closes the item. */
  function Requote(extra: string): string {
    Join("=\"", Split(extra, ExtraAssign)) + "\""
  }

  /** An extras item `name=value` becomes the attribute `name="value"`. */
  lemma RequoteItem(name: string, value: string)
    requires ExtraAssign !in name && ExtraAssign !in value
    ensures Requote(name + "=" + value) == name + "=\"" + value + "\""
  {
    SplitAtSeparator(name, ExtraAssign, value);
    SplitNoSeparator(value, ExtraAssign);
    assert name + "=" + value == name + [ExtraAssign] + value;
    assert Split(name + "=" + value, ExtraAssign) == [name, value];
    assert [name, value][1..] == [value];
    assert Join("=\"", [name, value]) == name + "=\"" + value;
  }

  function RequoteAll(extras: seq<string>): (r: seq<string>)
    ensures |r| == |extras| && forall i :: 0 <= i < |extras| ==> r[i] == Requote(extras[i])
  {
    seq(|extras|, i requires 0 <= i < |extras| => Requote(extras[i]))
  }

  /** `d.update(zip(keys, values))`: the keys paired up to the shorter list are added. */
  function ZipInto(d: map<string, string>, keys: seq<string>, values: seq<string>): (r: map<string, string>)
    ensures r.Keys == d.Keys + set i | 0 <= i < |keys| && i < |values| :: keys[i]
    decreases |keys|
  {
    if keys == [] || values == [] then d
    else
      var r := ZipInto(d[keys[0] := values[0]], keys[1..], values[1..]);
      assert (set i | 0 <= i < |keys| && i < |values| :: keys[i]) ==
        {keys[0]} + set i | 0 <= i < |keys[1..]| && i < |values[1..]| :: keys[1..][i] by {
        forall i | 1 <= i < |keys| && i < |values| ensures keys[i] == keys[1..][i - 1] {
        }
        forall i | 0 <= i < |keys[1..]| && i < |values[1..]| ensures keys[1..][i] == keys[i + 1] {
        }
      }
      r
  }

  /**
   * The values `update` leaves: each paired key holds its own value unless a
   * later pair repeats the key, and the keys not paired keep theirs.
   */
  lemma {:induction false} ZipIntoValues(d: map<string, string>, keys: seq<string>, values: seq<string>)
    ensures forall i :: 0 <= i < |keys| && i < |values| && keys[i] !in keys[i + 1..] ==> ZipInto(d, keys, values)[keys[i]] == values[i]
    ensures forall k :: k in d && k !in keys ==> ZipInto(d, keys, values)[k] == d[k]
    decreases |keys|
  {
    if keys != [] && values != [] {
      var d' := d[keys[0] := values[0]];
      ZipIntoValues(d', keys[1..], values[1..]);
      forall i | 0 <= i < |keys| && i < |values| && keys[i] !in keys[i + 1..]
        ensures ZipInto(d, keys, values)[keys[i]] == values[i]
      {
        if i > 0 {
          assert keys[1..][i - 1] == keys[i] && values[1..][i - 1] == values[i];
          assert keys[1..][i - 1 + 1..] == keys[i + 1..];
        } else {
          assert keys[0] in d' && keys[0] !in keys[1..];
        }
      }
      forall k | k in d && k !in keys ensures ZipInto(d, keys, values)[k] == d[k] {
        assert k != keys[0] && k !in keys[1..];
      }
    }
  }

  /** Python's `min`. */
  function Min(a: nat, b: nat): nat {
    if a <= b then a else b
  }

  /**
   * Lines 158-170 after the unpacking: the record of a string line with the
   * given key, default text, remaining cells and extras cells.
   */
  function MakeEntry(key: string, default: string, rest: seq<string>, langs: seq<string>, extraCells: seq<string>): Row {
    var translations := rest[..Min(|langs|, |rest|)];
    var base := map["key" := key, "default" := default];
    if |translations| > 0 && translations[0] == NotTranslatableText then
      Entry(base["translatable" := "false"], RequoteAll(extraCells))
    else
      Entry(ZipInto(base, langs, translations), RequoteAll(extraCells))
  }

  /** Lines 160-161 as written: the last cell is split into items whenever it lies past the languages. */
  function ExtraCellsAsWritten(rest: seq<string>, langs: seq<string>): seq<string> {
    if Min(|langs|, |rest|) < |rest| then Split(rest[|rest| - 1], ExtraSeparator) else []
  }

  /** The same, where an empty last cell holds no item. */
  function ExtraCells(rest: seq<string>, langs: seq<string>): seq<string> {
    if Min(|langs|, |rest|) < |rest| && rest[|rest| - 1] != [] then Split(rest[|rest| - 1], ExtraSeparator) else []
  }

  /**
   * The loop body of lines 150-170, as written: the line's record, or `None`
   * where the unpacking of line 158 raises `ValueError`.
   */
  function ParseLineAsWritten(line: string, langs: seq<string>, sep: char): Option<Row> {
    var s := Strip(line);
    var split := Split(s, sep);
    if split == [[]] then Some(Blank)
    else if CommentMatch(s).Some? then Some(Comment(CommentMatch(s).value))
    else if |split| < 2 then None
    else Some(MakeEntry(split[0], split[1], split[2..], langs, ExtraCellsAsWritten(split[2..], langs)))
  }

  /**
   * The corrected loop body of lines 150-170: a line holding only a key has
   * the empty default text, and an empty extras cell holds no item.
   */
  function ParseLine(line: string, langs: seq<string>, sep: char): Row {
    var s := Strip(line);
    var split := Split(s, sep);
    if split == [[]] then Blank
    else if CommentMatch(s).Some? then Comment(CommentMatch(s).value)
    else if |split| < 2 then MakeEntry(split[0], "", [], langs, [])
    else MakeEntry(split[0], split[1], split[2..], langs, ExtraCells(split[2..], langs))
  }

  /** A line gives the empty record exactly when it is blank. */
  lemma ParseLineBlank(line: string, langs: seq<string>, sep: char)
    ensures ParseLine(line, langs, sep) == Blank <==> IsBlank(line)
    ensures ParseLineAsWritten(line, langs, sep) == Some(Blank) <==> IsBlank(line)
  {
    StripEmptyAllSpace(line);
    SplitSingleEmpty(Strip(line), sep);
  }

  /** As written, reading fails exactly on a non-blank, non-comment line without a separator. */
  lemma ParseLineAsWrittenFails(line: string, langs: seq<string>, sep: char)
    ensures ParseLineAsWritten(line, langs, sep).None? <==>
      !IsBlank(line) && CommentMatch(Strip(line)).None? && sep !in Strip(line)
  {
    var s := Strip(line);
    var split := Split(s, sep);
    StripEmptyAllSpace(line);
    SplitSingleEmpty(s, sep);
    assert split == [[]] <==> IsBlank(line);
    SplitWithSeparator(s, sep);
  }

  /** A line whose cells past the languages, if any, end in a non-empty extras cell. */
  predicate ExtrasCellFilled(line: string, langs: seq<string>, sep: char) {
    var split := Split(Strip(line), sep);
    |split| >= 2 && |langs| < |split| - 2 ==> split[|split| - 1] != []
  }

  /** The two readings agree on every line the code as written accepts, unless its extras cell is empty. */
  lemma ParseLineAgrees(line: string, langs: seq<string>, sep: char)
    requires ParseLineAsWritten(line, langs, sep).Some?
    requires ExtrasCellFilled(line, langs, sep)
    ensures ParseLine(line, langs, sep) == ParseLineAsWritten(line, langs, sep).value
  {
    var s := Strip(line);
    var split := Split(s, sep);
    if split != [[]] && CommentMatch(s).None? {
      assert |split| >= 2;
      var rest := split[2..];
      assert |rest| == |split| - 2;
      if |rest| > 0 {
        assert rest[|rest| - 1] == split[|split| - 1];
      }
      ExtraCellsAgree(rest, langs);
    }
  }

  /** Both readings split the extras cell alike when it is not empty. */
  lemma ExtraCellsAgree(rest: seq<string>, langs: seq<string>)
    requires Min(|langs|, |rest|) < |rest| ==> rest[|rest| - 1] != []
    ensures ExtraCells(rest, langs) == ExtraCellsAsWritten(rest, langs)
  {
  }

  /** A comment line `%%c%%` gives the comment record. */
  lemma ParseCommentLine(c: string, langs: seq<string>, sep: char)
    requires c != [] && '%' !in c
    ensures ParseLine("%%" + c + "%%", langs, sep) == Comment(c)
    ensures ParseLineAsWritten("%%" + c + "%%", langs, sep) == Some(Comment(c))
  {
    var line := "%%" + c + "%%";
    assert line == "%%" + c + "%%" + [];
    CommentMatchOf(c, []);
    assert SpaceFreeEdges(line);
    StripKeepsSpaceFreeEdges(line);
    SplitSingleEmpty(line, sep);
  }


  /**
   * A loop that reads each item in turn with `read` and raises at the first
   * item `read` rejects: `None` if some item is rejected, and otherwise the
   * result of each item in order.
   */
  function ReadEach<T, U>(xs: seq<T>, read: T -> Option<U>): Option<seq<U>> {
    if exists i :: 0 <= i < |xs| && read(xs[i]).None? then None
    else Some(seq(|xs|, i requires 0 <= i < |xs| => read(xs[i]).value))
  }

  /** When each item, read on its own, gives its result, the loop gives all of them. */
  lemma ReadEachOf<T, U>(xs: seq<T>, read: T -> Option<U>, ys: seq<U>)
    requires |ys| == |xs|
    requires forall i :: 0 <= i < |xs| ==> read(xs[i]) == Some(ys[i])
    ensures ReadEach(xs, read) == Some(ys)
  {
    assert ReadEach(xs, read).Some?;
    var r := ReadEach(xs, read).value;
    assert |r| == |ys|;
    assert forall i :: 0 <= i < |xs| ==> r[i] == ys[i];
    assert r == ys;
  }

  /** When the loop gets through, each item gives its own result. */
  lemma ReadEachAt<T, U>(xs: seq<T>, read: T -> Option<U>, i: nat)
    requires ReadEach(xs, read).Some? && i < |xs|
    ensures |ReadEach(xs, read).value| == |xs|
    ensures read(xs[i]) == Some(ReadEach(xs, read).value[i])
  {
  }

  /** An item the loop gets through extends the results of the items before it. */
  lemma ReadEachSnoc<T, U>(xs: seq<T>, read: T -> Option<U>, j: nat)
    requires j < |xs| && read(xs[j]).Some? && ReadEach(xs[..j], read).Some?
    ensures ReadEach(xs[..j + 1], read) == Some(ReadEach(xs[..j], read).value + [read(xs[j]).value])
  {
    var prefix, next := xs[..j], xs[..j + 1];
    var all := ReadEach(prefix, read).value + [read(xs[j]).value];
    forall i | 0 <= i < |next| ensures read(next[i]) == Some(all[i]) {
      if i < j {
        ReadEachAt(prefix, read, i);
        assert next[i] == prefix[i];
      } else {
        assert next[i] == xs[j];
      }
    }
    ReadEachOf(next, read, all);
  }

  /** An item the loop rejects stops every run of items holding it. */
  lemma ReadEachFails<T, U>(xs: seq<T>, read: T -> Option<U>, j: nat)
    requires j < |xs| && read(xs[j]).None?
    ensures ReadEach(xs, read).None?
  {
  }

  /** One line as the code as written parses it. */
  function LineAsWritten(langs: seq<string>, sep: char): string -> Option<Row> {
    line => ParseLineAsWritten(line, langs, sep)
  }

  /**
   * The loop of lines 149-170 as written over the lines after the header:
   * `None` when the unpacking of some line raises, and otherwise the record
   * of each line in turn.
   */
  function ReadRowsAsWritten(lines: seq<string>, langs: seq<string>, sep: char): Option<seq<Row>> {
    ReadEach(lines, LineAsWritten(langs, sep))
  }

  /** Some line, parsed on its own, raises at the unpacking. */
  predicate SomeLineFails(lines: seq<string>, langs: seq<string>, sep: char) {
    exists i :: 0 <= i < |lines| && ParseLineAsWritten(lines[i], langs, sep).None?
  }

  /**
   * Reading a run of lines as written raises exactly when one of its lines
   * does; otherwise it gives each line's record, in order.
   */
  lemma ReadRowsAsWrittenFails(lines: seq<string>, langs: seq<string>, sep: char)
    ensures ReadRowsAsWritten(lines, langs, sep).None? <==> SomeLineFails(lines, langs, sep)
  {
    if SomeLineFails(lines, langs, sep) {
      var i :| 0 <= i < |lines| && ParseLineAsWritten(lines[i], langs, sep).None?;
      ReadEachFails(lines, LineAsWritten(langs, sep), i);
    }
  }

  /** The code as written reads a run of lines into the given records when each line, parsed on its own, gives its record. */
  lemma ReadRowsAsWrittenOf(lines: seq<string>, langs: seq<string>, sep: char, rows: seq<Row>)
    requires |rows| == |lines|
    requires forall i :: 0 <= i < |lines| ==> ParseLineAsWritten(lines[i], langs, sep) == Some(rows[i])
    ensures ReadRowsAsWritten(lines, langs, sep) == Some(rows)
  {
    ReadEachOf(lines, LineAsWritten(langs, sep), rows);
  }

  /** When reading as written gets through, each line gives its own record. */
  lemma ReadRowsAsWrittenAt(lines: seq<string>, langs: seq<string>, sep: char, i: nat)
    requires ReadRowsAsWritten(lines, langs, sep).Some? && i < |lines|
    ensures |ReadRowsAsWritten(lines, langs, sep).value| == |lines|
    ensures ParseLineAsWritten(lines[i], langs, sep) == Some(ReadRowsAsWritten(lines, langs, sep).value[i])
  {
    ReadEachAt(lines, LineAsWritten(langs, sep), i);
  }

  /** The records the corrected reading makes of a run of lines: one per line, in order. */
  function ReadRows(lines: seq<string>, langs: seq<string>, sep: char): (rows: seq<Row>)
    ensures |rows| == |lines|
  {
    seq(|lines|, i requires 0 <= i < |lines| => ParseLine(lines[i], langs, sep))
  }

  /**
   * The two readings of a run of lines agree when the code as written reads
   * them all and none ends in an empty extras cell.
   */
  lemma ReadRowsAgree(lines: seq<string>, langs: seq<string>, sep: char)
    requires ReadRowsAsWritten(lines, langs, sep).Some?
    requires forall line :: line in lines ==> ExtrasCellFilled(line, langs, sep)
    ensures ReadRows(lines, langs, sep) == ReadRowsAsWritten(lines, langs, sep).value
  {
    var rows := ReadRowsAsWritten(lines, langs, sep).value;
    forall i | 0 <= i < |lines| ensures ReadRows(lines, langs, sep)[i] == rows[i] {
      ReadRowsAsWrittenAt(lines, langs, sep, i);
      ParseLineAgrees(lines[i], langs, sep);
    }
  }

  /** The corrected reading of a run of lines gives the records its lines give one by one. */
  lemma ReadRowsOf(lines: seq<string>, langs: seq<string>, sep: char, rows: seq<Row>)
    requires |rows| == |lines|
    requires forall i :: 0 <= i < |lines| ==> ParseLine(lines[i], langs, sep) == rows[i]
    ensures ReadRows(lines, langs, sep) == rows
  {
    var read := ReadRows(lines, langs, sep);
    forall i | 0 <= i < |lines| ensures read[i] == rows[i] {
    }
    assert read == rows;
  }

  /**
   * Lines 144-170 as written on the lines of the table: the header's
   * languages are its whitespace-separated words, and a line with a single
   * field stops the reading. The header search stops at the end of the file
   * instead of looping on it.
   */
  function ReadFromAsWritten(lines: seq<string>, sep: char): Result<(seq<Row>, seq<string>), ReadError> {
    match FindHeader(lines)
    case None => Err(NoHeader)
    case Some(h) =>
      var langs := HeaderLanguagesAsWritten(lines[h]);
      match ReadRowsAsWritten(lines[h + 1..], langs, sep)
      case None => Err(TooFewFields)
      case Some(rows) => Ok((rows, langs))
  }

  /** `get_string_dicts_from_csv` as written, on the text of the table. */
  function ReadAsWritten(text: string, sep: char): Result<(seq<Row>, seq<string>), ReadError> {
    ReadFromAsWritten(Lines(text), sep)
  }

  /**
   * The corrected reading of the table's lines: the header is split at the
   * table's own separator, a line holding only a key is a string with empty
   * texts, and an empty extras cell holds no item.
   */
  function ReadFrom(lines: seq<string>, sep: char): Result<(seq<Row>, seq<string>), ReadError> {
    match FindHeader(lines)
    case None => Err(NoHeader)
    case Some(h) =>
      var langs := HeaderLanguages(lines[h], sep);
      Ok((ReadRows(lines[h + 1..], langs, sep), langs))
  }

  /** The corrected reading of the table's text. */
  function Read(text: string, sep: char): Result<(seq<Row>, seq<string>), ReadError> {
    ReadFrom(Lines(text), sep)
  }

  /**
   * The two readings of a table agree when its header has the same languages
   * split either way, the code as written reads every line, and no line ends
   * in an empty extras cell.
   */
  lemma ReadFromAgrees(lines: seq<string>, sep: char)
    requires ReadFromAsWritten(lines, sep).Ok?
    requires var h := FindHeader(lines).value;
      HeaderLanguagesAsWritten(lines[h]) == HeaderLanguages(lines[h], sep)
    requires var h := FindHeader(lines).value;
      forall line :: line in lines[h + 1..] ==> ExtrasCellFilled(line, HeaderLanguages(lines[h], sep), sep)
    ensures ReadFrom(lines, sep) == ReadFromAsWritten(lines, sep)
  {
    var h := FindHeader(lines).value;
    ReadRowsAgree(lines[h + 1..], HeaderLanguages(lines[h], sep), sep);
  }

  /** The header search of lines 144-146, stopping at the end of the file. */
  method SkipBlankLines(lines: seq<string>) returns (h: Option<nat>)
    ensures h == FindHeader(lines)
  {
    var i := 0;
    while i < |lines| && Strip(lines[i]) == []
      invariant i <= |lines|
      invariant forall j :: 0 <= j < i ==> IsBlank(lines[j])
    {
      StripEmptyAllSpace(lines[i]);
      i := i + 1;
    }
    if i == |lines| {
      return None;
    }
    StripEmptyAllSpace(lines[i]);
    assert !IsBlank(lines[i]);
    FirstNonBlank(lines, i);
    h := Some(i);
  }

  /** The loop of lines 149-170 over the lines after the header. */
  method ParseLines(lines: seq<string>, langs: seq<string>, sep: char) returns (r: Option<seq<Row>>)
    ensures r == ReadRowsAsWritten(lines, langs, sep)
  {
    var rows := [];
    ReadRowsAsWrittenOf(lines[..0], langs, sep, rows);
    for j := 0 to |lines|
      invariant ReadRowsAsWritten(lines[..j], langs, sep) == Some(rows)
    {
      var row := ParseLineAsWritten(lines[j], langs, sep);
      if row.None? {
        ReadEachFails(lines, LineAsWritten(langs, sep), j);
        return None;
      }
      ReadEachSnoc(lines, LineAsWritten(langs, sep), j);
      rows := rows + [row.value];
    }
    assert lines[..|lines|] == lines;
    r := Some(rows);
  }

  /**
   * `get_string_dicts_from_csv`, lines 141-171: `text` is the content of the
   * table file. The header search stops at the end of the file instead of
   * looping on it.
   */
  method ReadTable(text: string, sep: char) returns (r: Result<(seq<Row>, seq<string>), ReadError>)
    ensures r == ReadAsWritten(text, sep)
  {
    var lines := Lines(text);
    r := ReadLines(lines, sep);
  }

  /** Lines 144-170 on the lines of the table. */
  method ReadLines(lines: seq<string>, sep: char) returns (r: Result<(seq<Row>, seq<string>), ReadError>)
    ensures r == ReadFromAsWritten(lines, sep)
  {
    var h := SkipBlankLines(lines);
    if h.None? {
      return Err(NoHeader);
    }
    var langs := HeaderLanguagesAsWritten(lines[h.value]);
    var rows := ParseLines(lines[h.value + 1..], langs, sep);
    if rows.None? {
      return Err(TooFewFields);
    }
    r := Ok((rows.value, langs));
  }

  /**
   * Reading as written finds no header exactly when every line is blank (where
   * the code loops forever), and otherwise fails exactly when a line after the
   * header has a single field. The corrected reading fails only for want of a
   * header.
   */
  lemma ReadNeedsHeader(text: string, sep: char)
    ensures ReadAsWritten(text, sep) == Err(NoHeader) <==> forall i :: 0 <= i < |Lines(text)| ==> IsBlank(Lines(text)[i])
    ensures ReadAsWritten(text, sep) == Err(TooFewFields) <==> LineFailsAfterHeader(Lines(text), sep)
    ensures Read(text, sep).Err? <==> forall i :: 0 <= i < |Lines(text)| ==> IsBlank(Lines(text)[i])
  {
    ReadFromAsWrittenTooFewFields(Lines(text), sep);
  }

  /** Some line after the header has a single field, with the header's languages as line 147 finds them. */
  predicate LineFailsAfterHeader(lines: seq<string>, sep: char) {
    && FindHeader(lines).Some?
    && var h := FindHeader(lines).value;
       SomeLineFails(lines[h + 1..], HeaderLanguagesAsWritten(lines[h]), sep)
  }

  /** Reading the lines as written raises at the unpacking exactly when a line after the header does. */
  lemma ReadFromAsWrittenTooFewFields(lines: seq<string>, sep: char)
    ensures ReadFromAsWritten(lines, sep) == Err(TooFewFields) <==> LineFailsAfterHeader(lines, sep)
  {
    if FindHeader(lines).Some? {
      var h := FindHeader(lines).value;
      ReadRowsAsWrittenFails(lines[h + 1..], HeaderLanguagesAsWritten(lines[h]), sep);
    }
  }

  /** The first non-blank line is the header `FindHeader` names. */
  lemma {:induction false} FirstNonBlank(lines: seq<string>, h: nat)
    requires h < |lines| && !IsBlank(lines[h])
    requires forall i :: 0 <= i < h ==> IsBlank(lines[i])
    ensures FindHeader(lines) == Some(h)
    decreases h
  {
    if h > 0 {
      FirstNonBlank(lines[1..], h - 1);
    }
  }
}
