/**
 * `create_string_xml`: writing the records of the table as one language's
 * `strings.xml`. The records are shared between the calls for the different
 * languages, and the call for the default language appends to an entry's
 * extras list in place, so the records are an array the method updates.
 */
module XmlEmitter {
  import opened Wrappers
  import opened Strings
  import opened TableReader

  const DefaultLanguage: string := "default"
  const XmlProlog: string := "<?xml version=\"1.0\" encoding=\"utf-8\"?>"
  const ResourcesOpen: string := "<resources>"
  const ResourcesClose: string := "</resources>"

  datatype EmitError =
    | MissingKey      // `string_dict["key"]` on a record without a key
    | AppendToText    // `extras.append` when a language column named `extras` replaced the list by a text

  /** `values` for the default language, `values-<lang>` otherwise. */
  function FolderName(lang: string): string {
    "values" + (if lang == DefaultLanguage then "" else "-" + lang)
  }

  /** Different languages are written to different folders. */
  lemma FolderNameInjective(a: string, b: string)
    requires FolderName(a) == FolderName(b)
    ensures a == b
  {
    var fa := FolderName(a);
    if a != DefaultLanguage && b != DefaultLanguage {
      assert a == fa[7..] && b == fa[7..];
    }
  }

  function CommentLine(comment: string): string {
    "    <!--" + comment + "-->"
  }

  /** The items `" ".join` sees when it is handed a text: its characters. */
  function Chars(s: string): (items: seq<string>)
    ensures |items| == |s|
  {
    seq(|s|, i requires 0 <= i < |s| => [s[i]])
  }

  /** The attributes after the name: present only for the default language. */
  function ExtraString(extras: seq<string>, isDefault: bool): string {
    if |extras| > 0 && isDefault then " " + Join(" ", extras) else ""
  }

  function StringLine(key: string, extraString: string, text: string): string {
    "    <string name=\"" + key + "\"" + extraString + ">" + text + "</string>"
  }

  /**
   * What one record contributes: the line written, if any, the record
   * afterwards, and the exception it raised, if any.
   */
  datatype Step = Step(line: Option<string>, row: Row, error: Option<EmitError>)

  /** The body of the loop of lines 122-137 for one record. */
  function EmitRow(row: Row, lang: string): Step
    requires lang != "extras"
  {
    match row
    case Blank => Step(Some(""), row, None)
    case Comment(c) => Step(Some(CommentLine(c)), row, None)
    case Entry(fields, extras) =>
      var isDefault := lang == DefaultLanguage;
      if "comment" in fields then Step(Some(CommentLine(fields["comment"])), row, None)
      else if lang !in fields || fields[lang] == "" then Step(None, row, None)
      else if "translatable" in fields && !isDefault then Step(None, row, None)
      else if "translatable" in fields && "extras" in fields then Step(None, row, Some(AppendToText))
      else
        var items := if "extras" in fields then Chars(fields["extras"]) else extras;
        var items' := if "translatable" in fields then items + ["translatable=\"" + fields["translatable"] + "\""] else items;
        var row' := if "translatable" in fields then Entry(fields, items') else row;
        if "key" !in fields then Step(None, row', Some(MissingKey))
        else Step(Some(StringLine(fields["key"], ExtraString(items', isDefault), fields[lang])), row', None)
  }

  /** The lines written for the records, the records afterwards, and the error that stopped the loop. */
  datatype Emitted = Emitted(lines: seq<string>, rows: seq<Row>, error: Option<EmitError>)

  function EmitRows(rows: seq<Row>, lang: string): (e: Emitted)
    requires lang != "extras"
    ensures |e.rows| == |rows|
    decreases |rows|
  {
    if rows == [] then Emitted([], [], None)
    else
      var last := rows[|rows| - 1];
      var prev := EmitRows(rows[..|rows| - 1], lang);
      if prev.error.Some? then Emitted(prev.lines, prev.rows + [last], prev.error)
      else
        var step := EmitRow(last, lang);
        Emitted(prev.lines + (if step.line.Some? then [step.line.value] else []), prev.rows + [step.row], step.error)
  }

  /** The lines of a complete file; the file is these lines joined by newlines. */
  function XmlFile(body: seq<string>): seq<string> {
    [XmlProlog, ResourcesOpen] + body + [ResourcesClose]
  }

  /** The outcome of one call: the file's lines, or the error that interrupted it. */
  function EmitOutcome(e: Emitted): Result<seq<string>, EmitError> {
    if e.error.Some? then Err(e.error.value) else Ok(XmlFile(e.lines))
  }

  /**
   * `create_string_xml`, lines 114-138, for the records in `rows` and the
   * language `lang`; the records the call for the default language extends
   * stay extended.
   */
  method CreateStringXml(rows: array<Row>, lang: string) returns (r: Result<seq<string>, EmitError>)
    requires lang != "extras"
    modifies rows
    ensures rows[..] == EmitRows(old(rows[..]), lang).rows
    ensures r == EmitOutcome(EmitRows(old(rows[..]), lang))
  {
    ghost var original := rows[..];
    var body: seq<string> := [];
    for i := 0 to rows.Length
      invariant rows[..] == EmitRows(original[..i], lang).rows + original[i..]
      invariant EmitRows(original[..i], lang) == Emitted(body, EmitRows(original[..i], lang).rows, None)
    {
      ghost var before := rows[..];
      var step := EmitRow(rows[i], lang);
      EmitStep(original, lang, i);
      EmitAdvance(original, lang, i, before);
      if step.line.Some? {
        body := body + [step.line.value];
      }
      rows[i] := step.row;
      assert rows[..] == before[i := step.row];
      if step.error.Some? {
        EmitRowsStops(original, lang, i + 1);
        return Err(step.error.value);
      }
    }
    assert original[..rows.Length] == original;
    assert rows[..] == EmitRows(original, lang).rows + [];
    r := Ok([XmlProlog, ResourcesOpen] + body + [ResourcesClose]);
  }

  /** Writing the record back at its index keeps the processed records ahead of the untouched ones. */
  lemma EmitAdvance(rows: seq<Row>, lang: string, i: nat, before: seq<Row>)
    requires lang != "extras" && i < |rows|
    requires EmitRows(rows[..i], lang).error.None?
    requires before == EmitRows(rows[..i], lang).rows + rows[i..]
    ensures before[i] == rows[i]
    ensures before[i := EmitRow(rows[i], lang).row] == EmitRows(rows[..i + 1], lang).rows + rows[i + 1..]
  {
    EmitStep(rows, lang, i);
    assert rows[i..] == [rows[i]] + rows[i + 1..];
  }

  /** One more record, after records that raised nothing, is one more call of `EmitRow`. */
  lemma EmitStep(rows: seq<Row>, lang: string, i: nat)
    requires lang != "extras" && i < |rows|
    requires EmitRows(rows[..i], lang).error.None?
    ensures var prev := EmitRows(rows[..i], lang);
            var step := EmitRow(rows[i], lang);
            EmitRows(rows[..i + 1], lang)
              == Emitted(prev.lines + (if step.line.Some? then [step.line.value] else []), prev.rows + [step.row], step.error)
  {
    assert rows[..i + 1][..i] == rows[..i];
  }

  /** Once a record raises, the remaining records are left as they are and no more lines are written. */
  lemma {:induction false} EmitRowsStops(rows: seq<Row>, lang: string, n: nat)
    requires lang != "extras" && n <= |rows|
    requires EmitRows(rows[..n], lang).error.Some?
    ensures EmitRows(rows, lang) == Emitted(EmitRows(rows[..n], lang).lines, EmitRows(rows[..n], lang).rows + rows[n..], EmitRows(rows[..n], lang).error)
    decreases |rows| - n
  {
    if n < |rows| {
      assert rows[..n + 1][..n] == rows[..n];
      EmitRowsStops(rows, lang, n + 1);
      assert rows[n..] == [rows[n]] + rows[n + 1..];
    } else {
      assert rows[..n] == rows;
    }
  }

  /** A call for another language changes no record, and fails on none that has a key. */
  lemma EmitRowNonDefault(row: Row, lang: string)
    requires lang != "extras" && lang != DefaultLanguage
    requires row.Entry? ==> "key" in row.fields
    ensures EmitRow(row, lang).error.None? && EmitRow(row, lang).row == row
  {
  }

  /** The calls for the other languages leave every record as it was. */
  lemma {:induction false} EmitRowsNonDefault(rows: seq<Row>, lang: string)
    requires lang != "extras" && lang != DefaultLanguage
    requires forall i :: 0 <= i < |rows| && rows[i].Entry? ==> "key" in rows[i].fields
    ensures EmitRows(rows, lang).rows == rows && EmitRows(rows, lang).error.None?
    decreases |rows|
  {
    if rows != [] {
      var prefix := rows[..|rows| - 1];
      EmitRowsNonDefault(prefix, lang);
      EmitRowNonDefault(rows[|rows| - 1], lang);
      assert prefix + [rows[|rows| - 1]] == rows;
    }
  }

  /**
   * A string record is skipped exactly when it has no text in the language,
   * or is not translatable and the language is not the default one.
   */
  lemma EmitEntrySkipped(fields: map<string, string>, extras: seq<string>, lang: string)
    requires lang != "extras" && "comment" !in fields && "key" in fields && "extras" !in fields
    ensures EmitRow(Entry(fields, extras), lang).error.None?
    ensures EmitRow(Entry(fields, extras), lang).line.None? <==>
      lang !in fields || fields[lang] == "" || ("translatable" in fields && lang != DefaultLanguage)
  {
  }

  /** For any other language a string line carries the name and the text only. */
  lemma EmitEntryPlain(fields: map<string, string>, extras: seq<string>, lang: string)
    requires lang != "extras" && lang != DefaultLanguage && "comment" !in fields && "key" in fields
    requires lang in fields && fields[lang] != "" && "translatable" !in fields
    ensures EmitRow(Entry(fields, extras), lang) ==
      Step(Some("    <string name=\"" + fields["key"] + "\">" + fields[lang] + "</string>"), Entry(fields, extras), None)
  {
    assert StringLine(fields["key"], "", fields[lang]) ==
      "    <string name=\"" + fields["key"] + "\">" + fields[lang] + "</string>";
  }

  /**
   * For the default language an untranslatable string carries its extras
   * followed by the `translatable` attribute, and the record keeps the
   * extended list.
   */
  lemma EmitDefaultUntranslatable(fields: map<string, string>, extras: seq<string>)
    requires "comment" !in fields && "key" in fields && "extras" !in fields
    requires DefaultLanguage in fields && fields[DefaultLanguage] != "" && "translatable" in fields
    ensures var items := extras + ["translatable=\"" + fields["translatable"] + "\""];
      EmitRow(Entry(fields, extras), DefaultLanguage) ==
        Step(Some("    <string name=\"" + fields["key"] + "\" " + Join(" ", items) + ">" + fields[DefaultLanguage] + "</string>"),
             Entry(fields, items), None)
  {
    var items := extras + ["translatable=\"" + fields["translatable"] + "\""];
    assert StringLine(fields["key"], " " + Join(" ", items), fields[DefaultLanguage]) ==
      "    <string name=\"" + fields["key"] + "\" " + Join(" ", items) + ">" + fields[DefaultLanguage] + "</string>";
  }
}
