/**
 * `process_csv_file`: reading the table and writing one `strings.xml` per
 * language. The files are the result, as (folder, lines) pairs in the order
 * they are written.
 */
module Reverse {
  import opened Wrappers
  import opened TableReader
  import opened XmlEmitter
  import Forward

  datatype ReverseError =
    | ReadFailed(cause: ReadError)
    | EmitFailed(error: EmitError)

  /** Line 109 as written: one file per header language. */
  function TargetsAsWritten(langs: seq<string>): seq<string> {
    langs
  }

  /**
   * The corrected targets: one file for the default language, then one per
   * header language.
   */
  function Targets(langs: seq<string>): (targets: seq<string>)
    ensures |targets| == |langs| + 1 && targets[0] == DefaultLanguage
    ensures forall k :: 0 <= k < |langs| ==> targets[k + 1] == langs[k]
  {
    [DefaultLanguage] + langs
  }

  /** The folder written for each target, in order. */
  function Folders(targets: seq<string>): (folders: seq<string>)
    ensures |folders| == |targets| && forall k :: 0 <= k < |targets| ==> folders[k] == FolderName(targets[k])
  {
    seq(|targets|, k requires 0 <= k < |targets| => FolderName(targets[k]))
  }

  /**
   * As written, `values/strings.xml` is never rewritten unless the header
   * names a language called `default`.
   */
  lemma DefaultFolderSkipped(langs: seq<string>)
    requires DefaultLanguage !in langs
    ensures "values" !in Folders(TargetsAsWritten(langs))
  {
    forall k | 0 <= k < |langs| ensures Folders(langs)[k] != "values" {
      assert |FolderName(langs[k])| > 6;
    }
  }

  /**
   * The header the forward conversion writes names two-letter codes only, so
   * on its tables the code as written never produces the default file.
   */
  lemma ForwardTablesSkipDefault(subFolders: seq<string>)
    ensures "values" !in Folders(TargetsAsWritten(Forward.Codes(Forward.LanguageFolders(subFolders))))
  {
    var codes := Forward.Codes(Forward.LanguageFolders(subFolders));
    forall k | 0 <= k < |codes| ensures codes[k] != DefaultLanguage {
      assert |codes[k]| == 2;
    }
    DefaultFolderSkipped(codes);
  }

  /** A two-letter lower-case code is written to the folder the forward conversion reads it from. */
  lemma FolderNameOfCode(lang: string)
    requires |lang| == 2 && Forward.IsLowerLetter(lang[0]) && Forward.IsLowerLetter(lang[1])
    ensures Forward.IsLanguageFolder(FolderName(lang))
    ensures Forward.LanguageCode(FolderName(lang)) == lang
  {
    var f := FolderName(lang);
    assert f == "values-" + lang;
    assert f[..7] == "values-" && f[7] == lang[0] && f[8] == lang[1];
    assert f[|f| - 2..] == lang;
  }

  /** The files written, the records afterwards, and the error that stopped the run. */
  datatype Written = Written(files: seq<(string, seq<string>)>, rows: seq<Row>, error: Option<EmitError>)

  /** The loop of lines 109-110 over `targets`, each call seeing the records the earlier ones left. */
  function EmitAll(rows: seq<Row>, targets: seq<string>): (w: Written)
    requires "extras" !in targets
    ensures |w.files| <= |targets| && (w.error.None? ==> |w.files| == |targets|)
    ensures forall k :: 0 <= k < |w.files| ==> w.files[k].0 == FolderName(targets[k])
    decreases |targets|
  {
    if targets == [] then Written([], rows, None)
    else
      var prev := EmitAll(rows, targets[..|targets| - 1]);
      var t := targets[|targets| - 1];
      if prev.error.Some? then prev
      else
        var e := EmitRows(prev.rows, t);
        if e.error.Some? then Written(prev.files, e.rows, e.error)
        else Written(prev.files + [(FolderName(t), XmlFile(e.lines))], e.rows, None)
  }

  /** The outcome of the loop: the files, or the error that interrupted it. */
  function WriteOutcome(w: Written): Result<seq<(string, seq<string>)>, ReverseError> {
    if w.error.Some? then Err(EmitFailed(w.error.value)) else Ok(w.files)
  }

  /**
   * `process_csv_file` as written, as a value: the table read as the code
   * reads it, then one file per header language.
   */
  function ConvertBack(text: string, sep: char): Result<seq<(string, seq<string>)>, ReverseError>
    requires ReadAsWritten(text, sep).Ok? ==> "extras" !in ReadAsWritten(text, sep).value.1
  {
    match ReadAsWritten(text, sep)
    case Err(e) => Err(ReadFailed(e))
    case Ok((rows, langs)) => WriteOutcome(EmitAll(rows, TargetsAsWritten(langs)))
  }

  /**
   * The corrected conversion: the table read with the corrected reader, then
   * the default file and one file per header language.
   */
  function ConvertBackCorrected(text: string, sep: char): Result<seq<(string, seq<string>)>, ReverseError>
    requires Read(text, sep).Ok? ==> "extras" !in Read(text, sep).value.1
  {
    match Read(text, sep)
    case Err(e) => Err(ReadFailed(e))
    case Ok((rows, langs)) => WriteOutcome(EmitAll(rows, Targets(langs)))
  }

  /**
   * `process_csv_file`, lines 105-110. `text` is the content of the table
   * file; a header language named `extras` is excluded because its column
   * replaces the extras list of every record.
   */
  method ProcessCsvFile(text: string, sep: char) returns (r: Result<seq<(string, seq<string>)>, ReverseError>)
    requires ReadAsWritten(text, sep).Ok? ==> "extras" !in ReadAsWritten(text, sep).value.1
    ensures r == ConvertBack(text, sep)
  {
    var read := ReadTable(text, sep);
    if read.Err? {
      return Err(ReadFailed(read.error));
    }
    r := WriteBack(read.value.0, read.value.1);
  }

  /** Lines 109-110 on the records and languages read from the table. */
  method WriteBack(rows: seq<Row>, langs: seq<string>) returns (r: Result<seq<(string, seq<string>)>, ReverseError>)
    requires "extras" !in langs
    ensures r == WriteOutcome(EmitAll(rows, TargetsAsWritten(langs)))
  {
    var records := new Row[|rows|](i requires 0 <= i < |rows| => rows[i]);
    assert records[..] == rows;
    r := WriteFiles(records, langs);
  }

  /** The loop of lines 109-110: one call per target, all on the same records. */
  method WriteFiles(records: array<Row>, targets: seq<string>) returns (r: Result<seq<(string, seq<string>)>, ReverseError>)
    requires "extras" !in targets
    modifies records
    ensures records[..] == EmitAll(old(records[..]), targets).rows
    ensures r == WriteOutcome(EmitAll(old(records[..]), targets))
  {
    ghost var rows := records[..];
    var files: seq<(string, seq<string>)> := [];
    assert targets[..0] == [];
    for k := 0 to |targets|
      invariant EmitAll(rows, targets[..k]) == Written(files, records[..], None)
    {
      assert targets[..k + 1][..k] == targets[..k];
      ghost var e := EmitRows(records[..], targets[k]);
      assert EmitAll(rows, targets[..k + 1]) ==
        if e.error.Some? then Written(files, e.rows, e.error)
        else Written(files + [(FolderName(targets[k]), XmlFile(e.lines))], e.rows, None);
      var written := CreateStringXml(records, targets[k]);
      if written.Err? {
        EmitAllStops(rows, targets, k + 1);
        return Err(EmitFailed(written.error));
      }
      files := files + [(FolderName(targets[k]), written.value)];
    }
    assert targets[..|targets|] == targets;
    r := Ok(files);
  }

  /** Once a call fails, the later targets write nothing. */
  lemma {:induction false} EmitAllStops(rows: seq<Row>, targets: seq<string>, n: nat)
    requires "extras" !in targets && n <= |targets|
    requires EmitAll(rows, targets[..n]).error.Some?
    ensures EmitAll(rows, targets) == EmitAll(rows, targets[..n])
    decreases |targets| - n
  {
    if n < |targets| {
      assert targets[..n + 1][..n] == targets[..n];
      EmitAllStops(rows, targets, n + 1);
    } else {
      assert targets[..n] == targets;
    }
  }

  /**
   * As written, a successful run writes one folder per header language, in
   * order, and `values` only when the header names a language `default`.
   */
  lemma ConvertBackFoldersAsWritten(text: string, sep: char)
    requires ReadAsWritten(text, sep).Ok? ==> "extras" !in ReadAsWritten(text, sep).value.1
    requires ConvertBack(text, sep).Ok?
    ensures var files := ConvertBack(text, sep).value;
      var langs := ReadAsWritten(text, sep).value.1;
      && |files| == |langs|
      && (forall k :: 0 <= k < |langs| ==> files[k].0 == FolderName(langs[k]))
      && (DefaultLanguage !in langs ==> forall k :: 0 <= k < |files| ==> files[k].0 != "values")
  {
    var langs := ReadAsWritten(text, sep).value.1;
    if DefaultLanguage !in langs {
      DefaultFolderSkipped(langs);
    }
  }

  /** A successful corrected run writes the default folder first, then one folder per header language, in order. */
  lemma ConvertBackFolders(text: string, sep: char)
    requires Read(text, sep).Ok? ==> "extras" !in Read(text, sep).value.1
    requires ConvertBackCorrected(text, sep).Ok?
    ensures var files := ConvertBackCorrected(text, sep).value;
      var langs := Read(text, sep).value.1;
      && |files| == |langs| + 1
      && files[0].0 == "values"
      && forall k :: 0 <= k < |langs| ==> files[k + 1].0 == FolderName(langs[k])
  {
  }

  /**
   * The default call's changes to the records do not reach the other
   * languages: a record it extends is one they skip.
   */
  lemma EmitRowAfterDefault(row: Row, lang: string)
    requires lang != "extras" && lang != DefaultLanguage
    ensures EmitRow(EmitRow(row, DefaultLanguage).row, lang) == EmitRow(row, lang).(row := EmitRow(row, DefaultLanguage).row)
  {
  }

  /** Emitting another language after the default one writes what it would have written first. */
  lemma {:induction false} EmitRowsAfterDefault(rows: seq<Row>, lang: string)
    requires lang != "extras" && lang != DefaultLanguage
    ensures var after := EmitRows(rows, DefaultLanguage).rows;
      && EmitRows(after, lang).lines == EmitRows(rows, lang).lines
      && EmitRows(after, lang).error == EmitRows(rows, lang).error
    decreases |rows|
  {
    if rows != [] {
      var n := |rows| - 1;
      var prefix := rows[..n];
      var after := EmitRows(rows, DefaultLanguage).rows;
      var afterPrefix := EmitRows(prefix, DefaultLanguage).rows;
      EmitRowsAfterDefault(prefix, lang);
      assert after[..n] == afterPrefix;
      var last := if EmitRows(prefix, DefaultLanguage).error.Some? then rows[n] else EmitRow(rows[n], DefaultLanguage).row;
      assert after == afterPrefix + [last];
      assert after[..n] == afterPrefix;
      EmitRowAfterDefault(rows[n], lang);
    }
  }
}
