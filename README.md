# strings.xml ⇄ delimited table, modelled in Dafny

`string_xml_to_csv.py` converts the string resources of an Android project
into one delimited table and back.

- **Forward** (`process_res_folder`):
  - reads the canonical `values/strings.xml`, turning indented comments into pseudo elements first;
  - indexes its strings by name;
  - merges into it the texts of every `values-xx/strings.xml`;
  - writes a header `key, default, xx…, extra_arguments` and one row per string or comment.
- **Reverse** (`process_csv_file`):
  - reads the table back into records: blank, comment, or string with its fields and extras list;
  - writes one `strings.xml` per language, sharing the records between the languages.

The model has one module per part of the program:

| module | file | part of the program | flavour |
|---|---|---|---|
| `Wrappers` | `wrappers.dfy` | `Option`, `Result` | values |
| `Strings` | `strings.dfy` | the Python `str` operations used: `isspace`, `strip`, `split(sep)`, `split()`, `join`, `replace` | functions and lemmas |
| `Attrs` | `attrs.dfy` | a parsed element as an insertion-ordered dict (a sequence of pairs) | functions |
| `DefaultTable` | `default_table.dfy` | `read_def_string_file`: the comment pre-pass, the missing-file error and the name index | method with a loop, against a fold |
| `LanguageMerge` | `language_merge.dfy` | the merge of one language file into the canonical list | a method updating an `array<Node>` in place, against a fold |
| `TableWriter` | `table_writer.dfy` | `escape_unicodes`, the header, the cells and the lines of the table | a method with loops, against functions |
| `Forward` | `forward.dfy` | `process_res_folder` as a whole | a method, against a spec function |
| `TableReader` | `table_reader.dfy` | `get_string_dicts_from_csv` | methods with loops, against functions |
| `XmlEmitter` | `xml_emitter.dfy` | `create_string_xml` | a method updating the shared records (`array<Row>`) in place |
| `Reverse` | `reverse.dfy` | `process_csv_file` | a method, against a spec function |
| `RoundTrip` | `roundtrip.dfy` | what survives table writing, reading and XML writing | lemmas |

The file system becomes parameters:
- the folder listing is a `seq<string>`;
- the parsed default file is an `Option<seq<Node>>`, `None` when the file does not exist;
- the parsed language files are a map from folder name to nodes;
- the table is its text;
- every written file is the list of its lines.

## Where the code does not do what a user might expect

The model follows the code in each case.

- A user might expect a language file's strings that the default file lacks to be ignored. Instead, the first such name raises `KeyError` at line 50 and stops the run. See `LanguageMerge.MergeFailsOnFirstUnknown` and `Forward.MergeAllFails`.
- A user might expect the default file to keep every string. Instead, a string whose default text is empty is skipped there too (line 128). See `XmlEmitter.EmitEntrySkipped`.
- A user might expect reading the table to restore the characters `escape_unicodes` replaced. It does not: an escaped zero-width space stays the six characters `\u200b` in the emitted XML. `TableWriter.EscapeNotInjective` shows that no reading could restore it in every case.

## Model

| member | source | states |
|---|---|---|
| `Attrs.Get` | string_xml_to_csv.py:49-50 | `d[k]` is present exactly when some pair has key `k`, and the pair found is in the node |
| `Attrs.Set` | string_xml_to_csv.py:51 | assigning `d[k] = v` makes `k` map to `v`, leaves every other key's value alone, keeps the length when `k` was present and appends the pair otherwise |
| `Attrs.SetKeepsOtherPairs` | string_xml_to_csv.py:51 | assignment leaves every pair with another key at its position |
| `Attrs.SetKeepsKeys` | string_xml_to_csv.py:51 | assigning to a key already present keeps the keys and their order |
| `Attrs.SetKeepsKeyAt` | string_xml_to_csv.py:51 | assigning to a key already present keeps the length and the key at every position |
| `Strings.TrimStart` | string_xml_to_csv.py:147 | the leading whitespace, and only that, is removed |
| `Strings.TrimEnd` | string_xml_to_csv.py:147 | the trailing whitespace, and only that, is removed |
| `Strings.Strip` | string_xml_to_csv.py:145-150 | `strip()` leaves no whitespace at either edge |
| `Strings.StripKeepsSpaceFreeEdges` | string_xml_to_csv.py:150 | `strip()` leaves a line without whitespace at its edges unchanged |
| `Strings.StripEmpty` | string_xml_to_csv.py:145 | a line strips to `""` exactly when every character is whitespace |
| `Strings.StripEmptyAllSpace` | string_xml_to_csv.py:145 | the same, stated with the blank-line predicate the reader uses |
| `Strings.Split` | string_xml_to_csv.py:150 | `split(sep)` always gives at least one field |
| `Strings.SplitFieldsLackSeparator` | string_xml_to_csv.py:150 | no field of `split(sep)` holds the separator |
| `Strings.SplitNoSeparator` | string_xml_to_csv.py:150 | a text without the separator splits into itself |
| `Strings.SplitAtSeparator` | string_xml_to_csv.py:150 | a first separator cuts off the first field |
| `Strings.SplitConcat` | string_xml_to_csv.py:150 | the fields around a separator are those of the two sides |
| `Strings.SplitWithSeparator` | string_xml_to_csv.py:150 | `split(sep)` gives more than one field exactly when the text holds the separator |
| `Strings.SplitSingleEmpty` | string_xml_to_csv.py:152 | `split` gives the single empty field exactly for `""` |
| `Strings.SplitJoin` | string_xml_to_csv.py:72 | splitting a join gives the parts back when no part holds the separator |
| `Strings.JoinSnoc` | string_xml_to_csv.py:55 | joining one more part appends the separator and the part |
| `Strings.JoinFirst` | string_xml_to_csv.py:55 | a join starts with the first part's first character |
| `Strings.JoinLast` | string_xml_to_csv.py:55 | a join ends with the last part |
| `Strings.JoinEdges` | string_xml_to_csv.py:55 | a join starts with the first part and ends with the last |
| `Strings.JoinAvoids` | string_xml_to_csv.py:72 | a character in neither the separator nor any part is not in the join |
| `Strings.JoinNoSpace` | string_xml_to_csv.py:55 | whitespace-free parts joined on a non-whitespace separator give no whitespace |
| `Strings.ReplaceCharAppend` | string_xml_to_csv.py:85 | `replace` distributes over concatenation |
| `Strings.ReplaceCharAbsent` | string_xml_to_csv.py:85 | `replace` leaves a text without the pattern unchanged |
| `Strings.ReplaceCharRemoves` | string_xml_to_csv.py:85 | after `replace`, the pattern is gone unless the replacement brings it back |
| `Strings.JoinSplitIsReplace` | string_xml_to_csv.py:162 | `'="'.join(x.split("="))` replaces every `=`, not only the first |
| `Strings.TokenLength` | string_xml_to_csv.py:147 | the leading run of non-whitespace ends at whitespace or at the end |
| `Strings.SplitWhitespace` | string_xml_to_csv.py:147 | `split()` gives non-empty tokens without whitespace |
| `Strings.SplitWhitespaceToken` | string_xml_to_csv.py:147 | a text without whitespace is one token |
| `Strings.SplitWhitespaceAtSpace` | string_xml_to_csv.py:147 | whitespace after a first token cuts it off |
| `Strings.SplitWhitespaceJoin` | string_xml_to_csv.py:147 | `split()` undoes a join on a whitespace character of non-empty, whitespace-free tokens |
| `DefaultTable.NameIndex` | string_xml_to_csv.py:98-101 | the index covers exactly the names in the file and maps each to the last position carrying it |
| `DefaultTable.IndexStepKeepsIndex` | string_xml_to_csv.py:99-101 | one loop step keeps that property, the new node winning for its name |
| `DefaultTable.IndexStepPoints` | string_xml_to_csv.py:99-101 | after the step each indexed name points at a node that carries it |
| `DefaultTable.IndexStepLatest` | string_xml_to_csv.py:99-101 | after the step no later node carries an indexed name |
| `DefaultTable.NamesSnoc` | string_xml_to_csv.py:100-101 | the indexed names grow by the new node's name, if it has one |
| `DefaultTable.NameIndexUnique` | string_xml_to_csv.py:98-101 | only one map has that property, so any loop that keeps it computes the same index |
| `DefaultTable.BuildIndex` | string_xml_to_csv.py:98-101 | the loop computes the index: last position per name |
| `DefaultTable.ReadDefStringFile` | string_xml_to_csv.py:87-102 | fails with `NoDefaultStringFile` exactly when `values` is not listed or its `strings.xml` is missing; otherwise returns the nodes and their name index |
| `DefaultTable.RewriteIndentedComment` | string_xml_to_csv.py:96 | an indented comment line `    <!--T-->` becomes `    <string comment="T"/>` with `T` verbatim |
| `DefaultTable.RewriteKeepsOtherLines` | string_xml_to_csv.py:96 | a line without `<!--` is left unchanged |
| `LanguageMerge.MergeNodes` | string_xml_to_csv.py:48-51 | the merge keeps the number of entries |
| `LanguageMerge.MergeLanguage` | string_xml_to_csv.py:48-51 | updating the entry array in place leaves it as the fold of the merge over the file's nodes, and reports the name that raised |
| `LanguageMerge.MergeStep` | string_xml_to_csv.py:48-51 | one node more sets the language on the indexed entry when it has a name and a text, raises on an unknown name, and is skipped otherwise |
| `LanguageMerge.PrefixStops` | string_xml_to_csv.py:50 | once a node raises `KeyError`, the later nodes change nothing |
| `LanguageMerge.MergeOnlyWritesLanguage` | string_xml_to_csv.py:51 | the merge writes no key other than the language code |
| `LanguageMerge.MergeLeavesUntargeted` | string_xml_to_csv.py:49-51 | an entry no node names is unchanged |
| `LanguageMerge.MergeWritesLastText` | string_xml_to_csv.py:49-51 | after a successful merge, a named entry carries the text of the last node naming it |
| `LanguageMerge.FirstUnknownSnoc` | string_xml_to_csv.py:49-50 | the first unknown name of a longer file is that of its prefix, else the new node's |
| `LanguageMerge.MergeFailsOnFirstUnknown` | string_xml_to_csv.py:49-50 | the merge fails exactly on the first node, in file order, with a text and a name the index lacks |
| `LanguageMerge.FirstUnknownNone` | string_xml_to_csv.py:49-50 | no name is unknown exactly when every node with text and name is indexed |
| `TableWriter.EscapeIsCharWise` | string_xml_to_csv.py:85 | the two chained `replace` calls escape character by character |
| `TableWriter.EscapeRemovesInvisibles` | string_xml_to_csv.py:85 | no zero-width space or non-breaking hyphen is left after escaping |
| `TableWriter.EscapeKeepsPlainText` | string_xml_to_csv.py:85 | text without them is unchanged |
| `TableWriter.EscapeCellsPlain` | string_xml_to_csv.py:72 | cells without either invisible character are written unchanged |
| `TableWriter.EscapeAppend` | string_xml_to_csv.py:85 | escaping distributes over concatenation |
| `TableWriter.EscapeNotInjective` | string_xml_to_csv.py:85 | a zero-width space and the literal text `\u200b` escape to the same cell |
| `TableWriter.ExtraAttrsAppend` | string_xml_to_csv.py:65-67 | the extras filter keeps the node's order: it distributes over concatenation |
| `TableWriter.ExtraAttrsMembers` | string_xml_to_csv.py:65-67 | an attribute is an extra exactly when its key is not excluded |
| `TableWriter.ExtrasCellEmpty` | string_xml_to_csv.py:64-68 | the extras cell is empty exactly when every key of the node is excluded |
| `TableWriter.RowCellsLanguage` | string_xml_to_csv.py:59-63 | a named row has a cell per language plus three, and column `j + 2` is language `j`'s cell |
| `TableWriter.RowCellsLayout` | string_xml_to_csv.py:57-70 | a named row is the name, the text (empty when absent), a cell per language and the extras cell; a comment row is its single comment cell |
| `TableWriter.ExtrasIgnoreTranslatable` | string_xml_to_csv.py:66 | the value of `@translatable` never reaches the extras cell |
| `TableWriter.TranslatableOnlyAffectsLanguageCells` | string_xml_to_csv.py:57-68 | setting `@translatable` changes only the language cells: the name, text and extras cells stay the same |
| `TableWriter.ExtraAttrsSameKeys` | string_xml_to_csv.py:65-67 | rewriting excluded keys' values does not change the extras |
| `TableWriter.RenderEntry` | string_xml_to_csv.py:57-70 | the loop computes the cells: name, text (empty when absent), the language cells (all `not-translatable` when the string is marked so) and the extras cell; a comment gives the single cell `\n%%c%%` |
| `TableWriter.LookUpValues` | string_xml_to_csv.py:60 | the values list has a cell per key, holding the node's value or the empty text |
| `TableWriter.MarkNotTranslatable` | string_xml_to_csv.py:61-63 | every cell from the third on becomes `not-translatable`; the first two stay |
| `TableWriter.CollectExtras` | string_xml_to_csv.py:64-67 | the loop collects one `name=value` item per attribute outside the excluded keys, in the node's order |
| `TableWriter.RowLines` | string_xml_to_csv.py:56-72 | one line per entry |
| `TableWriter.RowLinesFails` | string_xml_to_csv.py:58-72 | writing fails exactly when the first entry has neither name nor comment, the only case where `values` is unbound |
| `TableWriter.RowLinesPrefix` | string_xml_to_csv.py:56-72 | the lines of a prefix of the entries are a prefix of the lines |
| `TableWriter.RowLinesRows` | string_xml_to_csv.py:58-72 | a describable entry gets its own row; any other entry repeats the row before it |
| `TableWriter.TableLinesUnbound` | string_xml_to_csv.py:58-72 | a first entry with neither a name nor a comment makes the whole table fail |
| `TableWriter.WriteStep` | string_xml_to_csv.py:57-72 | one loop step: an entry with a name or a comment appends its own row, any other entry repeats the last row |
| `TableWriter.WriteRow` | string_xml_to_csv.py:57-72 | the loop body writes an entry's cells escaped and joined by the separator |
| `TableWriter.WriteTable` | string_xml_to_csv.py:54-72 | the loop writes the header and then those rows, or fails as above |
| `Forward.LanguageFolders` | string_xml_to_csv.py:37-38 | a folder is a language folder exactly when it is listed and fully matches `values-[a-z]{2}`; listing order is kept |
| `Forward.Codes` | string_xml_to_csv.py:53 | each column is the last two characters of its folder |
| `Forward.CodesDistinct` | string_xml_to_csv.py:45 | different language folders have different codes |
| `Forward.CodeIsNotAttributeKey` | string_xml_to_csv.py:45-51 | a code is never `@name`, `#text`, `@translatable` or `@comment`, so merging never overwrites them |
| `Forward.LanguageFoldersDistinct` | string_xml_to_csv.py:38 | distinct listing entries give distinct language folders |
| `Forward.MergeAll` | string_xml_to_csv.py:40-51 | the language loop keeps the number of entries |
| `Forward.ProcessResFolder` | string_xml_to_csv.py:35-72 | the whole conversion computes `Convert`: the missing-default error, the first unknown name, or the table lines |
| `Forward.MergeFolders` | string_xml_to_csv.py:40-51 | the folder loop leaves the entry array as the merge of every folder's file in turn, or reports the first unknown name |
| `Forward.PrefixFails` | string_xml_to_csv.py:40-51 | once a folder stops the loop, later folders change nothing |
| `Forward.ConvertNeedsDefault` | string_xml_to_csv.py:39 | the conversion fails for want of the default file exactly when it is absent |
| `Forward.MergeAllOnlyWritesCodes` | string_xml_to_csv.py:51 | the loop writes only keys that are language codes |
| `Forward.MergeAllKeepsEntries` | string_xml_to_csv.py:51 | each entry keeps its name, text, translatable flag and comment |
| `Forward.MergeAllFails` | string_xml_to_csv.py:41-50 | the loop fails exactly when some existing language file names a string the default file lacks |
| `Forward.MergeAllWrites` | string_xml_to_csv.py:40-51 | after a successful loop, an entry carries under each code the text of the last node naming it in that folder's file, or what it had before |
| `Forward.ConvertShape` | string_xml_to_csv.py:53-56 | a successful conversion writes the header with one column per language folder, then one line per entry |
| `Forward.MergedEntries` | string_xml_to_csv.py:40-51 | the merged entries keep name, text, translatable flag and describability |
| `Forward.ConvertOk` | string_xml_to_csv.py:35-72 | success means the default file exists, no name was unknown, and the lines are the header followed by the rows of the merged entries |
| `Forward.ConvertWritesEntries` | string_xml_to_csv.py:56-72 | each named or comment entry is written as its own line, after the merge |
| `Forward.ConvertCarriesTranslation` | string_xml_to_csv.py:40-63 | end to end, a translatable string's cell in a language column is the last text that language's file gave it, or its own value under that code |
| `TableReader.Lines` | string_xml_to_csv.py:144-149 | no line handed out holds a newline |
| `TableReader.FindHeader` | string_xml_to_csv.py:144-146 | the header is the first non-blank line; there is none exactly when every line is blank |
| `TableReader.FirstNonBlank` | string_xml_to_csv.py:144-146 | a non-blank line preceded only by blank lines is the header |
| `TableReader.SkipBlankNeverEnds` | string_xml_to_csv.py:144-146 | as written, the header loop never ends on a file of blank lines, however many calls are made |
| `TableReader.SkipBlankFindsHeader` | string_xml_to_csv.py:144-146 | as written, when there is a header, the loop stops on it |
| `TableReader.SkipBlankLines` | string_xml_to_csv.py:144-146 | the loop, stopping at the end of the file, finds `FindHeader` |
| `TableReader.Slice` | string_xml_to_csv.py:147 | `[2:-1]` drops the first two and the last field |
| `TableReader.HeaderAsWrittenFindsNone` | string_xml_to_csv.py:147 | a header without whitespace yields no language |
| `TableReader.CommentMatch` | string_xml_to_csv.py:18 | a match is a non-empty run without `%` between `%%` and `%%` at the start of the line |
| `TableReader.NonPercentRun` | string_xml_to_csv.py:18 | `[^%]+` stops at the first `%` or at the end of the line |
| `TableReader.CommentMatchOf` | string_xml_to_csv.py:151 | `%%c%%…` matches with group `c` when `c` is non-empty and free of `%` |
| `TableReader.NonPercentRunOf` | string_xml_to_csv.py:18 | the run over `c` followed by `%` is exactly `c` |
| `TableReader.RequoteItem` | string_xml_to_csv.py:162 | the item `name=value` becomes `name="value"` |
| `TableReader.RequoteAll` | string_xml_to_csv.py:162 | every item is requoted, in order |
| `TableReader.ZipInto` | string_xml_to_csv.py:168 | `update(zip(…))` adds exactly the keys that are paired with a value to the fields |
| `TableReader.ZipIntoValues` | string_xml_to_csv.py:168 | each paired key holds its own value unless a later pair repeats it, and every unpaired field keeps its value |
| `TableReader.ParseLineBlank` | string_xml_to_csv.py:152-154 | a line gives the empty record exactly when it is blank, as written and corrected |
| `TableReader.ParseLineAsWrittenFails` | string_xml_to_csv.py:158 | as written, a line gives `None`, the unpacking's `ValueError`, exactly when it is not blank, not a comment and has no separator |
| `TableReader.ParseLineAgrees` | string_xml_to_csv.py:150-170 | the corrected reading of a line agrees with the code on every line the code accepts, unless the line ends in an empty extras cell |
| `TableReader.ExtraCellsAgree` | string_xml_to_csv.py:160-161 | the extras items as written and corrected are the same unless the last cell lies past the languages and is empty |
| `TableReader.ParseCommentLine` | string_xml_to_csv.py:155-157 | `%%c%%` is read as the comment `c`, by the code and by the corrected reading |
| `TableReader.ReadRows` | string_xml_to_csv.py:149-170 | the corrected reading (findings 4 and 5): one record per line after the header |
| `TableReader.ReadEachOf` | string_xml_to_csv.py:149-170 | when each line, read on its own, gives a record, the loop gets through and gives those records in order |
| `TableReader.ReadEachAt` | string_xml_to_csv.py:149-170 | when the loop gets through, it gives one record per line and each record is that line's own |
| `TableReader.ReadEachSnoc` | string_xml_to_csv.py:149-170 | one line more that the loop gets through appends its record to those of the lines before it |
| `TableReader.ReadEachFails` | string_xml_to_csv.py:158 | one line that raises makes the whole loop raise |
| `TableReader.ReadRowsAsWrittenFails` | string_xml_to_csv.py:158 | as written, reading a run of lines gives `None`, the unpacking's `ValueError`, exactly when some line has a single field |
| `TableReader.ReadRowsAsWrittenOf` | string_xml_to_csv.py:149-170 | as written, lines that each parse into a record are read into those records, in order |
| `TableReader.ReadRowsAsWrittenAt` | string_xml_to_csv.py:149-170 | as written, when reading gets through, there is one record per line and each is that line's own |
| `TableReader.ReadRowsOf` | string_xml_to_csv.py:149-170 | in the corrected reading, lines that each parse into a record are read into those records, in order |
| `TableReader.ReadRowsAgree` | string_xml_to_csv.py:149-170 | the corrected reading of a run of lines equals the code's when the code reads every line and no line ends in an empty extras cell |
| `TableReader.ReadFromAgrees` | string_xml_to_csv.py:144-170 | the corrected reading of a whole table equals the code's when, in addition, splitting the header at whitespace and at the separator gives the same languages |
| `TableReader.ParseLines` | string_xml_to_csv.py:149-170 | the loop computes the records of the lines as the code reads them, or `None`, the unpacking's `ValueError`, when a line has a single field |
| `TableReader.ReadTable` | string_xml_to_csv.py:141-171 | reading the file computes `ReadAsWritten` on its text: the header's whitespace-separated words as languages, the `ValueError` of a line with a single field, and the item `"` for an empty extras cell. The header search stops at the end of the file (see "Left out") |
| `TableReader.ReadLines` | string_xml_to_csv.py:144-170 | reading the lines computes `ReadFromAsWritten`: skip the blank lines, split the header at whitespace for the languages, parse every later line as the code does or fail |
| `TableReader.ReadNeedsHeader` | string_xml_to_csv.py:144-158 | as written, reading finds no header exactly when every line is blank (where the code loops forever), and fails with the unpacking error exactly when a line after the header has a single field; the corrected reading fails only when every line is blank |
| `TableReader.ReadFromAsWrittenTooFewFields` | string_xml_to_csv.py:147-158 | as written, the unpacking error exactly when a line after the header has a single field, with the languages line 147 finds |
| `XmlEmitter.FolderNameInjective` | string_xml_to_csv.py:116 | different languages are written to different folders |
| `XmlEmitter.Chars` | string_xml_to_csv.py:130 | a text in place of the extras list is joined character by character |
| `XmlEmitter.EmitRows` | string_xml_to_csv.py:122-137 | the loop keeps one record per record |
| `XmlEmitter.CreateStringXml` | string_xml_to_csv.py:114-138 | the file is the prolog, `<resources>`, the records' lines and `</resources>`; the records end up as the fold leaves them, extended in place by the default call |
| `XmlEmitter.EmitRowsStops` | string_xml_to_csv.py:122-137 | after a record raises, no more lines are written and the rest are untouched |
| `XmlEmitter.EmitStep` | string_xml_to_csv.py:122-137 | after records that raised nothing, one record more adds its own line, record and error to the fold |
| `XmlEmitter.EmitAdvance` | string_xml_to_csv.py:122-137 | writing the processed record back at its index keeps the processed records ahead of the untouched ones |
| `XmlEmitter.EmitRowNonDefault` | string_xml_to_csv.py:131-134 | another language's call changes no record and fails on none with a key |
| `XmlEmitter.EmitRowsNonDefault` | string_xml_to_csv.py:122-137 | another language's call leaves every record as it was |
| `XmlEmitter.EmitEntrySkipped` | string_xml_to_csv.py:128-133 | a string is skipped exactly when it has no text in the language, or is untranslatable and the language is not the default |
| `XmlEmitter.EmitEntryPlain` | string_xml_to_csv.py:135-136 | another language's line carries the name and text only |
| `XmlEmitter.EmitDefaultUntranslatable` | string_xml_to_csv.py:131-136 | the default line of an untranslatable string carries its extras and then `translatable="…"`, and the record keeps the extended list |
| `Reverse.Targets` | string_xml_to_csv.py:115-116 | the corrected targets (finding 1): the default language first, then every header language, in order. Line 109 as written iterates the header languages only |
| `Reverse.Folders` | string_xml_to_csv.py:116 | the folder of each target |
| `Reverse.DefaultFolderSkipped` | string_xml_to_csv.py:109 | as written, `values` is never written unless the header names a language `default` |
| `Reverse.ForwardTablesSkipDefault` | string_xml_to_csv.py:53-55 | as written, `values` is never written for a table the forward direction wrote |
| `Reverse.FolderNameOfCode` | string_xml_to_csv.py:116 | a two-letter code is written to the folder the forward direction reads it from |
| `Reverse.EmitAll` | string_xml_to_csv.py:109-110 | one file per target until a call fails, each named after its target |
| `Reverse.ProcessCsvFile` | string_xml_to_csv.py:105-110 | the conversion computes `ConvertBack`: the table read as the code reads it, then one call per header language, in order, all on the same records; the result is the reading error, the first failed call, or the files |
| `Reverse.WriteBack` | string_xml_to_csv.py:109-110 | the calls for the header languages only, all on the same records, give the files or the first error |
| `Reverse.WriteFiles` | string_xml_to_csv.py:109-110 | the loop, with all calls on the same records, computes `EmitAll` |
| `Reverse.EmitAllStops` | string_xml_to_csv.py:109-110 | after a call fails, later targets write nothing |
| `Reverse.ConvertBackFoldersAsWritten` | string_xml_to_csv.py:109-116 | as written, a successful run writes one folder per header language, in order, and `values` only when the header names a language `default` |
| `Reverse.ConvertBackFolders` | string_xml_to_csv.py:109-116 | the corrected conversion (`ConvertBackCorrected`, finding 1) writes `values` first, then one folder per header language, in order |
| `Reverse.EmitRowAfterDefault` | string_xml_to_csv.py:131-134 | the default call's change to a record does not alter another language's line for it |
| `Reverse.EmitRowsAfterDefault` | string_xml_to_csv.py:109-110 | so another language's file and error are those it would have had if written first |
| `RoundTrip.LinesOfTable` | string_xml_to_csv.py:72 | reading a written table gives its lines, each split at the newlines it holds |
| `RoundTrip.PhysicalAppend` | string_xml_to_csv.py:72 | the lines read back from two written runs of lines are those of each |
| `RoundTrip.SplitJoinedLines` | string_xml_to_csv.py:72 | the lines joined by newlines split back into the physical lines |
| `RoundTrip.HeaderCells` | string_xml_to_csv.py:55 | the header has a cell per language plus three |
| `RoundTrip.HeaderStripped` | string_xml_to_csv.py:55 | the header is not blank and `strip` leaves it unchanged |
| `RoundTrip.HeaderRoundTrip` | string_xml_to_csv.py:55 | splitting the written header at the separator gives back its languages |
| `RoundTrip.HeaderAsWrittenRoundTrip` | string_xml_to_csv.py:147 | as written, the languages come back when the separator is whitespace and no language has any |
| `RoundTrip.HeaderAsWrittenLosesLanguages` | string_xml_to_csv.py:147 | as written, any other separator loses every language |
| `RoundTrip.ReadWrittenTable` | string_xml_to_csv.py:141-171 | the code reads a written table with its header on the first line, the header's whitespace-separated words as languages, and the rows' lines read as the code reads them. Those words are the written languages for a whitespace separator and none for any other |
| `RoundTrip.ReadWrittenTableCorrected` | string_xml_to_csv.py:54-72 | the corrected reading of a written table finds its header on the first line, its languages, and its rows' lines as records |
| `RoundTrip.WrittenLines` | string_xml_to_csv.py:54-72 | the written text reads back as the header line followed by the physical lines of the rows |
| `RoundTrip.CommentNode` | string_xml_to_csv.py:69-70 | a pseudo element with only a comment has no name and is written as a comment row |
| `RoundTrip.CommentRowLines` | string_xml_to_csv.py:70-72 | a comment row is read back as an empty line and `%%c%%` |
| `RoundTrip.CommentRowRead` | string_xml_to_csv.py:151-157 | those two lines become a blank record and the comment `c`, by the code and by the corrected reading |
| `RoundTrip.CommentRowEmitted` | string_xml_to_csv.py:123-126 | each file writes them as an empty line and `    <!--c-->` |
| `RoundTrip.CommentRoundTrip` | string_xml_to_csv.py:69-70 | a comment is written as `\n%%c%%` and the code reads it as a blank record and the comment. Every file writes these as an empty line and `<!--c-->`, which the pre-pass turns back into the same pseudo element |
| `RoundTrip.EntryLineSplits` | string_xml_to_csv.py:72 | a clean row is one line, unchanged by `strip`, not a comment, splitting into its cells |
| `RoundTrip.JoinedLine` | string_xml_to_csv.py:72 | cells with neither the separator nor a newline, with no space at either end and no leading `%`, join into one line that `strip` keeps, that is no comment and that splits back into the cells |
| `RoundTrip.JoinedLineEdges` | string_xml_to_csv.py:72 | such a line is left alone by `strip` and is not taken for a comment |
| `RoundTrip.JoinedLinePhysical` | string_xml_to_csv.py:72 | such a line is a single physical line |
| `RoundTrip.ExtrasRoundTrip` | string_xml_to_csv.py:160-162 | in the corrected reading (finding 5), where an empty cell holds no item, the extras cell reads back as exactly the quoted attributes `name="value"` |
| `RoundTrip.ExtrasCellEmptyIff` | string_xml_to_csv.py:64-68 | the extras cell is empty exactly when the node has no extra attribute |
| `RoundTrip.ExtrasRead` | string_xml_to_csv.py:160-162 | the extras list the code builds for a clean row: the quoted attributes, or the lone item `"` when the node has none |
| `RoundTrip.ExtrasRoundTripAsWritten` | string_xml_to_csv.py:160-162 | as written, the extras cell reads back as that list |
| `RoundTrip.QuotedExtras` | string_xml_to_csv.py:162 | one quoted attribute per extra attribute of the node |
| `RoundTrip.CleanRowParses` | string_xml_to_csv.py:150-170 | the code reads a clean row, translatable or not, as the record built from its name, text, cells and the last cell split at `;` |
| `RoundTrip.EntryParses` | string_xml_to_csv.py:150-170 | the code reads a clean translatable row as the record of its name and texts, with its quoted extras, or the item `"` when it has none |
| `RoundTrip.EntryFieldsContent` | string_xml_to_csv.py:163-168 | that record holds exactly the key, the default text and one text per language |
| `RoundTrip.EntryFieldsReserved` | string_xml_to_csv.py:163-168 | the record has a key and a default text, and no `translatable`, `comment` or `extras` field |
| `RoundTrip.EntryEmittedDefault` | string_xml_to_csv.py:128-136 | the default file writes the record with whatever extras list it carries, when it has a default text |
| `RoundTrip.EntryEmittedLanguage` | string_xml_to_csv.py:128-136 | a language's file writes the record with the name only, when it has a text there, whatever its extras |
| `RoundTrip.EntryRoundTrip` | string_xml_to_csv.py:57-72 | a clean translatable string is one line of the table; the code reads it back and writes `<string name="k" extras>text</string>` to the default file, where the extras are its own attributes, or the stray `"` when it has none, and `<string name="k">t</string>` to each language's file with a text |
| `RoundTrip.UntranslatableParses` | string_xml_to_csv.py:164-167 | through a table with a language, the code reads an untranslatable row back with `translatable` `false` and the extras list `ExtrasRead` gives |
| `RoundTrip.UntranslatableEmitted` | string_xml_to_csv.py:131-136 | only the default file writes it, with `translatable="false"` after its extras |
| `RoundTrip.UntranslatableEmittedDefault` | string_xml_to_csv.py:131-136 | the default file writes the record with `translatable="false"` after its extras when the text is not empty |
| `RoundTrip.UntranslatableSkipped` | string_xml_to_csv.py:131-133 | any other language skips it |
| `RoundTrip.UntranslatableRoundTrip` | string_xml_to_csv.py:61-63 | an untranslatable string keeps its marker through a table with a language, as the code reads it, and comes back in the default file only, with `translatable="false"` after those extras |
| `RoundTrip.UntranslatableNeedsALanguage` | string_xml_to_csv.py:164 | through a table without languages the code loses the marker; the extras list is still `ExtrasRead`'s |
| `RoundTrip.KeyOnlyLine` | string_xml_to_csv.py:158 | a line with no separator that is neither blank nor a comment is read as a key with empty texts, where the code fails |
| `RoundTrip.KeyOnlyRowCells` | string_xml_to_csv.py:58-68 | a string with a name and nothing else has the cells `k`, an empty text and an empty extras cell |
| `RoundTrip.KeyOnlyRowAsWritten` | string_xml_to_csv.py:158 | a string with only a name, written with tabs, makes the code fail |
| `RoundTrip.KeyOnlyRowRead` | string_xml_to_csv.py:150-158 | `k\t\t` makes the code fail, and the corrected reading gives the key `k` with an empty text |
| `RoundTrip.KeyOnlyRowStrips` | string_xml_to_csv.py:150 | `strip` leaves `k` of `k\t\t`, which is no comment and holds no tab |
| `RoundTrip.KeyOnlyRowWritten` | string_xml_to_csv.py:58-72 | a string with only a name is written with tabs and no language as `k\t\t` |
| `RoundTrip.PlainRowWritten` | string_xml_to_csv.py:58-72 | a plain string `k` with text `v` is written with commas as `k,v,` |
| `RoundTrip.PlainRowCells` | string_xml_to_csv.py:58-68 | a plain string `k` with text `v` has the cells `k`, `v` and an empty extras cell |
| `RoundTrip.PlainJoin` | string_xml_to_csv.py:72 | those cells join with commas into `k,v,` |
| `RoundTrip.PlainRowSplits` | string_xml_to_csv.py:150 | that line splits into `k`, `v` and an empty cell |
| `RoundTrip.RequoteEmpty` | string_xml_to_csv.py:162 | an empty item is requoted as a lone `"` |
| `RoundTrip.PlainEntryEmitted` | string_xml_to_csv.py:135-136 | its record is written to the default file with whatever extras it holds |
| `RoundTrip.EmptyExtrasAsWritten` | string_xml_to_csv.py:160-162 | a plain string written with commas gets a stray `"` attribute as written, and none when an empty cell holds no item |
| `RoundTrip.PlainLineAsWritten` | string_xml_to_csv.py:150-168 | as written, `k,v,` is read as the key `k`, the default text `v` and the extras item `"` |
| `RoundTrip.PlainLineCorrected` | string_xml_to_csv.py:150-168 | in the corrected reading, `k,v,` is read with no extras item |

## Left out

- XML parsing by `xmltodict` (lines 47 and 97) is not part of this model. Parsed files are given as sequences of nodes. The library's habit of returning a single dict, not a list, for a file with one `<string>` is not modelled.
- File I/O is replaced by parameters and results:
  - `os.listdir`, `os.path.exists`, `os.mkdir` and file reads and writes are not modelled;
  - a run that stops on an error leaves no partial file in the model, while the program leaves one behind.
- `read_arguments`, the `__main__` block and the `print` calls (lines 25-32, 46, 52, 107-108 and 174-179) are left out. They only parse arguments and log.
- The separator is a single character. A longer `-sep` is not modelled.
- Lines are split at `\n` only; Python's universal-newline translation of `\r\n` and `\r` is not modelled.
- The comment pre-pass (line 96) is modelled for lines that are exactly an indented comment, and for lines without `<!--`. Lines holding a comment beside other markup, and comments spanning lines, are not.
- `Reverse.ProcessCsvFile`: a header language named `extras` is excluded (required absent), because the program would then write the repr of a Python list into the XML.
- `XmlEmitter.CreateStringXml`: the same exclusion, for the same reason.
- `RoundTrip.EntryRoundTrip` covers clean rows only:
  - cells free of the separator, newlines and the escaped characters;
  - a name that starts with neither whitespace nor `%`;
  - extras items without `;` or `=`;
  - with a whitespace separator such as the default tab, a non-empty extras cell. `strip` removes trailing separators otherwise; that case is not covered.
- `RoundTrip.ReadWrittenTable` covers headers whose languages hold no newline; `RoundTrip.ReadWrittenTableCorrected` covers headers whose cells hold neither the separator nor a newline.
- `TableReader.ReadTable`, `TableReader.ReadLines` and `Reverse.ProcessCsvFile` stop the header search at the end of the file with the error `NoHeader`. On a file of blank lines only, the program loops forever instead (finding 3). This is the only place where they differ from lines 141-171.
- `TableReader.SkipBlankLines`: the same end-of-file stop.
- `Forward.ConvertCarriesTranslation` assumes the listed sub-folders are distinct, as a directory listing's are.

## Findings

The findings are numbered 1 to 5 in the order of the table.

| source | as written | input that shows it | evidently intended | confidence | as-written member | corrected member |
|---|---|---|---|---|---|---|
| string_xml_to_csv.py:109 | writes one file per header language only, so the `is_default` branch at line 115 never runs and `values/strings.xml` is never written | any table the forward direction writes, e.g. header `key default fr extra_arguments` | write the default language to `values` as well, before the header's languages | high, not executed | `Reverse.ForwardTablesSkipDefault` | `Reverse.ConvertBackFolders` |
| string_xml_to_csv.py:147 | splits the header at whitespace rather than at the separator | `-sep ,` with header `key,default,fr,extra_arguments`: no language is found, so no language file is written | split the header at the separator | high, not executed | `RoundTrip.HeaderAsWrittenLosesLanguages` | `RoundTrip.HeaderRoundTrip` |
| string_xml_to_csv.py:144-146 | `readline` returns `""` at the end of the file, which is blank, so the loop never ends | an empty table file, or one of blank lines only | stop at the end of the file and report that there is no header | high, not executed | `TableReader.SkipBlankNeverEnds` | `TableReader.ReadNeedsHeader` |
| string_xml_to_csv.py:158 | the unpacking needs two fields, but `strip` has removed the trailing tabs of a row whose other cells are all empty | `<string name="k"/>` written with the default tab: row `k\t\t`, read as `k`, raises `ValueError` | read the key with empty texts | medium, not executed | `RoundTrip.KeyOnlyRowAsWritten` | `RoundTrip.KeyOnlyLine` |
| string_xml_to_csv.py:160-162 | an empty extras cell past the languages is split into one empty item, requoted as `"` | a string without extra attributes written with `-sep ,` gives the row `k,v,`, whose record carries the extras item `"`. As written, that record reaches no file: a comma header yields no language (finding 2), and `values` is never written (finding 1). Once those two are corrected, `values/strings.xml` gets `<string name="k" ">v</string>` | an empty extras cell holds no item | medium, not executed | `RoundTrip.EmptyExtrasAsWritten` | `RoundTrip.ExtrasRoundTrip` |
