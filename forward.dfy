/**
 * `process_res_folder`: from a resource folder to the delimited table. The
 * folder listing, the parsed default file and the parsed language files are
 * inputs; the result is the list of lines written to the table file.
 */
module Forward {
  import opened Wrappers
  import opened Attrs
  import opened DefaultTable
  import opened LanguageMerge
  import opened TableWriter

  datatype ConvertError =
    | MissingDefaultFile
    | UnknownName(name: string)
    | RowUnbound

  predicate IsLowerLetter(c: char) {
    'a' <= c <= 'z'
  }

  /** A full match of `values-[a-z]{2}`. */
  predicate IsLanguageFolder(f: string) {
    |f| == 9 && f[..7] == "values-" && IsLowerLetter(f[7]) && IsLowerLetter(f[8])
  }

  /** The language folders among the sub-folders, in listing order. */
  function LanguageFolders(subFolders: seq<string>): (folders: seq<string>)
    ensures forall f :: f in folders <==> f in subFolders && IsLanguageFolder(f)
    ensures forall j :: 0 <= j < |folders| ==> IsLanguageFolder(folders[j])
    decreases |subFolders|
  {
    if subFolders == [] then []
    else (if IsLanguageFolder(subFolders[0]) then [subFolders[0]] else []) + LanguageFolders(subFolders[1..])
  }

  /** `f[-2:]`: the language code at the end of a folder name. */
  function LanguageCode(f: string): string {
    if |f| >= 2 then f[|f| - 2..] else f
  }

  function Codes(folders: seq<string>): (codes: seq<string>)
    ensures |codes| == |folders| && forall j :: 0 <= j < |folders| ==> codes[j] == LanguageCode(folders[j])
  {
    seq(|folders|, j requires 0 <= j < |folders| => LanguageCode(folders[j]))
  }

  /** Distinct language folders have distinct codes. */
  lemma CodesDistinct(f: string, g: string)
    requires IsLanguageFolder(f) && IsLanguageFolder(g) && f != g
    ensures LanguageCode(f) != LanguageCode(g)
  {
    assert f == f[..7] + LanguageCode(f) && g == g[..7] + LanguageCode(g);
  }

  /** No language code is one of the keys the default file itself uses. */
  lemma CodeIsNotAttributeKey(f: string)
    requires IsLanguageFolder(f)
    ensures LanguageCode(f) != NameKey && LanguageCode(f) != TextKey
    ensures LanguageCode(f) != TranslatableKey && LanguageCode(f) != CommentKey
  {
  }

  /**
   * The language loop: each folder whose `strings.xml` exists is merged in
   * turn, under its code; the first unknown name stops the run.
   */
  function MergeAll(entries: seq<Node>, index: map<string, nat>, folders: seq<string>, files: map<string, seq<Node>>): (r: Merged)
    requires ValidIndex(index, |entries|)
    ensures |r.entries| == |entries|
    decreases |folders|
  {
    if folders == [] then Merged(entries, None)
    else
      var prev := MergeAll(entries, index, folders[..|folders| - 1], files);
      var f := folders[|folders| - 1];
      if prev.missing.Some? || f !in files then prev
      else MergeNodes(prev.entries, index, LanguageCode(f), files[f])
  }

  /** The whole conversion, as a value. */
  function Convert(subFolders: seq<string>, defaultFile: Option<seq<Node>>, files: map<string, seq<Node>>, sep: char)
    : Result<seq<string>, ConvertError>
  {
    if ValueFolder !in subFolders || defaultFile.None? then Err(MissingDefaultFile)
    else
      var nodes := defaultFile.value;
      var folders := LanguageFolders(subFolders);
      var merged := MergeAll(nodes, NameIndex(nodes), folders, files);
      if merged.missing.Some? then Err(UnknownName(merged.missing.value))
      else match TableLines(merged.entries, Codes(folders), sep)
        case Ok(lines) => Ok(lines)
        case Err(_) => Err(RowUnbound)
  }

  /**
   * `process_res_folder`, lines 35-72. `subFolders` is the folder listing,
   * `defaultFile` the parsed `values/strings.xml` (None when it is missing),
   * and `files` maps each language folder whose `strings.xml` exists to its
   * parsed nodes.
   */
  method ProcessResFolder(subFolders: seq<string>, defaultFile: Option<seq<Node>>, files: map<string, seq<Node>>, sep: char)
    returns (r: Result<seq<string>, ConvertError>)
    ensures r == Convert(subFolders, defaultFile, files, sep)
  {
    var folders := LanguageFolders(subFolders);
    var loaded := ReadDefStringFile(subFolders, defaultFile);
    if loaded.Err? {
      return Err(MissingDefaultFile);
    }
    var (nodes, index) := loaded.value;
    NameIndexUnique(index, NameIndex(nodes), nodes);
    var entries := new Node[|nodes|](i requires 0 <= i < |nodes| => nodes[i]);
    assert entries[..] == nodes;
    var missing := MergeFolders(entries, index, folders, files);
    if missing.Some? {
      return Err(UnknownName(missing.value));
    }
    var languages := Codes(folders);
    var written := WriteTable(entries[..], languages, sep);
    if written.Err? {
      return Err(RowUnbound);
    }
    r := Ok(written.value);
  }

  /** The language loop of lines 40-51, merging each folder's file into `entries` in place. */
  method MergeFolders(entries: array<Node>, index: map<string, nat>, folders: seq<string>, files: map<string, seq<Node>>)
    returns (missing: Option<string>)
    requires ValidIndex(index, entries.Length)
    modifies entries
    ensures MergeAll(old(entries[..]), index, folders, files) == Merged(entries[..], missing)
  {
    ghost var original := entries[..];
    assert folders[..0] == [];
    for j := 0 to |folders|
      invariant MergeAll(original, index, folders[..j], files) == Merged(entries[..], None)
    {
      assert folders[..j + 1][..j] == folders[..j];
      var f := folders[j];
      if f in files {
        ghost var before := entries[..];
        missing := MergeLanguage(entries, index, LanguageCode(f), files[f]);
        assert MergeAll(original, index, folders[..j + 1], files) == MergeNodes(before, index, LanguageCode(f), files[f]);
        if missing.Some? {
          PrefixFails(original, index, folders, files, j + 1);
          return;
        }
      }
    }
    assert folders[..|folders|] == folders;
    missing := None;
  }

  /** Once the language loop stops on an unknown name, the later folders change nothing. */
  lemma {:induction false} PrefixFails(entries: seq<Node>, index: map<string, nat>, folders: seq<string>, files: map<string, seq<Node>>, n: nat)
    requires ValidIndex(index, |entries|) && n <= |folders|
    requires MergeAll(entries, index, folders[..n], files).missing.Some?
    ensures MergeAll(entries, index, folders, files) == MergeAll(entries, index, folders[..n], files)
    decreases |folders| - n
  {
    if n < |folders| {
      assert folders[..n + 1][..n] == folders[..n];
      PrefixFails(entries, index, folders, files, n + 1);
    } else {
      assert folders[..n] == folders;
    }
  }

  /** The conversion fails for want of a default file exactly when `values/strings.xml` is absent. */
  lemma ConvertNeedsDefault(subFolders: seq<string>, defaultFile: Option<seq<Node>>, files: map<string, seq<Node>>, sep: char)
    ensures Convert(subFolders, defaultFile, files, sep) == Err(MissingDefaultFile) <==>
      ValueFolder !in subFolders || defaultFile.None?
  {
  }

  /** The language loop writes no key other than the language codes. */
  lemma {:induction false} MergeAllOnlyWritesCodes(entries: seq<Node>, index: map<string, nat>, folders: seq<string>, files: map<string, seq<Node>>)
    requires ValidIndex(index, |entries|)
    ensures forall i, k :: 0 <= i < |entries| && k !in Codes(folders) ==>
      Get(MergeAll(entries, index, folders, files).entries[i], k) == Get(entries[i], k)
    decreases |folders|
  {
    if folders != [] {
      var prefix := folders[..|folders| - 1];
      MergeAllOnlyWritesCodes(entries, index, prefix, files);
      var prev := MergeAll(entries, index, prefix, files);
      var f := folders[|folders| - 1];
      if prev.missing.None? && f in files {
        MergeOnlyWritesLanguage(prev.entries, index, LanguageCode(f), files[f]);
      }
      forall i, k | 0 <= i < |entries| && k !in Codes(folders)
        ensures Get(MergeAll(entries, index, folders, files).entries[i], k) == Get(entries[i], k)
      {
        assert k != LanguageCode(f) by {
          assert Codes(folders)[|folders| - 1] == LanguageCode(f);
        }
        assert k !in Codes(prefix);
      }
    }
  }

  /** The merged entries keep their name, text, translatable flag and comment. */
  lemma MergeAllKeepsEntries(entries: seq<Node>, index: map<string, nat>, folders: seq<string>, files: map<string, seq<Node>>)
    requires ValidIndex(index, |entries|)
    requires forall j :: 0 <= j < |folders| ==> IsLanguageFolder(folders[j])
    ensures forall i :: 0 <= i < |entries| ==>
      var e := MergeAll(entries, index, folders, files).entries[i];
      && NameOf(e) == NameOf(entries[i]) && Get(e, TextKey) == Get(entries[i], TextKey)
      && Get(e, TranslatableKey) == Get(entries[i], TranslatableKey)
      && Get(e, CommentKey) == Get(entries[i], CommentKey)
  {
    MergeAllOnlyWritesCodes(entries, index, folders, files);
    forall j | 0 <= j < |folders|
      ensures Codes(folders)[j] != NameKey && Codes(folders)[j] != TextKey
      ensures Codes(folders)[j] != TranslatableKey && Codes(folders)[j] != CommentKey
    {
      CodeIsNotAttributeKey(folders[j]);
    }
    assert NameKey !in Codes(folders) && TextKey !in Codes(folders);
    assert TranslatableKey !in Codes(folders) && CommentKey !in Codes(folders);
  }

  /** The language loop fails exactly when some merged file names an entry the default file lacks. */
  lemma {:induction false} MergeAllFails(entries: seq<Node>, index: map<string, nat>, folders: seq<string>, files: map<string, seq<Node>>)
    requires ValidIndex(index, |entries|)
    ensures MergeAll(entries, index, folders, files).missing.Some? <==>
      exists j :: 0 <= j < |folders| && folders[j] in files && FirstUnknown(index, files[folders[j]]).Some?
    decreases |folders|
  {
    if folders != [] {
      var prefix := folders[..|folders| - 1];
      MergeAllFails(entries, index, prefix, files);
      var prev := MergeAll(entries, index, prefix, files);
      var f := folders[|folders| - 1];
      assert forall j :: 0 <= j < |prefix| ==> prefix[j] == folders[j];
      if prev.missing.None? && f in files {
        MergeFailsOnFirstUnknown(prev.entries, index, LanguageCode(f), files[f]);
      }
    }
  }

  /**
   * After a successful language loop over distinct language folders, each
   * entry carries, under a folder's code, the text of the last node of that
   * folder's file that names it, or what it had before when none does.
   */
  lemma {:induction false} MergeAllWrites(entries: seq<Node>, index: map<string, nat>, folders: seq<string>, files: map<string, seq<Node>>, j: nat, i: nat)
    requires ValidIndex(index, |entries|) && i < |entries| && j < |folders|
    requires forall a, b :: 0 <= a < b < |folders| ==> LanguageCode(folders[a]) != LanguageCode(folders[b])
    requires folders[j] in files
    requires MergeAll(entries, index, folders, files).missing.None?
    ensures Get(MergeAll(entries, index, folders, files).entries[i], LanguageCode(folders[j])) ==
      if LastTranslation(index, files[folders[j]], i).Some? then LastTranslation(index, files[folders[j]], i)
      else Get(entries[i], LanguageCode(folders[j]))
    decreases |folders|
  {
    var n := |folders| - 1;
    var prefix := folders[..n];
    var prev := MergeAll(entries, index, prefix, files);
    var f := folders[n];
    var code := LanguageCode(folders[j]);
    if prev.missing.Some? || f !in files {
      assert j < n;
      assert prefix[j] == folders[j];
      assert forall a :: 0 <= a < n ==> prefix[a] == folders[a];
      MergeAllWrites(entries, index, prefix, files, j, i);
    } else if j == n {
      MergeAllOnlyWritesCodes(entries, index, prefix, files);
      assert forall a :: 0 <= a < n ==> Codes(prefix)[a] == LanguageCode(folders[a]) != code;
      assert code !in Codes(prefix);
      assert Get(prev.entries[i], code) == Get(entries[i], code);
      if LastTranslation(index, files[f], i).Some? {
        MergeWritesLastText(prev.entries, index, code, files[f], i);
      } else {
        MergeLeavesUntargeted(prev.entries, index, code, files[f], i);
      }
    } else {
      assert prefix[j] == folders[j];
      assert forall a :: 0 <= a < n ==> prefix[a] == folders[a];
      MergeAllWrites(entries, index, prefix, files, j, i);
      assert LanguageCode(f) != code;
      MergeOnlyWritesLanguage(prev.entries, index, LanguageCode(f), files[f]);
      assert Get(MergeAll(entries, index, folders, files).entries[i], code) == Get(prev.entries[i], code);
    }
  }

  /** A successful conversion writes the header with one column per language folder, then one line per entry. */
  lemma ConvertShape(subFolders: seq<string>, defaultFile: Option<seq<Node>>, files: map<string, seq<Node>>, sep: char)
    requires Convert(subFolders, defaultFile, files, sep).Ok?
    ensures var lines := Convert(subFolders, defaultFile, files, sep).value;
      && |lines| == |defaultFile.value| + 1
      && lines[0] == Header(Codes(LanguageFolders(subFolders)), sep)
  {
  }

  /** The entries after the language loop of a conversion. */
  function MergedEntries(subFolders: seq<string>, nodes: seq<Node>, files: map<string, seq<Node>>): (entries: seq<Node>)
    ensures |entries| == |nodes|
    ensures forall i :: 0 <= i < |nodes| ==>
      && NameOf(entries[i]) == NameOf(nodes[i]) && Get(entries[i], TextKey) == Get(nodes[i], TextKey)
      && NotTranslatable(entries[i]) == NotTranslatable(nodes[i])
      && Describable(entries[i]) == Describable(nodes[i])
  {
    MergeAllKeepsEntries(nodes, NameIndex(nodes), LanguageFolders(subFolders), files);
    MergeAll(nodes, NameIndex(nodes), LanguageFolders(subFolders), files).entries
  }

  /** What a successful conversion consists of. */
  lemma ConvertOk(subFolders: seq<string>, defaultFile: Option<seq<Node>>, files: map<string, seq<Node>>, sep: char)
    requires Convert(subFolders, defaultFile, files, sep).Ok?
    ensures defaultFile.Some? && ValueFolder in subFolders
    ensures var nodes := defaultFile.value;
      var rows := RowLines(MergedEntries(subFolders, nodes, files), Codes(LanguageFolders(subFolders)), sep);
      && MergeAll(nodes, NameIndex(nodes), LanguageFolders(subFolders), files).missing.None?
      && rows.Ok?
      && Convert(subFolders, defaultFile, files, sep).value == [Header(Codes(LanguageFolders(subFolders)), sep)] + rows.value
  {
  }

  /** A successful conversion writes each named or comment entry as its own line, after the merge. */
  lemma ConvertWritesEntries(subFolders: seq<string>, defaultFile: Option<seq<Node>>, files: map<string, seq<Node>>, sep: char, i: nat)
    requires Convert(subFolders, defaultFile, files, sep).Ok?
    requires i < |defaultFile.value| && Describable(defaultFile.value[i])
    ensures var entry := MergedEntries(subFolders, defaultFile.value, files)[i];
      Convert(subFolders, defaultFile, files, sep).value[i + 1] == RowLine(entry, Codes(LanguageFolders(subFolders)), sep)
  {
    ConvertOk(subFolders, defaultFile, files, sep);
    RowLinesRows(MergedEntries(subFolders, defaultFile.value, files), Codes(LanguageFolders(subFolders)), sep, i);
  }

  /**
   * End to end: when the conversion succeeds and the sub-folders are
   * distinct, a named, translatable entry holds in a language folder's
   * column the text the last node of that folder's file gave it, or what the
   * default file had under that code (usually nothing, so the empty cell).
   */
  lemma ConvertCarriesTranslation(subFolders: seq<string>, defaultFile: Option<seq<Node>>, files: map<string, seq<Node>>, sep: char, i: nat, j: nat)
    requires Convert(subFolders, defaultFile, files, sep).Ok?
    requires forall a, b :: 0 <= a < b < |subFolders| ==> subFolders[a] != subFolders[b]
    requires i < |defaultFile.value| && NameOf(defaultFile.value[i]).Some? && !NotTranslatable(defaultFile.value[i])
    requires j < |LanguageFolders(subFolders)| && LanguageFolders(subFolders)[j] in files
    ensures var nodes := defaultFile.value;
      var folders := LanguageFolders(subFolders);
      var last := LastTranslation(NameIndex(nodes), files[folders[j]], i);
      RowCells(MergedEntries(subFolders, nodes, files)[i], Codes(folders))[j + 2] ==
        if last.Some? then last.value else GetOr(nodes[i], Codes(folders)[j], "")
  {
    var nodes := defaultFile.value;
    var folders := LanguageFolders(subFolders);
    var index := NameIndex(nodes);
    var entry := MergedEntries(subFolders, nodes, files)[i];
    LanguageFoldersDistinct(subFolders);
    forall a, b | 0 <= a < b < |folders|
      ensures LanguageCode(folders[a]) != LanguageCode(folders[b])
    {
      CodesDistinct(folders[a], folders[b]);
    }
    ConvertOk(subFolders, defaultFile, files, sep);
    MergeAllWrites(nodes, index, folders, files, j, i);
    RowCellsLanguage(entry, Codes(folders), j);
  }

  /** Distinct sub-folders give distinct language folders. */
  lemma {:induction false} LanguageFoldersDistinct(subFolders: seq<string>)
    requires forall a, b :: 0 <= a < b < |subFolders| ==> subFolders[a] != subFolders[b]
    ensures var folders := LanguageFolders(subFolders);
      forall a, b :: 0 <= a < b < |folders| ==> folders[a] != folders[b]
    decreases |subFolders|
  {
    if subFolders != [] {
      var rest := subFolders[1..];
      LanguageFoldersDistinct(rest);
      assert subFolders[0] !in rest by {
        assert forall a :: 0 <= a < |rest| ==> rest[a] == subFolders[a + 1];
      }
      assert subFolders[0] !in LanguageFolders(rest);
    }
  }
}
