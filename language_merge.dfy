/**
 * Merging one language's `strings.xml` into the canonical entry list: each
 * node with both a name and a text writes its text under the language code of
 * the canonical entry the index points to. The entry list is changed in place;
 * a name the index does not know raises `KeyError` and stops the run.
 */
module LanguageMerge {
  import opened Wrappers
  import opened Attrs
  import opened DefaultTable

  /** Every position in the index is a valid entry position. */
  predicate ValidIndex(index: map<string, nat>, size: nat) {
    forall n :: n in index ==> index[n] < size
  }

  /** The name and text of a language node, when it carries both. */
  function Translation(node: Node): Option<(string, string)> {
    match (Get(node, NameKey), Get(node, TextKey))
    case (Some(name), Some(text)) => Some((name, text))
    case _ => None
  }

  /** The entries the merge loop reaches, and the unknown name that stopped it, if any. */
  datatype Merged = Merged(entries: seq<Node>, missing: Option<string>)

  /** The merge loop over `nodes`, as a fold from the left. */
  function MergeNodes(entries: seq<Node>, index: map<string, nat>, lang: string, nodes: seq<Node>): (r: Merged)
    requires ValidIndex(index, |entries|)
    ensures |r.entries| == |entries|
    decreases |nodes|
  {
    if nodes == [] then Merged(entries, None)
    else
      var prev := MergeNodes(entries, index, lang, nodes[..|nodes| - 1]);
      if prev.missing.Some? then prev
      else match Translation(nodes[|nodes| - 1])
        case None => prev
        case Some((name, text)) =>
          if name in index then
            var k := index[name];
            Merged(prev.entries[k := Set(prev.entries[k], lang, text)], None)
          else Merged(prev.entries, Some(name))
  }

  /** The text of the last node in `nodes` that targets entry `i`. */
  function LastTranslation(index: map<string, nat>, nodes: seq<Node>, i: nat): Option<string>
    decreases |nodes|
  {
    if nodes == [] then None
    else match Translation(nodes[|nodes| - 1])
      case Some((name, text)) =>
        if name in index && index[name] == i then Some(text)
        else LastTranslation(index, nodes[..|nodes| - 1], i)
      case None => LastTranslation(index, nodes[..|nodes| - 1], i)
  }

  /** The name of the first node, in file order, that has a text and a name the index lacks. */
  function FirstUnknown(index: map<string, nat>, nodes: seq<Node>): Option<string>
    decreases |nodes|
  {
    if nodes == [] then None
    else match Translation(nodes[0])
      case Some((name, _)) => if name !in index then Some(name) else FirstUnknown(index, nodes[1..])
      case None => FirstUnknown(index, nodes[1..])
  }

  /**
   * `process_res_folder`, lines 48-51, for one language: the entry array is
   * updated in place; `missing` is the name that raised `KeyError`, and the
   * array then holds what the nodes before it wrote.
   */
  method MergeLanguage(entries: array<Node>, index: map<string, nat>, lang: string, nodes: seq<Node>)
    returns (missing: Option<string>)
    requires ValidIndex(index, entries.Length)
    modifies entries
    ensures Merged(entries[..], missing) == MergeNodes(old(entries[..]), index, lang, nodes)
  {
    ghost var original := entries[..];
    missing := None;
    var i := 0;
    while i < |nodes|
      invariant 0 <= i <= |nodes|
      invariant MergeNodes(original, index, lang, nodes[..i]) == Merged(entries[..], None)
    {
      MergeStep(original, index, lang, nodes, i);
      var node := nodes[i];
      var text := Get(node, TextKey);
      var name := Get(node, NameKey);
      if text.Some? && name.Some? {
        if name.value !in index {
          missing := Some(name.value);
          PrefixStops(original, index, lang, nodes, i + 1);
          return;
        }
        var k := index[name.value];
        entries[k] := Set(entries[k], lang, text.value);
      }
      i := i + 1;
    }
    assert nodes[..i] == nodes;
  }

  /** One step of the fold: the node at `i` applied to what the nodes before it left. */
  lemma MergeStep(entries: seq<Node>, index: map<string, nat>, lang: string, nodes: seq<Node>, i: nat)
    requires ValidIndex(index, |entries|) && i < |nodes|
    requires MergeNodes(entries, index, lang, nodes[..i]).missing.None?
    ensures var prev := MergeNodes(entries, index, lang, nodes[..i]).entries;
      var name := Get(nodes[i], NameKey);
      var text := Get(nodes[i], TextKey);
      MergeNodes(entries, index, lang, nodes[..i + 1]) ==
        if text.Some? && name.Some? then
          if name.value in index then
            Merged(prev[index[name.value] := Set(prev[index[name.value]], lang, text.value)], None)
          else Merged(prev, Some(name.value))
        else Merged(prev, None)
  {
    assert nodes[..i + 1][..i] == nodes[..i] && nodes[..i + 1][i] == nodes[i];
  }

  /** Once a prefix of the nodes stops on an unknown name, the whole merge stops there. */
  lemma {:induction false} PrefixStops(entries: seq<Node>, index: map<string, nat>, lang: string, nodes: seq<Node>, n: nat)
    requires ValidIndex(index, |entries|)
    requires n <= |nodes|
    requires MergeNodes(entries, index, lang, nodes[..n]).missing.Some?
    ensures MergeNodes(entries, index, lang, nodes) == MergeNodes(entries, index, lang, nodes[..n])
    decreases |nodes| - n
  {
    if n < |nodes| {
      assert nodes[..n + 1][..n] == nodes[..n];
      PrefixStops(entries, index, lang, nodes, n + 1);
    } else {
      assert nodes[..n] == nodes;
    }
  }

  /** The merge writes no key other than the language code. */
  lemma {:induction false} MergeOnlyWritesLanguage(entries: seq<Node>, index: map<string, nat>, lang: string, nodes: seq<Node>)
    requires ValidIndex(index, |entries|)
    ensures forall i, k :: 0 <= i < |entries| && k != lang ==>
      Get(MergeNodes(entries, index, lang, nodes).entries[i], k) == Get(entries[i], k)
    decreases |nodes|
  {
    if nodes != [] {
      MergeOnlyWritesLanguage(entries, index, lang, nodes[..|nodes| - 1]);
    }
  }

  /** An entry that no node targets comes out unchanged, whether or not the merge fails. */
  lemma {:induction false} MergeLeavesUntargeted(entries: seq<Node>, index: map<string, nat>, lang: string, nodes: seq<Node>, i: nat)
    requires ValidIndex(index, |entries|)
    requires i < |entries| && LastTranslation(index, nodes, i).None?
    ensures MergeNodes(entries, index, lang, nodes).entries[i] == entries[i]
    decreases |nodes|
  {
    if nodes != [] {
      MergeLeavesUntargeted(entries, index, lang, nodes[..|nodes| - 1], i);
    }
  }

  /** A successful merge leaves each targeted entry with the text of the last node naming it. */
  lemma {:induction false} MergeWritesLastText(entries: seq<Node>, index: map<string, nat>, lang: string, nodes: seq<Node>, i: nat)
    requires ValidIndex(index, |entries|)
    requires i < |entries| && LastTranslation(index, nodes, i).Some?
    requires MergeNodes(entries, index, lang, nodes).missing.None?
    ensures Get(MergeNodes(entries, index, lang, nodes).entries[i], lang) == LastTranslation(index, nodes, i)
    decreases |nodes|
  {
    var prefix := nodes[..|nodes| - 1];
    var prev := MergeNodes(entries, index, lang, prefix);
    match Translation(nodes[|nodes| - 1])
    case Some((name, text)) =>
      if !(name in index && index[name] == i) {
        MergeWritesLastText(entries, index, lang, prefix, i);
      }
    case None =>
      MergeWritesLastText(entries, index, lang, prefix, i);
  }

  lemma {:induction false} FirstUnknownSnoc(index: map<string, nat>, nodes: seq<Node>, node: Node)
    ensures FirstUnknown(index, nodes + [node]) ==
      if FirstUnknown(index, nodes).Some? then FirstUnknown(index, nodes) else FirstUnknown(index, [node])
    decreases |nodes|
  {
    if nodes != [] {
      assert (nodes + [node])[1..] == nodes[1..] + [node];
      FirstUnknownSnoc(index, nodes[1..], node);
    }
  }

  /** The merge fails exactly on the first node, in file order, whose name the index lacks. */
  lemma {:induction false} MergeFailsOnFirstUnknown(entries: seq<Node>, index: map<string, nat>, lang: string, nodes: seq<Node>)
    requires ValidIndex(index, |entries|)
    ensures MergeNodes(entries, index, lang, nodes).missing == FirstUnknown(index, nodes)
    decreases |nodes|
  {
    if nodes != [] {
      var prefix := nodes[..|nodes| - 1];
      MergeFailsOnFirstUnknown(entries, index, lang, prefix);
      FirstUnknownSnoc(index, prefix, nodes[|nodes| - 1]);
      assert prefix + [nodes[|nodes| - 1]] == nodes;
    }
  }

  /** No unknown name is reported exactly when every node with text and name is indexed. */
  lemma {:induction false} FirstUnknownNone(index: map<string, nat>, nodes: seq<Node>)
    ensures FirstUnknown(index, nodes).None? <==>
      forall j :: 0 <= j < |nodes| && Translation(nodes[j]).Some? ==> Translation(nodes[j]).value.0 in index
    decreases |nodes|
  {
    if nodes != [] {
      FirstUnknownNone(index, nodes[1..]);
      assert forall j :: 1 <= j < |nodes| ==> nodes[j] == nodes[1..][j - 1];
    }
  }
}
