/**
 * Loading the canonical table (`values/strings.xml`): the pre-pass that turns
 * indented comments into pseudo `<string comment="..."/>` elements, the check
 * that the file exists, and the name-to-position index.
 */
module DefaultTable {
  import opened Wrappers
  import opened Attrs

  const ValueFolder: string := "values"
  const NameKey: string := "@name"
  const TextKey: string := "#text"
  const TranslatableKey: string := "@translatable"
  const CommentKey: string := "@comment"

  datatype LoadError = NoDefaultStringFile

  function NameOf(node: Node): Option<string> {
    Get(node, NameKey)
  }

  /** The names carried by the nodes. */
  ghost function Names(nodes: seq<Node>): set<string> {
    set i | 0 <= i < |nodes| && NameOf(nodes[i]).Some? :: NameOf(nodes[i]).value
  }

  /**
   * `index` covers exactly the names in `nodes` and maps each one to the last
   * position that carries it.
   */
  ghost predicate IsNameIndex(index: map<string, nat>, nodes: seq<Node>) {
    && index.Keys == Names(nodes)
    && (forall n :: n in index ==> index[n] < |nodes| && NameOf(nodes[index[n]]) == Some(n))
    && (forall n, j :: n in index && index[n] < j < |nodes| ==> NameOf(nodes[j]) != Some(n))
  }

  /** One step of the index loop: the node at `pos` claims its name, if it has one. */
  function IndexStep(index: map<string, nat>, node: Node, pos: nat): map<string, nat> {
    match NameOf(node)
    case Some(n) => index[n := pos]
    case None => index
  }

  lemma NamesSnoc(nodes: seq<Node>, node: Node)
    ensures Names(nodes + [node]) == Names(nodes) + (if NameOf(node).Some? then {NameOf(node).value} else {})
  {
    var s := nodes + [node];
    var extra := if NameOf(node).Some? then {NameOf(node).value} else {};
    forall n | n in Names(s) ensures n in Names(nodes) + extra {
      var i :| 0 <= i < |s| && NameOf(s[i]).Some? && NameOf(s[i]).value == n;
      if i < |nodes| {
        assert s[i] == nodes[i];
      }
    }
    forall n | n in Names(nodes) + extra ensures n in Names(s) {
      if n in Names(nodes) {
        var i :| 0 <= i < |nodes| && NameOf(nodes[i]).Some? && NameOf(nodes[i]).value == n;
        assert s[i] == nodes[i];
      } else {
        assert s[|nodes|] == node;
      }
    }
  }

  /** Appending a node keeps the index property, the new node winning for its name. */
  lemma IndexStepKeepsIndex(index: map<string, nat>, nodes: seq<Node>, node: Node)
    requires IsNameIndex(index, nodes)
    ensures IsNameIndex(IndexStep(index, node, |nodes|), nodes + [node])
  {
    NamesSnoc(nodes, node);
    IndexStepPoints(index, nodes, node);
    IndexStepLatest(index, nodes, node);
  }

  /** After the step every indexed name points at a node that carries it. */
  lemma IndexStepPoints(index: map<string, nat>, nodes: seq<Node>, node: Node)
    requires IsNameIndex(index, nodes)
    ensures var s, next := nodes + [node], IndexStep(index, node, |nodes|);
      forall n :: n in next ==> next[n] < |s| && NameOf(s[next[n]]) == Some(n)
  {
    var s := nodes + [node];
    var next := IndexStep(index, node, |nodes|);
    forall n | n in next ensures next[n] < |s| && NameOf(s[next[n]]) == Some(n) {
      if NameOf(node) != Some(n) {
        assert next[n] == index[n];
        assert s[index[n]] == nodes[index[n]];
      } else {
        assert s[|nodes|] == node;
      }
    }
  }

  /** After the step no later node carries an indexed name. */
  lemma IndexStepLatest(index: map<string, nat>, nodes: seq<Node>, node: Node)
    requires IsNameIndex(index, nodes)
    ensures var s, next := nodes + [node], IndexStep(index, node, |nodes|);
      forall n, j :: n in next && next[n] < j < |s| ==> NameOf(s[j]) != Some(n)
  {
    var s := nodes + [node];
    var next := IndexStep(index, node, |nodes|);
    forall n, j | n in next && next[n] < j < |s| ensures NameOf(s[j]) != Some(n) {
      if NameOf(node) != Some(n) {
        assert next[n] == index[n];
        if j < |nodes| {
          assert s[j] == nodes[j];
        } else {
          assert s[j] == node;
        }
      }
    }
  }

  /** The index as a value: later nodes overwrite earlier ones. */
  function NameIndex(nodes: seq<Node>): (index: map<string, nat>)
    ensures IsNameIndex(index, nodes)
    decreases |nodes|
  {
    if nodes == [] then map[]
    else
      var last := |nodes| - 1;
      var index := NameIndex(nodes[..last]);
      IndexStepKeepsIndex(index, nodes[..last], nodes[last]);
      assert nodes[..last] + [nodes[last]] == nodes;
      IndexStep(index, nodes[last], last)
  }

  /** Only one map satisfies the index property, so the loop and the fold agree. */
  lemma NameIndexUnique(a: map<string, nat>, b: map<string, nat>, nodes: seq<Node>)
    requires IsNameIndex(a, nodes) && IsNameIndex(b, nodes)
    ensures a == b
  {
    forall n | n in a ensures n in b && a[n] == b[n] {
      assert NameOf(nodes[a[n]]) == Some(n) && NameOf(nodes[b[n]]) == Some(n);
    }
  }

  /** The loop of `read_def_string_file` that fills `indices_dict`. */
  method BuildIndex(nodes: seq<Node>) returns (index: map<string, nat>)
    ensures IsNameIndex(index, nodes)
    ensures index == NameIndex(nodes)
  {
    index := map[];
    for i := 0 to |nodes|
      invariant IsNameIndex(index, nodes[..i])
    {
      IndexStepKeepsIndex(index, nodes[..i], nodes[i]);
      assert nodes[..i] + [nodes[i]] == nodes[..i + 1];
      if NameOf(nodes[i]).Some? {
        index := index[NameOf(nodes[i]).value := i];
      }
    }
    assert nodes[..|nodes|] == nodes;
    NameIndexUnique(index, NameIndex(nodes), nodes);
  }

  /**
   * `read_def_string_file`: `subFolders` lists the resource folder and
   * `defaultFile` is the parsed `values/strings.xml`, or None when that file
   * does not exist.
   */
  method ReadDefStringFile(subFolders: seq<string>, defaultFile: Option<seq<Node>>)
    returns (r: Result<(seq<Node>, map<string, nat>), LoadError>)
    ensures r.Err? <==> ValueFolder !in subFolders || defaultFile.None?
    ensures r.Ok? ==> r.value.0 == defaultFile.value && IsNameIndex(r.value.1, r.value.0)
  {
    if ValueFolder !in subFolders || defaultFile.None? {
      return Err(NoDefaultStringFile);
    }
    var nodes := defaultFile.value;
    var index := BuildIndex(nodes);
    r := Ok((nodes, index));
  }

  predicate OpenerAt(line: string, i: nat) {
    i + 4 <= |line| && line[i..i + 4] == "<!--"
  }

  /** `line` holds `<!--` somewhere. */
  predicate HasCommentOpener(line: string) {
    exists i: nat | i < |line| :: OpenerAt(line, i)
  }

  /** A line that is exactly a comment indented by four spaces, `    <!--T-->`. */
  predicate IsIndentedComment(line: string) {
    |line| >= 11 && line[..8] == "    <!--" && line[|line| - 3..] == "-->" && '\n' !in line
  }

  /**
   * The comment pre-pass on one line, for the two kinds of line it is
   * modelled on: an indented comment becomes a pseudo element whose `comment`
   * attribute carries the whole text between `<!--` and the final `-->`, and a
   * line without `<!--` cannot match and stays as it is.
   */
  function RewriteCommentLine(line: string): string
    requires IsIndentedComment(line) || !HasCommentOpener(line)
  {
    if IsIndentedComment(line) then "    <string comment=\"" + line[8..|line| - 3] + "\"/>" else line
  }

  /** The text of an indented comment, `-->` included, ends up verbatim in the attribute. */
  lemma RewriteIndentedComment(text: string)
    requires '\n' !in text
    ensures IsIndentedComment("    <!--" + text + "-->")
    ensures RewriteCommentLine("    <!--" + text + "-->") == "    <string comment=\"" + text + "\"/>"
  {
    var line := "    <!--" + text + "-->";
    assert line[..8] == "    <!--";
    assert line[|line| - 3..] == "-->";
    assert line[8..|line| - 3] == text;
  }

  lemma RewriteKeepsOtherLines(line: string)
    requires !HasCommentOpener(line)
    ensures RewriteCommentLine(line) == line
  {
    if IsIndentedComment(line) {
      assert line[4..8] == line[..8][4..8];
      assert OpenerAt(line, 4);
    }
  }
}
