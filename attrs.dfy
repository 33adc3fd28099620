/**
 * One parsed `<string>` element, as the XML library hands it over: an ordered
 * dictionary from keys (`@name`, `#text`, `@translatable`, `@comment`, any
 * other `@attr`, and the language codes the merge adds) to text. Python dicts
 * keep insertion order, and the table writer iterates over it, so a node is a
 * sequence of pairs rather than a map.
 */
module Attrs {
  import opened Wrappers

  type Attr = (string, string)
  type Node = seq<Attr>

  /** `d[k]` when `k in d`. */
  function Get(d: Node, k: string): (r: Option<string>)
    ensures r.Some? <==> exists i :: 0 <= i < |d| && d[i].0 == k
    ensures r.Some? ==> (k, r.value) in d
    decreases |d|
  {
    if d == [] then None
    else if d[0].0 == k then Some(d[0].1)
    else Get(d[1..], k)
  }

  /** `d[k] if k in d else dflt`. */
  function GetOr(d: Node, k: string, dflt: string): string {
    Get(d, k).GetOr(dflt)
  }

  /** The keys of `d`, in order. */
  function Keys(d: Node): (ks: seq<string>)
    ensures |ks| == |d| && forall i :: 0 <= i < |d| ==> ks[i] == d[i].0
  {
    seq(|d|, i requires 0 <= i < |d| => d[i].0)
  }

  /**
   * `d[k] = v`: an existing key keeps its position and gets the new value; a
   * new key goes to the end.
   */
  function Set(d: Node, k: string, v: string): (r: Node)
    ensures Get(r, k) == Some(v)
    ensures forall k' :: k' != k ==> Get(r, k') == Get(d, k')
    ensures Get(d, k).Some? ==> |r| == |d|
    ensures Get(d, k).None? ==> r == d + [(k, v)]
    decreases |d|
  {
    if d == [] then [(k, v)]
    else if d[0].0 == k then [(k, v)] + d[1..]
    else [d[0]] + Set(d[1..], k, v)
  }

  /** Overwriting an existing key leaves every pair with another key where it was. */
  lemma {:induction false} SetKeepsOtherPairs(d: Node, k: string, v: string)
    ensures forall i :: 0 <= i < |d| && d[i].0 != k ==> i < |Set(d, k, v)| && Set(d, k, v)[i] == d[i]
    decreases |d|
  {
    if d != [] && d[0].0 != k {
      SetKeepsOtherPairs(d[1..], k, v);
    }
  }

  /** Overwriting an existing key keeps the keys and their order. */
  lemma SetKeepsKeys(d: Node, k: string, v: string)
    requires Get(d, k).Some?
    ensures Keys(Set(d, k, v)) == Keys(d)
  {
    var r := Set(d, k, v);
    SetKeepsKeyAt(d, k, v);
    assert forall i :: 0 <= i < |d| ==> Keys(r)[i] == Keys(d)[i];
  }

  /** Assigning to a key already present keeps the length and the key at every position. */
  lemma {:induction false} SetKeepsKeyAt(d: Node, k: string, v: string)
    requires Get(d, k).Some?
    ensures |Set(d, k, v)| == |d|
    ensures forall i :: 0 <= i < |d| ==> Set(d, k, v)[i].0 == d[i].0
    decreases |d|
  {
    if d[0].0 != k {
      SetKeepsKeyAt(d[1..], k, v);
    }
  }
}
