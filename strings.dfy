/**
 * The handful of Python `str` operations the converter relies on, written out
 * on `seq<char>`: `isspace`, `strip`, `split(sep)`, `split()`, `join` and
 * `replace` with a one-character pattern.
 */
module Strings {

  /** Python's `str.isspace` for a single character. */
  predicate IsSpace(c: char) {
    || ('\t' <= c <= '\r')
    || ('\U{1C}' <= c <= '\U{1F}')
    || c == ' ' || c == '\U{85}' || c == '\U{A0}' || c == '\U{1680}'
    || ('\U{2000}' <= c <= '\U{200A}')
    || c == '\U{2028}' || c == '\U{2029}' || c == '\U{202F}' || c == '\U{205F}' || c == '\U{3000}'
  }

  /** No character of `s` is whitespace. */
  predicate NoSpace(s: string) {
    forall i :: 0 <= i < |s| ==> !IsSpace(s[i])
  }

  /** `s` neither begins nor ends with whitespace. */
  predicate SpaceFreeEdges(s: string) {
    s == [] || (!IsSpace(s[0]) && !IsSpace(s[|s| - 1]))
  }

  function TrimStart(s: string): (r: string)
    ensures |r| <= |s| && r == s[|s| - |r|..]
    ensures r == [] || !IsSpace(r[0])
    ensures forall i :: 0 <= i < |s| - |r| ==> IsSpace(s[i])
    decreases |s|
  {
    if s != [] && IsSpace(s[0]) then TrimStart(s[1..]) else s
  }

  function TrimEnd(s: string): (r: string)
    ensures |r| <= |s| && r == s[..|r|]
    ensures r == [] || !IsSpace(r[|r| - 1])
    ensures forall i :: |r| <= i < |s| ==> IsSpace(s[i])
    decreases |s|
  {
    if s != [] && IsSpace(s[|s| - 1]) then TrimEnd(s[..|s| - 1]) else s
  }

  /** Python's `str.strip()` without arguments. */
  function Strip(s: string): (r: string)
    ensures SpaceFreeEdges(r)
  {
    TrimEnd(TrimStart(s))
  }

  lemma StripKeepsSpaceFreeEdges(s: string)
    requires SpaceFreeEdges(s)
    ensures Strip(s) == s
  {
  }

  /** A stripped line is empty exactly when every character of the line is whitespace. */
  lemma StripEmpty(s: string)
    ensures Strip(s) == [] <==> forall i :: 0 <= i < |s| ==> IsSpace(s[i])
  {
    var t := TrimStart(s);
    if Strip(s) != [] {
      assert t[0] == s[|s| - |t|];
    }
  }

  /** Python's `s.split(c)` for a one-character separator: it never drops empty fields. */
  function Split(s: string, c: char): (parts: seq<string>)
    ensures |parts| >= 1
    decreases |s|
  {
    if s == [] then [[]]
    else
      var rest := Split(s[1..], c);
      if s[0] == c then [[]] + rest else [[s[0]] + rest[0]] + rest[1..]
  }

  /** Python's `sep.join(parts)`. */
  function Join(sep: string, parts: seq<string>): string
    decreases |parts|
  {
    if parts == [] then []
    else if |parts| == 1 then parts[0]
    else parts[0] + sep + Join(sep, parts[1..])
  }

  /** Joining one more part appends the separator and the part. */
  lemma {:induction false} JoinSnoc(sep: string, parts: seq<string>, x: string)
    requires parts != []
    ensures Join(sep, parts + [x]) == Join(sep, parts) + sep + x
    decreases |parts|
  {
    if |parts| > 1 {
      assert (parts + [x])[1..] == parts[1..] + [x];
      JoinSnoc(sep, parts[1..], x);
    }
  }

  /** A join begins with the first part. */
  lemma JoinFirst(sep: string, parts: seq<string>)
    requires |parts| >= 1 && parts[0] != []
    ensures Join(sep, parts) != [] && Join(sep, parts)[0] == parts[0][0]
  {
  }

  /** A join ends with the last part. */
  lemma {:induction false} JoinLast(sep: string, parts: seq<string>)
    requires |parts| >= 1 && parts[|parts| - 1] != []
    ensures var j := Join(sep, parts); var last := parts[|parts| - 1];
      j != [] && j[|j| - 1] == last[|last| - 1]
    decreases |parts|
  {
    if |parts| > 1 {
      JoinLast(sep, parts[1..]);
    }
  }

  /** A join begins with the first part and ends with the last one. */
  lemma JoinEdges(sep: string, parts: seq<string>)
    requires |parts| >= 1 && parts[0] != [] && parts[|parts| - 1] != []
    ensures var j := Join(sep, parts); var last := parts[|parts| - 1];
      j != [] && j[0] == parts[0][0] && j[|j| - 1] == last[|last| - 1]
  {
    JoinLast(sep, parts);
  }

  /** A character that is neither the separator nor in any part is not in the join. */
  lemma {:induction false} JoinAvoids(c: char, parts: seq<string>, d: char)
    requires d != c && forall i :: 0 <= i < |parts| ==> d !in parts[i]
    ensures d !in Join([c], parts)
    decreases |parts|
  {
    if |parts| > 1 {
      JoinAvoids(c, parts[1..], d);
    }
  }

  /** Joining whitespace-free parts on a character that is not whitespace leaves no whitespace. */
  lemma {:induction false} JoinNoSpace(c: char, parts: seq<string>)
    requires !IsSpace(c)
    requires forall i :: 0 <= i < |parts| ==> NoSpace(parts[i])
    ensures NoSpace(Join([c], parts))
    decreases |parts|
  {
    if |parts| > 1 {
      JoinNoSpace(c, parts[1..]);
      var rest := Join([c], parts[1..]);
      var j := parts[0] + [c] + rest;
      assert Join([c], parts) == j;
      forall i | 0 <= i < |j| ensures !IsSpace(j[i]) {
        if i < |parts[0]| {
          assert j[i] == parts[0][i];
        } else if i > |parts[0]| {
          assert j[i] == rest[i - |parts[0]| - 1];
        }
      }
    }
  }

  /** Python's `s.replace(c, r)` for a one-character pattern. */
  function ReplaceChar(s: string, c: char, r: string): string
    decreases |s|
  {
    if s == [] then [] else (if s[0] == c then r else [s[0]]) + ReplaceChar(s[1..], c, r)
  }

  lemma {:induction false} ReplaceCharAppend(a: string, b: string, c: char, r: string)
    ensures ReplaceChar(a + b, c, r) == ReplaceChar(a, c, r) + ReplaceChar(b, c, r)
    decreases |a|
  {
    if a != [] {
      assert (a + b)[1..] == a[1..] + b;
      ReplaceCharAppend(a[1..], b, c, r);
    } else {
      assert a + b == b;
    }
  }

  lemma {:induction false} ReplaceCharAbsent(s: string, c: char, r: string)
    requires c !in s
    ensures ReplaceChar(s, c, r) == s
    decreases |s|
  {
    if s != [] {
      ReplaceCharAbsent(s[1..], c, r);
    }
  }

  /** The replacement removes every occurrence of `c`, provided `r` brings none back. */
  lemma {:induction false} ReplaceCharRemoves(s: string, c: char, r: string, d: char)
    requires d !in r && (d == c || d !in s)
    ensures d !in ReplaceChar(s, c, r)
    decreases |s|
  {
    if s != [] {
      ReplaceCharRemoves(s[1..], c, r, d);
    }
  }

  lemma {:induction false} SplitNoSeparator(p: string, c: char)
    requires c !in p
    ensures Split(p, c) == [p]
    decreases |p|
  {
    if p != [] {
      SplitNoSeparator(p[1..], c);
      assert [p[0]] + p[1..] == p;
    }
  }

  lemma {:induction false} SplitAtSeparator(p: string, c: char, t: string)
    requires c !in p
    ensures Split(p + [c] + t, c) == [p] + Split(t, c)
    decreases |p|
  {
    if p == [] {
      assert p + [c] + t == [c] + t;
      assert ([c] + t)[1..] == t;
    } else {
      assert (p + [c] + t)[1..] == p[1..] + [c] + t;
      SplitAtSeparator(p[1..], c, t);
      assert [p[0]] + p[1..] == p;
    }
  }

  /** A text splits into more than one field exactly when it holds the separator. */
  lemma SplitWithSeparator(s: string, c: char)
    ensures |Split(s, c)| >= 2 <==> c in s
  {
    if c in s {
      var i :| 0 <= i < |s| && s[i] == c;
      assert s == s[..i] + [c] + s[i + 1..];
      SplitConcat(s[..i], s[i + 1..], c);
    } else {
      SplitNoSeparator(s, c);
    }
  }

  /** Splitting a joined list gives the list back when no field holds the separator. */
  lemma {:induction false} SplitJoin(parts: seq<string>, c: char)
    requires |parts| >= 1
    requires forall i :: 0 <= i < |parts| ==> c !in parts[i]
    ensures Split(Join([c], parts), c) == parts
    decreases |parts|
  {
    if |parts| == 1 {
      SplitNoSeparator(parts[0], c);
    } else {
      SplitJoin(parts[1..], c);
      SplitAtSeparator(parts[0], c, Join([c], parts[1..]));
      assert [parts[0]] + parts[1..] == parts;
    }
  }

  lemma JoinPrepend(r: string, x: string, y: string, t: seq<string>)
    ensures Join(r, [x + y] + t) == x + Join(r, [y] + t)
  {
    if t != [] {
      assert ([x + y] + t)[1..] == t;
      assert ([y] + t)[1..] == t;
    }
  }

  /** `r.join(s.split(c))` replaces every `c` in `s`, not only the first. */
  lemma {:induction false} JoinSplitIsReplace(s: string, c: char, r: string)
    ensures Join(r, Split(s, c)) == ReplaceChar(s, c, r)
    decreases |s|
  {
    if s != [] {
      var rest := Split(s[1..], c);
      JoinSplitIsReplace(s[1..], c, r);
      assert [rest[0]] + rest[1..] == rest;
      if s[0] == c {
        assert Split(s, c) == [[]] + rest;
        assert Join(r, [[]] + rest) == [] + r + Join(r, rest);
      } else {
        assert Split(s, c) == [[s[0]] + rest[0]] + rest[1..];
        JoinPrepend(r, [s[0]], rest[0], rest[1..]);
      }
    }
  }

  /** The blank-line test of the reader: a split yields the single empty field exactly for "". */
  lemma SplitSingleEmpty(s: string, c: char)
    ensures Split(s, c) == [[]] <==> s == []
  {
    if s != [] {
      var rest := Split(s[1..], c);
      if s[0] == c {
        assert |Split(s, c)| >= 2;
      } else {
        assert Split(s, c)[0] == [s[0]] + rest[0];
      }
    }
  }

  /** Length of the leading run of non-whitespace characters. */
  function TokenLength(s: string): (n: nat)
    ensures n <= |s|
    ensures forall i :: 0 <= i < n ==> !IsSpace(s[i])
    ensures n < |s| ==> IsSpace(s[n])
    decreases |s|
  {
    if s == [] || IsSpace(s[0]) then 0 else 1 + TokenLength(s[1..])
  }

  /** Python's `s.split()` without arguments: the maximal runs of non-whitespace. */
  function SplitWhitespace(s: string): (tokens: seq<string>)
    ensures forall i :: 0 <= i < |tokens| ==> tokens[i] != [] && NoSpace(tokens[i])
    decreases |s|
  {
    if s == [] then []
    else if IsSpace(s[0]) then SplitWhitespace(s[1..])
    else
      var n := TokenLength(s);
      [s[..n]] + SplitWhitespace(s[n..])
  }

  lemma SplitWhitespaceToken(s: string)
    requires s != [] && NoSpace(s)
    ensures SplitWhitespace(s) == [s]
  {
    assert TokenLength(s) == |s|;
    assert s[..|s|] == s;
  }

  lemma SplitWhitespaceAtSpace(p: string, w: char, t: string)
    requires p != [] && NoSpace(p) && IsSpace(w)
    ensures SplitWhitespace(p + [w] + t) == [p] + SplitWhitespace(t)
  {
    var s := p + [w] + t;
    assert s[|p|] == w;
    assert TokenLength(s) == |p|;
    assert s[..|p|] == p;
    assert s[|p|..] == [w] + t;
    assert ([w] + t)[1..] == t;
  }

  /** Splitting on whitespace undoes a join on a whitespace separator of non-empty, space-free tokens. */
  lemma {:induction false} SplitWhitespaceJoin(parts: seq<string>, w: char)
    requires IsSpace(w)
    requires forall i :: 0 <= i < |parts| ==> parts[i] != [] && NoSpace(parts[i])
    ensures SplitWhitespace(Join([w], parts)) == parts
    decreases |parts|
  {
    if |parts| == 1 {
      SplitWhitespaceToken(parts[0]);
    } else if |parts| > 1 {
      SplitWhitespaceJoin(parts[1..], w);
      SplitWhitespaceAtSpace(parts[0], w, Join([w], parts[1..]));
      assert [parts[0]] + parts[1..] == parts;
    }
  }

  /** No field of a split holds the separator. */
  lemma {:induction false} SplitFieldsLackSeparator(s: string, c: char)
    ensures forall i :: 0 <= i < |Split(s, c)| ==> c !in Split(s, c)[i]
    decreases |s|
  {
    if s != [] {
      SplitFieldsLackSeparator(s[1..], c);
    }
  }

  /** A separator splits the text into the fields before it and the fields after it. */
  lemma {:induction false} SplitConcat(a: string, b: string, c: char)
    ensures Split(a + [c] + b, c) == Split(a, c) + Split(b, c)
    decreases |a|
  {
    if a == [] {
      assert a + [c] + b == [c] + b;
      assert ([c] + b)[1..] == b;
    } else {
      assert (a + [c] + b)[1..] == a[1..] + [c] + b;
      SplitConcat(a[1..], b, c);
    }
  }

  /** Every character of `s` is whitespace. */
  predicate AllSpace(s: string)
    decreases |s|
  {
    s == [] || (IsSpace(s[0]) && AllSpace(s[1..]))
  }

  lemma {:induction false} AllSpaceEvery(s: string)
    ensures AllSpace(s) <==> forall i :: 0 <= i < |s| ==> IsSpace(s[i])
    decreases |s|
  {
    if s != [] {
      AllSpaceEvery(s[1..]);
      assert forall i :: 1 <= i < |s| ==> s[i] == s[1..][i - 1];
    }
  }

  /** A line strips to nothing exactly when it is all whitespace. */
  lemma StripEmptyAllSpace(s: string)
    ensures Strip(s) == [] <==> AllSpace(s)
  {
    StripEmpty(s);
    AllSpaceEvery(s);
  }
}
