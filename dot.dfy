/** Lines of a DOT graph description (tools/Dot.java): a labelled node and an edge.
    A label is put between double quotes, so every backslash and every double quote
    in it is escaped with a backslash. */
module Dot {
  import opened Wrappers
  import opened Numerals
  import opened SemanticUtils

  /** Java's `int`. */
  predicate IsInt(n: int) {
    -0x8000_0000 <= n < 0x8000_0000
  }

  /** `label.replaceAll("(\\\\)", "\\\\$1")`: a backslash before every backslash. */
  function EscapeBackslashes(s: string): string {
    if |s| == 0 then [] else (if s[0] == '\\' then "\\\\" else [s[0]]) + EscapeBackslashes(s[1..])
  }

  /** `replaceAll("(\")", "\\\\$1")`: a backslash before every double quote. */
  function EscapeQuotes(s: string): string {
    if |s| == 0 then [] else (if s[0] == '"' then "\\\"" else [s[0]]) + EscapeQuotes(s[1..])
  }

  /** The escaping described in one pass over the label. */
  function Escape(s: string): string {
    if |s| == 0 then []
    else (if s[0] == '\\' || s[0] == '"' then ['\\', s[0]] else [s[0]]) + Escape(s[1..])
  }

  /** Reading a quoted DOT string's contents back: a backslash takes the next
      character literally; an unescaped double quote or a trailing backslash would end
      or break the string. */
  function Unescape(t: string): Option<string>
    decreases |t|
  {
    if |t| == 0 then Some([])
    else if t[0] == '"' then None
    else if t[0] == '\\' then
      if |t| >= 2 && (t[1] == '\\' || t[1] == '"') then
        var rest := Unescape(t[2..]);
        if rest.Some? then Some([t[1]] + rest.value) else None
      else None
    else
      var rest := Unescape(t[1..]);
      if rest.Some? then Some([t[0]] + rest.value) else None
  }

  lemma {:induction false} EscapeQuotesAppend(a: string, b: string)
    ensures EscapeQuotes(a + b) == EscapeQuotes(a) + EscapeQuotes(b)
    decreases |a|
  {
    if |a| == 0 {
      assert a + b == b;
    } else {
      assert (a + b)[1..] == a[1..] + b;
      EscapeQuotesAppend(a[1..], b);
    }
  }

  /** The two `replaceAll` passes of `node` escape exactly as one pass does: the
      backslashes added by the first pass are not quotes, and the second pass adds no
      backslash that the first would have doubled. */
  lemma {:induction false} TwoPassesAreOne(s: string)
    ensures EscapeQuotes(EscapeBackslashes(s)) == Escape(s)
    decreases |s|
  {
    if |s| > 0 {
      var head: string := if s[0] == '\\' then "\\\\" else [s[0]];
      EscapeQuotesAppend(head, EscapeBackslashes(s[1..]));
      TwoPassesAreOne(s[1..]);
      if s[0] == '\\' {
        assert EscapeQuotes(head) == "\\\\" by {
          assert head[1..][1..] == [];
        }
      } else {
        assert head[1..] == [];
      }
    }
  }

  /** Escaping can always be read back, so a label never ends the quoted string
      early. */
  lemma {:induction false} UnescapeEscape(s: string)
    ensures Unescape(Escape(s)) == Some(s)
    decreases |s|
  {
    if |s| > 0 {
      UnescapeEscape(s[1..]);
      var t := Escape(s);
      if s[0] == '\\' || s[0] == '"' {
        assert t[2..] == Escape(s[1..]);
      } else {
        assert t[1..] == Escape(s[1..]);
      }
      assert [s[0]] + s[1..] == s;
    }
  }

  /** A label without backslashes or quotes is written as it is. */
  lemma {:induction false} PlainLabelUnchanged(s: string)
    requires forall i | 0 <= i < |s| :: s[i] != '\\' && s[i] != '"'
    ensures Escape(s) == s
    decreases |s|
  {
    if |s| > 0 {
      PlainLabelUnchanged(s[1..]);
      assert [s[0]] + s[1..] == s;
    }
  }

  /** `node(nodeId, label)`. */
  function Node(nodeId: int, nodeLabel: string): string {
    IntText(nodeId) + "[label=\"" + EscapeQuotes(EscapeBackslashes(nodeLabel)) + "\"];"
  }

  /** `edge(sourceId, destinationId)`. */
  function Edge(sourceId: int, destinationId: int): string {
    IntText(sourceId) + " -> " + IntText(destinationId) + ";"
  }

  /** The index of the first `c` in `s`, or `|s|`. */
  function IndexOf(s: string, c: char): (k: nat)
    ensures k <= |s| && (k < |s| ==> s[k] == c)
    ensures forall i | 0 <= i < k :: s[i] != c
  {
    if |s| == 0 then 0 else if s[0] == c then 0 else 1 + IndexOf(s[1..], c)
  }

  /** The node id and label a node line describes. */
  function ParseNode(s: string): Option<(int, string)> {
    var k := IndexOf(s, '[');
    var rest := s[k..];
    if |rest| < 11 || rest[..8] != "[label=\"" || rest[|rest| - 3..] != "\"];" then None
    else
      var id, nodeLabel := ParseLong(s[..k]), Unescape(rest[8..|rest| - 3]);
      if id.Some? && nodeLabel.Some? then Some((id.value, nodeLabel.value)) else None
  }

  /** The two node ids an edge line joins. */
  function ParseEdge(s: string): Option<(int, int)> {
    var k := IndexOf(s, ' ');
    if |s| < k + 5 || s[k..k + 4] != " -> " || s[|s| - 1] != ';' then None
    else
      var src, dst := ParseLong(s[..k]), ParseLong(s[k + 4..|s| - 1]);
      if src.Some? && dst.Some? then Some((src.value, dst.value)) else None
  }

  /** The text of an integer is a sign and digits only. */
  lemma IntTextChars(n: int)
    ensures forall i | 0 <= i < |IntText(n)| :: IntText(n)[i] == '-' || IsDigit(IntText(n)[i])
  {
    if n < 0 {
      assert forall i | 1 <= i < |IntText(n)| :: IntText(n)[i] == NatText(-n)[i - 1];
    }
  }

  /** The first `c` of `a + b` is the first of `b` when `a` holds none. */
  lemma IndexOfAppend(a: string, b: string, c: char)
    requires forall i | 0 <= i < |a| :: a[i] != c
    requires |b| > 0 && b[0] == c
    ensures IndexOf(a + b, c) == |a|
  {
    assert (a + b)[|a|] == b[0];
  }

  /** A node line gives back its id and its label. */
  lemma NodeRoundTrip(nodeId: int, nodeLabel: string)
    requires IsInt(nodeId)
    ensures ParseNode(Node(nodeId, nodeLabel)) == Some((nodeId, nodeLabel))
  {
    var idText, escaped := IntText(nodeId), EscapeQuotes(EscapeBackslashes(nodeLabel));
    var tail := "[label=\"" + escaped + "\"];";
    assert Node(nodeId, nodeLabel) == idText + tail;
    IntTextChars(nodeId);
    IndexOfAppend(idText, tail, '[');
    var s := Node(nodeId, nodeLabel);
    assert s[..|idText|] == idText && s[|idText|..] == tail;
    assert tail[8..|tail| - 3] == escaped;
    TwoPassesAreOne(nodeLabel);
    UnescapeEscape(nodeLabel);
    ParseLongRoundTrip(nodeId);
  }

  /** An edge line gives back the ids it joins. */
  lemma EdgeRoundTrip(sourceId: int, destinationId: int)
    requires IsInt(sourceId) && IsInt(destinationId)
    ensures ParseEdge(Edge(sourceId, destinationId)) == Some((sourceId, destinationId))
  {
    var a, b := IntText(sourceId), IntText(destinationId);
    var tail := " -> " + b + ";";
    assert Edge(sourceId, destinationId) == a + tail;
    IntTextChars(sourceId);
    IndexOfAppend(a, tail, ' ');
    var s := Edge(sourceId, destinationId);
    assert s[..|a|] == a && s[|a|..|a| + 4] == " -> " && s[|a| + 4..|s| - 1] == b;
    ParseLongRoundTrip(sourceId);
    ParseLongRoundTrip(destinationId);
  }
}
