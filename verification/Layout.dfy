/** Launcher layouts: nodes printed as text by the launcher patch, and the tree that the layout tool builds from it. */
module Layout {
  import opened Json
  import opened LayoutText

  datatype Node = Node(kind: Text, children: seq<Node>, properties: seq<(Text, Value)>)

  function Chars(word: string): Text { seq(|word|, i requires 0 <= i < |word| => word[i] as int) }

  predicate IsWidget(key: Text) {
    key in [Chars("viewgroup"), Chars("imageview"), Chars("textview"), Chars("progress_bar"), Chars("numview")]
  }

  predicate DistinctKeys(pairs: seq<(Text, Value)>) {
    forall i, j | 0 <= i < j < |pairs| :: pairs[i].0 != pairs[j].0
  }

  ghost predicate ScalarPairs(pairs: seq<(Text, Value)>) {
    forall i | 0 <= i < |pairs| :: IsText(pairs[i].0) && IsScalar(pairs[i].1)
  }

  /** Widget kinds, scalar properties under distinct keys. */
  ghost predicate WellFormed(node: Node) {
    && IsText(node.kind) && IsWidget(node.kind)
    && ScalarPairs(node.properties) && DistinctKeys(node.properties)
    && forall i | 0 <= i < |node.children| :: WellFormed(node.children[i])
  }

  /** The JSON pairs of a node: its children under their kinds, then its properties. */
  function PairsOf(node: Node): seq<(Text, Value)>
    decreases node, 0
  {
    ChildPairs(node.children) + node.properties
  }

  function ChildPairs(children: seq<Node>): (pairs: seq<(Text, Value)>)
    ensures |pairs| == |children|
    decreases children, 1
  {
    if children == [] then [] else [(children[0].kind, Obj(PairsOf(children[0])))] + ChildPairs(children[1..])
  }

  lemma {:induction false} ChildPairsAt(children: seq<Node>, i: nat)
    requires i < |children|
    ensures ChildPairs(children)[i] == (children[i].kind, Obj(PairsOf(children[i])))
  {
    if i > 0 {
      ChildPairsAt(children[1..], i - 1);
    }
  }

  lemma {:induction false} NodeIsPrintable(node: Node)
    requires WellFormed(node)
    ensures PrintablePairs(PairsOf(node))
  {
    var pairs := PairsOf(node);
    forall i | 0 <= i < |pairs|
      ensures IsText(pairs[i].0) && IsPrintable(pairs[i].1)
    {
      if i < |node.children| {
        ChildPairsAt(node.children, i);
        assert WellFormed(node.children[i]);
        NodeIsPrintable(node.children[i]);
      } else {
        assert pairs[i] == node.properties[i - |node.children|];
      }
    }
  }

  // ---- Printing ----

  /** The lines with a newline between each two of them. */
  function Glue(lines: seq<Text>, newline: Text): Text {
    if lines == [] then []
    else if |lines| == 1 then lines[0]
    else Glue(lines[..|lines| - 1], newline) + newline + lines[|lines| - 1]
  }

  lemma {:induction false} GlueMore(a: seq<Text>, b: seq<Text>, newline: Text)
    requires a != [] && b != []
    ensures Glue(a + b, newline) == Glue(a, newline) + newline + Glue(b, newline)
    decreases |b|
  {
    var n := |b| - 1;
    assert (a + b)[..|a| + n] == a + b[..n] && (a + b)[|a| + n] == b[n];
    if n > 0 {
      GlueMore(a, b[..n], newline);
      GlueRegroups(Glue(a, newline), newline, Glue(b[..n], newline), b[n]);
    } else {
      assert a + b[..0] == a;
    }
  }

  lemma GlueRegroups(a: Text, newline: Text, b: Text, line: Text)
    ensures a + newline + b + newline + line == a + newline + (b + newline + line)
  {
  }

  lemma GlueComma(lines: seq<Text>, newline: Text)
    requires lines != []
    ensures Glue(lines[|lines| - 1 := lines[|lines| - 1] + [COMMA]], newline) == Glue(lines, newline) + [COMMA]
  {
    var n := |lines| - 1;
    assert lines[n := lines[n] + [COMMA]][..n] == lines[..n];
  }

  lemma StepRegroups(glued: Text, newline: Text, first: Text, comma: Text, rest: Text)
    ensures glued + newline + (first + comma) + newline + rest == glued + newline + (first + (comma + (newline + rest)))
  {
  }

  lemma EndRegroups(glued: Text, newline: Text, tabs: Text, kind: Text, inside: Text)
    requires glued + newline == tabs + kind + [COLON, OPEN] + newline + inside
    ensures glued + newline + (tabs + [CLOSE]) == tabs + (kind + ([COLON] + ([OPEN] + newline + inside + tabs + [CLOSE])))
  {
  }

  /** One round of the printer's loop: what is glued so far and what is still to print make the same text. */
  lemma {:induction false} PrintStep(lines: seq<Text>, block: seq<Text>, text: Text, pairs: seq<(Text, Value)>,
                                     level: nat, newline: Text)
    requires lines != [] && block != [] && PrintablePairs(pairs) && pairs != [] && PrintablePairs(pairs[1..])
    requires Glue(lines, newline) + newline + PairsText(pairs, level, newline) == text
    requires IsText(pairs[0].0) && IsPrintable(pairs[0].1)
    requires Glue(block, newline) == PairText(pairs[0].0, pairs[0].1, level, newline) + if |pairs| > 1 then [COMMA] else []
    ensures Glue(lines + block, newline) + newline + PairsText(pairs[1..], level, newline) == text
  {
    hide Glue;
    hide PairsText;
    hide PairText;
    hide IsPrintable;
    GlueMore(lines, block, newline);
    PairsTextStep(pairs, level, newline, []);
    var comma := if |pairs| > 1 then [COMMA] else [];
    var first, rest := PairText(pairs[0].0, pairs[0].1, level, newline), PairsText(pairs[1..], level, newline);
    assert PairsText(pairs, level, newline) + [] == PairsText(pairs, level, newline) && rest + [] == rest;
    StepRegroups(Glue(lines, newline), newline, first, comma, rest);
  }

  lemma {:induction false} ObjectLine(kind: Text, pairs: seq<(Text, Value)>, level: nat, newline: Text)
    requires IsText(kind) && PrintablePairs(pairs)
    ensures PairText(kind, Obj(pairs), level, newline) ==
      Tabs(level) + (Quoted(kind) + ([COLON] +
        ([OPEN] + newline + PairsText(pairs, level + 1, newline) + Tabs(level) + [CLOSE])))
  {
    hide Tabs;
    hide Quoted;
    hide PairsText;
  }

  lemma {:induction false} PrintEnd(kind: Text, pairs: seq<(Text, Value)>, lines: seq<Text>, level: nat, newline: Text)
    requires IsText(kind) && PrintablePairs(pairs) && PrintablePairs([]) && lines != []
    requires Glue(lines, newline) + newline + PairsText([], level + 1, newline)
          == Tabs(level) + Quoted(kind) + [COLON, OPEN] + newline + PairsText(pairs, level + 1, newline)
    ensures Glue(lines + [Tabs(level) + [CLOSE]], newline) == PairText(kind, Obj(pairs), level, newline)
  {
    hide Glue;
    hide Tabs;
    hide Quoted;
    hide IsPrintable;
    hide IsText;
    hide PairText;
    GlueMore(lines, [Tabs(level) + [CLOSE]], newline);
    GlueOne(Tabs(level) + [CLOSE], newline);
    NothingPrinted(level + 1, newline);
    hide PairsText;
    assert Glue(lines, newline) + newline + [] == Glue(lines, newline) + newline;
    EndRegroups(Glue(lines, newline), newline, Tabs(level), Quoted(kind), PairsText(pairs, level + 1, newline));
    ObjectLine(kind, pairs, level, newline);
  }

  lemma {:induction false} NothingPrinted(level: nat, newline: Text)
    ensures PrintablePairs([]) && PairsText([], level, newline) == []
  {
  }

  /** _serialize_node */
  method SerializeNode(node: Node, level: nat, newline: Text) returns (lines: seq<Text>)
    requires WellFormed(node) && PrintablePairs(PairsOf(node))
    ensures lines != [] && Glue(lines, newline) == PairText(node.kind, Obj(PairsOf(node)), level, newline)
    decreases node
  {
    hide Glue;
    hide PairsText;
    hide PairText;
    hide IsPrintable;
    hide Quoted;
    hide Tabs;
    ghost var pairs := PairsOf(node);
    ghost var text := Tabs(level) + Quoted(node.kind) + [COLON, OPEN] + newline + PairsText(pairs, level + 1, newline);
    lines := [Tabs(level) + Quoted(node.kind) + [COLON, OPEN]];
    assert Glue(lines, newline) == lines[0] by { GlueOne(lines[0], newline); }
    assert pairs[0..] == pairs;
    var index, count := 0, |node.children| + |node.properties|;
    while index < count
      invariant index <= count && lines != [] && PrintablePairs(pairs[index..])
      invariant Glue(lines, newline) + newline + PairsText(pairs[index..], level + 1, newline) == text
    {
      var last := index == count - 1;
      var block;
      RestIsPrintable(pairs[index..]);
      assert pairs[index..][1..] == pairs[index + 1..];
      if index < |node.children| {
        var child := node.children[index];
        ChildPairsAt(node.children, index);
        NodeIsPrintable(child);
        block := SerializeNode(child, level + 1, newline);
        if !last {
          GlueComma(block, newline);
          block := block[|block| - 1 := block[|block| - 1] + [COMMA]];
        }
      } else {
        var (key, value) := node.properties[index - |node.children|];
        block := [Tabs(level + 1) + Quoted(key) + [COLON] + ScalarText(value) + if last then [] else [COMMA]];
        GlueOne(block[0], newline);
        ScalarLine(key, value, level + 1, newline);
      }
      PrintStep(lines, block, text, pairs[index..], level + 1, newline);
      lines := lines + block;
      index := index + 1;
    }
    assert pairs[count..] == [];
    PrintEnd(node.kind, pairs, lines, level, newline);
    lines := lines + [Tabs(level) + [CLOSE]];
  }

  lemma {:induction false} GlueOne(line: Text, newline: Text)
    ensures Glue([line], newline) == line
  {
  }

  lemma {:induction false} ScalarLine(key: Text, value: Value, level: nat, newline: Text)
    requires IsText(key) && IsScalar(value)
    ensures PairText(key, value, level, newline) == Tabs(level) + Quoted(key) + [COLON] + ScalarText(value)
  {
    hide Tabs;
    hide Quoted;
    hide ScalarText;
  }

  ghost function DocumentPairs(root: Node): seq<(Text, Value)> { [(root.kind, Obj(PairsOf(root)))] }

  ghost function DocumentText(root: Node, newline: Text): Text
    requires PrintablePairs(DocumentPairs(root))
  {
    ValueText(Obj(DocumentPairs(root)), 0, newline) + newline
  }

  lemma {:induction false} DocumentIsPrintable(root: Node)
    requires WellFormed(root)
    ensures PrintablePairs(DocumentPairs(root)) && PrintablePairs(PairsOf(root))
  {
    NodeIsPrintable(root);
  }

  lemma DocumentRegroups(newline: Text, inside: Text)
    ensures [OPEN] + newline + inside + newline + [CLOSE] + newline + [] ==
      [OPEN] + newline + (inside + ([] + (newline + []))) + [] + [CLOSE] + newline
  {
  }

  /** _document, before the text is encoded */
  method Document(root: Node, newline: Text) returns (text: Text)
    requires WellFormed(root)
    ensures PrintablePairs(DocumentPairs(root)) && text == DocumentText(root, newline)
  {
    hide PairText;
    hide IsPrintable;
    DocumentIsPrintable(root);
    var node := SerializeNode(root, 1, newline);
    var lines := [[OPEN]] + node + [[CLOSE], []];
    text := Glue(lines, newline);
    ghost var inside := PairText(root.kind, Obj(PairsOf(root)), 1, newline);
    assert text == [OPEN] + newline + inside + newline + [CLOSE] + newline + [] by {
      GlueMore([[OPEN]], node, newline);
      GlueMore([[OPEN]] + node, [[CLOSE]], newline);
      GlueMore([[OPEN]] + node + [[CLOSE]], [[]], newline);
      assert [[OPEN]] + node + [[CLOSE]] + [[]] == lines;
    }
    DocumentIs(root, newline);
    DocumentRegroups(newline, inside);
  }

  lemma {:induction false} DocumentIs(root: Node, newline: Text)
    requires PrintablePairs(DocumentPairs(root)) && IsText(root.kind) && PrintablePairs(PairsOf(root))
    ensures DocumentText(root, newline) ==
      [OPEN] + newline +
        (PairText(root.kind, Obj(PairsOf(root)), 1, newline) + ([] + (newline + []))) + [] + [CLOSE] + newline
  {
    hide PairText;
    hide IsPrintable;
    var pairs := DocumentPairs(root);
    NothingPrinted(1, newline);
    assert pairs[1..] == [] && Tabs(0) == [];
    PairsTextStep(pairs, 1, newline, []);
    hide PairsText;
    assert PairsText(pairs, 1, newline) + [] == PairsText(pairs, 1, newline);
    assert newline + ([] + []) == newline + [];
    assert DocumentText(root, newline) == [OPEN] + newline + PairsText(pairs, 1, newline) + Tabs(0) + [CLOSE] + newline;
  }
}
