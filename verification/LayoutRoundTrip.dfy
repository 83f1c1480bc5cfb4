/** A printed layout comes back as the same tree, and what comes back when a character was left in two halves. */
module LayoutRoundTrip {
  import opened Numbers
  import Strings = Text
  import opened Json
  import opened LayoutText
  import opened Layout
  import opened LayoutReader

  // ---- The tree of a printed node ----

  function Tree(widget: Widget): Node
    decreases widget, 1
  {
    Node(widget.kind, Trees(widget.children), widget.properties)
  }

  function Trees(widgets: seq<Widget>): seq<Node>
    decreases widgets, 0
  {
    if widgets == [] then [] else Trees(widgets[..|widgets| - 1]) + [Tree(widgets[|widgets| - 1])]
  }

  lemma {:induction false} TreesMore(widgets: seq<Widget>, widget: Widget)
    ensures Trees(widgets + [widget]) == Trees(widgets) + [Tree(widget)]
  {
    assert (widgets + [widget])[..|widgets|] == widgets;
  }

  lemma {:induction false} ChildPairsFront(children: seq<Node>)
    requires children != []
    ensures var n := |children| - 1;
            ChildPairs(children) == ChildPairs(children[..n]) + [(children[n].kind, Obj(PairsOf(children[n])))]
  {
    var n := |children| - 1;
    if n > 0 {
      ChildPairsFront(children[1..]);
      assert children[1..][..n - 1] == children[..n][1..] && children[1..][n - 1] == children[n];
    }
  }

  lemma {:induction false} ChildStep(pairs: seq<(Text, Value)>, last: (Text, Value), id: Text)
    requires IsChild(last)
    ensures var child := ChildId(id, last.0, ChildCount(pairs, last.0));
            && Children(pairs + [last], id) == Children(pairs, id) + [Built(last.0, last.1, child)]
            && Warnings(pairs + [last], id) == Warnings(pairs, id) + BuildWarnings(last.1, child)
    ensures Properties(pairs + [last]) == Properties(pairs)
    ensures forall key: Text :: PropertyCount(pairs + [last], key) == PropertyCount(pairs, key)
  {
    hide IsWidget;
    hide ChildId;
    hide Built;
    hide BuildWarnings;
    assert (pairs + [last])[..|pairs|] == pairs;
  }

  /** The pairs of a node's children build its children, in order and without a warning. */
  lemma {:induction false} ChildrenComeBack(children: seq<Node>, id: Text)
    requires forall i | 0 <= i < |children| :: WellFormed(children[i])
    ensures Trees(Children(ChildPairs(children), id)) == children
    ensures Properties(ChildPairs(children)) == [] && Warnings(ChildPairs(children), id) == []
    ensures forall key: Text :: PropertyCount(ChildPairs(children), key) == 0
    decreases children, 0
  {
    hide PairsOf;
    hide ChildPairs;
    hide WellFormed;
    hide IsWidget;
    hide Trees;
    hide Tree;
    hide Children;
    hide Properties;
    hide Warnings;
    hide PropertyCount;
    hide ChildCount;
    hide ChildId;
    hide Built;
    hide BuildWarnings;
    if children == [] {
      NoTrees(id);
    } else {
      var n := |children| - 1;
      var front, last := children[..n], children[n];
      KindIsWidget(last);
      ChildPairsFront(children);
      ChildrenComeBack(front, id);
      var before, pair := ChildPairs(front), (last.kind, Obj(PairsOf(last)));
      var child := ChildId(id, last.kind, ChildCount(before, last.kind));
      ChildStep(before, pair, id);
      NodeComesBack(last, child);
      TreesMore(Children(before, id), Built(pair.0, pair.1, child));
      assert children == front + [last];
    }
  }

  lemma NoTrees(id: Text)
    ensures ChildPairs([]) == [] && Trees([]) == [] && Children([], id) == []
    ensures Properties([]) == [] && Warnings([], id) == [] && forall key: Text :: PropertyCount([], key) == 0
  {
  }

  lemma KindIsWidget(node: Node)
    requires WellFormed(node)
    ensures IsWidget(node.kind)
  {
  }

  lemma {:induction false} PropertyStep(pairs: seq<(Text, Value)>, last: (Text, Value), id: Text)
    requires !last.1.Obj?
    ensures Children(pairs + [last], id) == Children(pairs, id)
    ensures Properties(pairs + [last]) == Put(Properties(pairs), last.0, last.1)
    ensures PropertyCount(pairs, last.0) == 0 ==> Warnings(pairs + [last], id) == Warnings(pairs, id)
  {
    hide Put;
    hide IsWidget;
    assert (pairs + [last])[..|pairs|] == pairs;
  }

  lemma FrontIsFine(properties: seq<(Text, Value)>)
    requires ScalarPairs(properties) && DistinctKeys(properties) && properties != []
    ensures var front, last := properties[..|properties| - 1], properties[|properties| - 1];
            && ScalarPairs(front) && DistinctKeys(front) && !last.1.Obj?
            && !HasKey(front, last.0) && forall i | 0 <= i < |front| :: front[i].0 != last.0
  {
    var front, last := properties[..|properties| - 1], properties[|properties| - 1];
    assert forall i | 0 <= i < |front| :: front[i] == properties[i];
    assert IsScalar(last.1);
  }

  /** Properties after the children of a node are kept as they are. */
  lemma {:induction false} PropertiesComeBack(before: seq<(Text, Value)>, properties: seq<(Text, Value)>, id: Text)
    requires ScalarPairs(properties) && DistinctKeys(properties)
    requires Properties(before) == [] && forall key: Text :: PropertyCount(before, key) == 0
    ensures Children(before + properties, id) == Children(before, id)
    ensures Properties(before + properties) == properties
    ensures Warnings(before + properties, id) == Warnings(before, id)
    decreases |properties|
  {
    hide Children;
    hide Properties;
    hide Warnings;
    hide PropertyCount;
    hide ScalarPairs;
    hide DistinctKeys;
    hide HasKey;
    if properties == [] {
      assert before + properties == before;
    } else {
      var n := |properties| - 1;
      var front, last := properties[..n], properties[n];
      FrontIsFine(properties);
      PropertiesComeBack(before, front, id);
      PropertiesAreDistinct(before + front);
      PropertyStep(before + front, last, id);
      PutNew(front, last.0, last.1);
      assert properties == front + [last] && before + front + [last] == before + properties;
    }
  }

  lemma {:induction false} NodeComesBack(node: Node, id: Text)
    requires WellFormed(node)
    ensures Tree(Built(node.kind, Obj(PairsOf(node)), id)) == node
    ensures BuildWarnings(Obj(PairsOf(node)), id) == []
    decreases node, 1
  {
    ChildrenComeBack(node.children, id);
    PropertiesComeBack(ChildPairs(node.children), node.properties, id);
  }

  // ---- The tree that is read back ----

  /** The node with the halves of every character joined; keys that become equal by that share one property. */
  function JoinedNode(node: Node): Node
    decreases node, 1
  {
    Node(node.kind, JoinedNodes(node.children), Properties(JoinedPairs(node.properties)))
  }

  function JoinedNodes(children: seq<Node>): seq<Node>
    decreases children, 0
  {
    if children == [] then [] else JoinedNodes(children[..|children| - 1]) + [JoinedNode(children[|children| - 1])]
  }

  ghost predicate SoundPair(pair: (Text, Value)) {
    Sound(pair.0) && (pair.1.Str? ==> Sound(pair.1.text))
  }

  /** No key and no string of the tree has a character in two halves. The kinds are words without any. */
  ghost predicate SoundNode(node: Node) {
    && (forall i | 0 <= i < |node.properties| :: SoundPair(node.properties[i]))
    && (forall i | 0 <= i < |node.children| :: SoundNode(node.children[i]))
  }

  lemma WidgetStays(key: Text)
    requires IsWidget(key)
    ensures Paired(key) == key
  {
    assert forall i | 0 <= i < |key| :: key[i] < 128;
    PairedLength(key);
  }

  lemma {:induction false} JoinedAppend(a: seq<(Text, Value)>, b: seq<(Text, Value)>)
    ensures JoinedPairs(a + b) == JoinedPairs(a) + JoinedPairs(b)
  {
    hide Paired;
    hide JoinedValue;
    if a == [] {
      assert a + b == b;
    } else {
      assert (a + b)[1..] == a[1..] + b;
      JoinedAppend(a[1..], b);
    }
  }

  lemma {:induction false} JoinedScalars(pairs: seq<(Text, Value)>)
    requires ScalarPairs(pairs)
    ensures forall i | 0 <= i < |pairs| :: !JoinedPairs(pairs)[i].1.Obj?
  {
    hide Paired;
    if pairs != [] {
      assert IsScalar(pairs[0].1);
      JoinedScalars(pairs[1..]);
    }
  }

  /** Pairs that are not objects add properties and nothing else. */
  lemma {:induction false} OnlyProperties(before: seq<(Text, Value)>, pairs: seq<(Text, Value)>, id: Text)
    requires Properties(before) == [] && forall i | 0 <= i < |pairs| :: !pairs[i].1.Obj?
    ensures Children(before + pairs, id) == Children(before, id)
    ensures Properties(before + pairs) == Properties(pairs)
    decreases |pairs|
  {
    hide Children;
    hide Properties;
    if pairs == [] {
      assert before + pairs == before;
      NothingBuilt(id);
    } else {
      var n := |pairs| - 1;
      var front, last := pairs[..n], pairs[n];
      OnlyProperties(before, front, id);
      PropertyStep(before + front, last, id);
      PropertyStep(front, last, id);
      assert pairs == front + [last] && before + front + [last] == before + pairs;
    }
  }

  lemma {:induction false} ChildPairsJoined(children: seq<Node>)
    requires children != [] && IsWidget(children[|children| - 1].kind)
    ensures var n := |children| - 1;
            JoinedPairs(ChildPairs(children)) ==
              JoinedPairs(ChildPairs(children[..n])) + [(children[n].kind, Obj(JoinedPairs(PairsOf(children[n]))))]
  {
    var last := children[|children| - 1];
    ChildPairsFront(children);
    hide PairsOf;
    hide ChildPairs;
    hide Paired;
    JoinedAppend(ChildPairs(children[..|children| - 1]), [(last.kind, Obj(PairsOf(last)))]);
    WidgetStays(last.kind);
    var one := [(last.kind, Obj(PairsOf(last)))];
    assert one[1..] == [] && JoinedPairs(one) == [(last.kind, Obj(JoinedPairs(PairsOf(last))))];
  }

  lemma {:induction false} ChildrenAreRead(children: seq<Node>, id: Text)
    requires forall i | 0 <= i < |children| :: WellFormed(children[i])
    ensures Trees(Children(JoinedPairs(ChildPairs(children)), id)) == JoinedNodes(children)
    ensures Properties(JoinedPairs(ChildPairs(children))) == []
    decreases children, 0
  {
    hide JoinedPairs;
    hide PairsOf;
    hide ChildPairs;
    hide WellFormed;
    hide IsWidget;
    hide Trees;
    hide Tree;
    hide Children;
    hide Properties;
    hide ChildCount;
    hide ChildId;
    hide Built;
    if children == [] {
      NoTrees(id);
      NothingJoined();
    } else {
      var n := |children| - 1;
      var front, last := children[..n], children[n];
      KindIsWidget(last);
      ChildPairsJoined(children);
      ChildrenAreRead(front, id);
      var before, pair := JoinedPairs(ChildPairs(front)), (last.kind, Obj(JoinedPairs(PairsOf(last))));
      var child := ChildId(id, last.kind, ChildCount(before, last.kind));
      ChildStep(before, pair, id);
      NodeIsRead(last, child);
      TreesMore(Children(before, id), Built(pair.0, pair.1, child));
    }
  }

  lemma NothingJoined()
    ensures JoinedPairs([]) == []
  {
  }

  /** The tool builds the joined node from what is read back. */
  lemma {:induction false} NodeIsRead(node: Node, id: Text)
    requires WellFormed(node)
    ensures Tree(Built(node.kind, Obj(JoinedPairs(PairsOf(node))), id)) == JoinedNode(node)
    decreases node, 1
  {
    hide JoinedPairs;
    hide Properties;
    hide Children;
    ChildrenAreRead(node.children, id);
    JoinedScalars(node.properties);
    JoinedAppend(ChildPairs(node.children), node.properties);
    OnlyProperties(JoinedPairs(ChildPairs(node.children)), JoinedPairs(node.properties), id);
  }

  // ---- The joined tree is the tree exactly if it is sound ----

  lemma {:induction false} SoundPairsStay(pairs: seq<(Text, Value)>)
    requires ScalarPairs(pairs) && forall i | 0 <= i < |pairs| :: SoundPair(pairs[i])
    ensures JoinedPairs(pairs) == pairs
  {
    hide Paired;
    hide Sound;
    if pairs != [] {
      var (key, value) := pairs[0];
      assert SoundPair(pairs[0]) && IsScalar(value);
      PairedLength(key);
      if value.Str? {
        PairedLength(value.text);
      }
      SoundPairsStay(pairs[1..]);
    }
  }

  lemma {:induction false} SoundChildrenStay(children: seq<Node>)
    requires forall i | 0 <= i < |children| :: WellFormed(children[i]) && SoundNode(children[i])
    ensures JoinedPairs(ChildPairs(children)) == ChildPairs(children)
    decreases children, 0
  {
    hide JoinedPairs;
    hide PairsOf;
    if children == [] {
      assert JoinedPairs([]) == [];
    } else {
      var n := |children| - 1;
      assert WellFormed(children[n]) && SoundNode(children[n]);
      SoundNodeStays(children[n]);
      SoundChildrenStay(children[..n]);
      ChildPairsFront(children);
      ChildPairsJoined(children);
    }
  }

  lemma {:induction false} SoundNodeStays(node: Node)
    requires WellFormed(node) && SoundNode(node)
    ensures JoinedPairs(PairsOf(node)) == PairsOf(node)
    decreases node, 1
  {
    hide JoinedPairs;
    hide SoundPair;
    hide ScalarPairs;
    SoundChildrenStay(node.children);
    SoundPairsStay(node.properties);
    JoinedAppend(ChildPairs(node.children), node.properties);
  }

  /** The characters of the keys and of the strings. */
  function PairWeight(pair: (Text, Value)): nat { |pair.0| + if pair.1.Str? then |pair.1.text| else 0 }

  function Weight(pairs: seq<(Text, Value)>): nat {
    if pairs == [] then 0 else PairWeight(pairs[0]) + Weight(pairs[1..])
  }

  lemma {:induction false} WeightMore(pairs: seq<(Text, Value)>, last: (Text, Value))
    ensures Weight(pairs + [last]) == Weight(pairs) + PairWeight(last)
  {
    hide PairWeight;
    if pairs != [] {
      assert (pairs + [last])[1..] == pairs[1..] + [last];
      WeightMore(pairs[1..], last);
    }
  }

  lemma {:induction false} PutWeight(properties: seq<(Text, Value)>, key: Text, value: Value)
    ensures Weight(Put(properties, key, value)) <= Weight(properties) + PairWeight((key, value))
  {
    hide PairWeight;
    if properties != [] {
      PutWeight(properties[1..], key, value);
    }
  }

  lemma {:induction false} PropertiesWeight(pairs: seq<(Text, Value)>)
    ensures Weight(Properties(pairs)) <= Weight(pairs)
  {
    hide PairWeight;
    hide Put;
    hide IsChild;
    if pairs != [] {
      var front, last := pairs[..|pairs| - 1], pairs[|pairs| - 1];
      PropertiesWeight(front);
      WeightMore(front, last);
      assert pairs == front + [last];
      PutWeight(Properties(front), last.0, last.1);
    }
  }

  /** Joining takes weight from everything that is not sound. */
  lemma {:induction false} JoinedWeight(pairs: seq<(Text, Value)>)
    requires ScalarPairs(pairs)
    ensures Weight(JoinedPairs(pairs)) <= Weight(pairs)
    ensures Weight(JoinedPairs(pairs)) == Weight(pairs) ==> forall i | 0 <= i < |pairs| :: SoundPair(pairs[i])
  {
    hide Paired;
    hide Sound;
    if pairs != [] {
      var (key, value) := pairs[0];
      assert IsScalar(value);
      PairedLength(key);
      if value.Str? {
        PairedLength(value.text);
      }
      JoinedWeight(pairs[1..]);
      assert forall i | 0 < i < |pairs| :: pairs[i] == pairs[1..][i - 1];
      var joined := JoinedPairs(pairs);
      assert joined[0] == (Paired(key), JoinedValue(value)) && joined[1..] == JoinedPairs(pairs[1..]);
    }
  }

  lemma {:induction false} JoinedNodesAt(children: seq<Node>, i: nat)
    requires i < |children|
    ensures |JoinedNodes(children)| == |children| && JoinedNodes(children)[i] == JoinedNode(children[i])
  {
    hide JoinedNode;
    var n := |children| - 1;
    if i < n {
      JoinedNodesAt(children[..n], i);
    } else if n > 0 {
      JoinedNodesAt(children[..n], 0);
    }
  }

  lemma {:induction false} OnlySoundStays(node: Node)
    requires WellFormed(node) && JoinedNode(node) == node
    ensures SoundNode(node)
  {
    hide SoundPair;
    hide Properties;
    JoinedWeight(node.properties);
    PropertiesWeight(JoinedPairs(node.properties));
    forall i | 0 <= i < |node.children|
      ensures SoundNode(node.children[i])
    {
      JoinedNodesAt(node.children, i);
      OnlySoundStays(node.children[i]);
    }
  }

  /** What is read back is the tree itself exactly if every key and string in it is sound. */
  lemma {:induction false} SoundExactlyStays(node: Node, id: Text)
    requires WellFormed(node)
    ensures JoinedNode(node) == node <==> SoundNode(node)
    ensures SoundNode(node) ==> JoinedPairs(PairsOf(node)) == PairsOf(node) && BuildWarnings(Obj(PairsOf(node)), id) == []
  {
    hide SoundNode;
    hide JoinedNode;
    hide JoinedPairs;
    hide PairsOf;
    hide WellFormed;
    hide Built;
    hide Tree;
    if JoinedNode(node) == node {
      OnlySoundStays(node);
    }
    if SoundNode(node) {
      SoundNodeStays(node);
      NodeIsRead(node, id);
      NodeComesBack(node, id);
    }
  }

  // ---- The text of a printed document ----

  lemma CleanJoin(a: Text, b: Text)
    requires Clean(a) && Clean(b)
    ensures Clean(a + b)
  {
  }

  lemma {:induction false} EscapedIsClean(s: Text)
    requires IsText(s)
    ensures Clean(Escaped(s))
  {
    if s != [] {
      EscapedIsClean(s[1..]);
      assert Clean(EscapedChar(s[0]));
      CleanJoin(EscapedChar(s[0]), Escaped(s[1..]));
    }
  }

  lemma {:induction false} TabsAreClean(n: nat)
    ensures Clean(Tabs(n))
  {
    if n > 0 {
      TabsAreClean(n - 1);
      CleanJoin([TAB], Tabs(n - 1));
    }
  }

  lemma ScalarIsClean(value: Value)
    requires IsScalar(value)
    ensures Clean(ScalarText(value))
  {
    match value
    case Str(s) =>
      EscapedIsClean(s);
      hide Escaped;
    case Num(n) =>
      var digits := Decimal(if n < 0 then 0 - n else n);
      assert forall i | 0 <= i < |digits| :: IsDigit(digits[i]);
      hide Decimal;
    case Real(_) =>
    case Bool(_) =>
    case Null =>
  }

  lemma {:induction false} UniversalClean(a: Text, rest: Text)
    requires Clean(a)
    ensures Universal(a + rest) == a + Universal(rest)
  {
    if a == [] {
      assert a + rest == rest;
    } else {
      assert (a + rest)[1..] == a[1..] + rest;
      UniversalClean(a[1..], rest);
    }
  }

  lemma {:induction false} UniversalNewline(newline: Text, rest: Text)
    requires IsNewline(newline)
    ensures Universal(newline + rest) == [10] + Universal(rest)
  {
    var text := newline + rest;
    assert text[|newline|..] == rest;
    if |newline| == 1 {
      assert Universal(text) == [10] + Universal(text[1..]);
    }
  }

  /** What is printed with either line ending is read with line feeds. */
  lemma {:induction false} UniversalValue(value: Value, level: nat, newline: Text, rest: Text)
    requires IsNewline(newline) && IsPrintable(value)
    ensures Universal(ValueText(value, level, newline) + rest) == ValueText(value, level, [10]) + Universal(rest)
    decreases value, 0
  {
    hide Universal;
    hide Tabs;
    hide PairsText;
    hide ScalarText;
    hide Clean;
    if !value.Obj? {
      ScalarIsClean(value);
      UniversalClean(ScalarText(value), rest);
    } else {
      var inside, end := PairsText(value.pairs, level + 1, newline), Tabs(level) + [CLOSE];
      assert ValueText(value, level, newline) + rest == [OPEN] + (newline + (inside + (end + rest)));
      assert Clean([OPEN]) && Clean([CLOSE]) by { BracesAreClean(); }
      UniversalClean([OPEN], newline + (inside + (end + rest)));
      UniversalNewline(newline, inside + (end + rest));
      UniversalPairs(value.pairs, level + 1, newline, end + rest);
      TabsAreClean(level);
      CleanJoin(Tabs(level), [CLOSE]);
      UniversalClean(end, rest);
      ValueRegroups(PairsText(value.pairs, level + 1, [10]), Tabs(level), Universal(rest));
    }
  }

  lemma BracesAreClean()
    ensures Clean([OPEN]) && Clean([CLOSE]) && Clean([COLON]) && Clean([COMMA]) && Clean([])
  {
  }

  lemma ValueRegroups(inside: Text, tabs: Text, rest: Text)
    ensures [OPEN] + ([10] + (inside + ((tabs + [CLOSE]) + rest))) == [OPEN] + [10] + inside + tabs + [CLOSE] + rest
  {
  }

  lemma PairRegroups(tabs: Text, quoted: Text, value: Text, rest: Text)
    ensures tabs + (quoted + ([COLON] + value)) + rest == tabs + (quoted + ([COLON] + (value + rest)))
  {
  }

  lemma {:induction false} UniversalPair(key: Text, value: Value, level: nat, newline: Text, rest: Text)
    requires IsNewline(newline) && IsText(key) && IsPrintable(value)
    ensures Universal(PairText(key, value, level, newline) + rest) == PairText(key, value, level, [10]) + Universal(rest)
    decreases value, 1
  {
    hide Universal;
    hide Tabs;
    hide Quoted;
    hide Clean;
    hide ValueText;
    hide IsPrintable;
    var text := ValueText(value, level, newline);
    PairRegroups(Tabs(level), Quoted(key), text, rest);
    PairRegroups(Tabs(level), Quoted(key), ValueText(value, level, [10]), Universal(rest));
    TabsAreClean(level);
    QuotedIsClean(key);
    BracesAreClean();
    UniversalClean(Tabs(level), Quoted(key) + ([COLON] + (text + rest)));
    UniversalClean(Quoted(key), [COLON] + (text + rest));
    UniversalClean([COLON], text + rest);
    UniversalValue(value, level, newline, rest);
  }

  lemma QuotedIsClean(key: Text)
    requires IsText(key)
    ensures Clean(Quoted(key))
  {
    EscapedIsClean(key);
    hide Escaped;
  }

  lemma {:induction false} UniversalPairs(pairs: seq<(Text, Value)>, level: nat, newline: Text, rest: Text)
    requires IsNewline(newline) && PrintablePairs(pairs)
    ensures Universal(PairsText(pairs, level, newline) + rest) == PairsText(pairs, level, [10]) + Universal(rest)
    decreases pairs, 1
  {
    hide Universal;
    hide PairText;
    hide Clean;
    hide IsPrintable;
    if pairs == [] {
      assert PairsText(pairs, level, newline) + rest == rest;
    } else {
      PairsTextStep(pairs, level, newline, rest);
      PairsTextStep(pairs, level, [10], Universal(rest));
      hide PairsText;
      var comma := if |pairs| > 1 then [COMMA] else [];
      var others := PairsText(pairs[1..], level, newline) + rest;
      UniversalPair(pairs[0].0, pairs[0].1, level, newline, comma + (newline + others));
      BracesAreClean();
      UniversalClean(comma, newline + others);
      UniversalNewline(newline, others);
      UniversalPairs(pairs[1..], level, newline, rest);
    }
  }

  /** Whatever follows a printed document, the tool sees the document with line feeds and then the rest. */
  lemma {:induction false} DocumentIsReadAsText(root: Node, newline: Text, tail: Text)
    requires IsNewline(newline) && PrintablePairs(DocumentPairs(root))
    ensures ReadText(DocumentText(root, newline) + tail) == DocumentText(root, [10]) + Universal(tail)
  {
    var value := Obj(DocumentPairs(root));
    var text := DocumentText(root, newline) + tail;
    assert text == ValueText(value, 0, newline) + (newline + tail);
    assert text[0] == OPEN;
    UniversalValue(value, 0, newline, newline + tail);
    UniversalNewline(newline, tail);
    assert DocumentText(root, [10]) + Universal(tail) == ValueText(value, 0, [10]) + ([10] + Universal(tail));
    hide ValueText;
    hide Universal;
  }

  /** Behind the document only closing braces are taken, with one warning about all of them. */
  lemma PairsComeBack(root: Node, tail: Text)
    requires PrintablePairs(DocumentPairs(root))
    ensures ParsePairs(DocumentText(root, [10]) + tail) ==
      if AllBraces(Strip(tail)) then Parsed(JoinedPairs(DocumentPairs(root)), Surplus(Strip(tail)))
      else Refused(TrailingData)
  {
    var value := Obj(DocumentPairs(root));
    var printed := ValueText(value, 0, [10]);
    var text := DocumentText(root, [10]) + tail;
    assert text == printed + ([10] + tail);
    assert text[..|printed|] == printed && text[|printed|..] == [10] + tail;
    assert printed[0] == OPEN && text[0] == OPEN;
    assert text[|printed|] == 10;
    assert At(text, 0, printed) && Ends(text, |printed|);
    hide ValueText;
    hide ScanValue;
    hide At;
    hide JoinedPairs;
    ValueReads(text, 0, value, 0, [10]);
    assert Strings.StripLeft([10] + tail, LayoutReader.IsSpace) == Strings.StripLeft(tail, LayoutReader.IsSpace) by {
      assert ([10] + tail)[1..] == tail;
    }
  }

  lemma DocumentPairsJoined(root: Node)
    requires IsWidget(root.kind)
    ensures JoinedPairs(DocumentPairs(root)) == [(root.kind, Obj(JoinedPairs(PairsOf(root))))]
  {
    hide PairsOf;
    hide Paired;
    WidgetStays(root.kind);
    var pairs := DocumentPairs(root);
    assert pairs[1..] == [];
  }

  /**
   A printed layout, whatever its line ending, is read back exactly if what follows it is only braces. The
   tree is the printed one with the halves of every character joined, so it is the same tree exactly if no
   key and no string had a character in two halves.
   */
  lemma {:induction false} LayoutComesBack(root: Node, newline: Text, tail: Text)
    requires WellFormed(root) && IsNewline(newline)
    ensures PrintablePairs(DocumentPairs(root))
    ensures var parsed, trailing := ParsedLayout(DocumentText(root, newline) + tail), Strip(Universal(tail));
            if AllBraces(trailing) then
              && parsed.Parsed? && Tree(parsed.value) == Node(Chars("document"), [JoinedNode(root)], [])
              && (Tree(parsed.value) == Node(Chars("document"), [root], []) <==> SoundNode(root))
              && (SoundNode(root) ==> parsed.diagnostics == Surplus(trailing))
            else parsed == Refused(TrailingData)
  {
    DocumentIsPrintable(root);
    hide IsPrintable;
    hide DocumentText;
    hide ParsePairs;
    hide Strip;
    hide Universal;
    hide ReadText;
    hide AllBraces;
    hide Surplus;
    DocumentIsReadAsText(root, newline, tail);
    PairsComeBack(root, Universal(tail));
    DocumentPairsJoined(root);
    hide JoinedPairs;
    hide DocumentPairs;
    hide PairsOf;
    var value, id := Obj(JoinedPairs(PairsOf(root))), TopId(root.kind, 0);
    TopLevel(root.kind, value);
    NodeIsRead(root, id);
    SoundExactlyStays(root, id);
    OneTree(Built(root.kind, value, id));
    hide WellFormed;
    hide SoundNode;
    hide JoinedNode;
    hide TopChildren;
    hide TopWarnings;
    hide Built;
    hide BuildWarnings;
  }

  lemma {:induction false} OneTree(widget: Widget)
    ensures Trees([widget]) == [Tree(widget)]
  {
    TreesMore([], widget);
    assert [] + [widget] == [widget] && Trees([]) == [];
  }

  lemma {:induction false} TopLevel(kind: Text, value: Value)
    requires IsWidget(kind) && value.Obj?
    ensures TopChildren([(kind, value)]) == [Built(kind, value, TopId(kind, 0))]
    ensures TopWarnings([(kind, value)]) == BuildWarnings(value, TopId(kind, 0))
  {
    hide IsWidget;
    hide TopId;
    hide Built;
    hide BuildWarnings;
    var pairs := [(kind, value)];
    assert pairs[..0] == [] && TopChildren([]) == [] && TopWarnings([]) == [] && ChildCount([], kind) == 0;
  }

  function Braces(n: nat): (text: Text)
    ensures |text| == n && AllBraces(text)
  {
    if n == 0 then [] else [CLOSE] + Braces(n - 1)
  }

  lemma {:induction false} BracesStay(n: nat)
    ensures Universal(Braces(n)) == Braces(n) && Strip(Braces(n)) == Braces(n)
  {
    if n > 0 {
      BracesStay(n - 1);
      assert Braces(n)[1..] == Braces(n - 1);
      assert Braces(n)[|Braces(n)| - 1] == CLOSE;
    }
  }

  lemma {:induction false} ParsedWith(root: Node, newline: Text, n: nat)
    requires IsNewline(newline) && PrintablePairs(DocumentPairs(root))
    ensures var pairs := JoinedPairs(DocumentPairs(root));
            ParsedLayout(DocumentText(root, newline) + Braces(n)) ==
              Parsed(Widget(Chars("document"), Chars("root"), TopChildren(pairs), []), Surplus(Braces(n)) + TopWarnings(pairs))
  {
    hide IsPrintable;
    hide DocumentText;
    hide ParsePairs;
    hide ReadText;
    hide Universal;
    hide Strip;
    hide Surplus;
    hide AllBraces;
    hide JoinedPairs;
    hide TopChildren;
    hide TopWarnings;
    BracesStay(n);
    DocumentIsReadAsText(root, newline, Braces(n));
    PairsComeBack(root, Braces(n));
  }

  /** Any number of surplus braces changes nothing but one warning. */
  lemma {:induction false} SurplusBracesOnlyWarn(root: Node, newline: Text, n: nat)
    requires WellFormed(root) && IsNewline(newline)
    ensures PrintablePairs(DocumentPairs(root))
    ensures var text := DocumentText(root, newline);
            var plain, surplus := ParsedLayout(text), ParsedLayout(text + Braces(n));
            && plain.Parsed? && surplus.Parsed? && surplus.value == plain.value
            && surplus.diagnostics == (if n == 0 then [] else [SurplusBraces(n)]) + plain.diagnostics
  {
    DocumentIsPrintable(root);
    hide IsPrintable;
    hide WellFormed;
    hide DocumentText;
    hide ParsedLayout;
    hide JoinedPairs;
    hide TopChildren;
    hide TopWarnings;
    ParsedWith(root, newline, 0);
    ParsedWith(root, newline, n);
    WarnedOf(n);
    WarnedOf(0);
    hide Surplus;
    hide Braces;
    var text, warnings := DocumentText(root, newline), TopWarnings(JoinedPairs(DocumentPairs(root)));
    assert text + Braces(0) == text && [] + warnings == warnings;
  }

  lemma WarnedOf(n: nat)
    ensures Surplus(Braces(n)) == if n == 0 then [] else [SurplusBraces(n)]
  {
  }
}
