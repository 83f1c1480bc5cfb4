/**
 The layout tool: the pairs of a layout file, the tree of widgets built from them, and that no pair gets lost
 without a word.
 */
module LayoutReader {
  import opened Numbers
  import Strings = Text
  import opened Json
  import opened Layout

  datatype Diagnostic =
    | SurplusBraces(count: nat)
    | DuplicateProperty(key: Text, node: Text)
    | UnknownKey(key: Text)

  /** A node as the tool builds it. The properties are a dictionary: distinct keys, in the order of their first use. */
  datatype Widget = Widget(kind: Text, id: Text, children: seq<Widget>, properties: seq<(Text, Value)>)

  datatype LayoutError = InvalidJson | NotAnObject | TrailingData

  datatype Parsed<T> = Parsed(value: T, diagnostics: seq<Diagnostic>) | Refused(error: LayoutError)

  predicate IsChild(pair: (Text, Value)) { IsWidget(pair.0) && pair.1.Obj? }

  function ChildCount(pairs: seq<(Text, Value)>, key: Text): nat {
    if pairs == [] then 0
    else
      var last := pairs[|pairs| - 1];
      ChildCount(pairs[..|pairs| - 1], key) + if IsChild(last) && last.0 == key then 1 else 0
  }

  function PropertyCount(pairs: seq<(Text, Value)>, key: Text): nat {
    if pairs == [] then 0
    else
      var last := pairs[|pairs| - 1];
      PropertyCount(pairs[..|pairs| - 1], key) + if !IsChild(last) && last.0 == key then 1 else 0
  }

  /** The name of a node: its key and its number in brackets, and below a node the name of that one before a slash. */
  function TopId(key: Text, index: nat): Text { key + [91] + Decimal(index) + [93] }

  function ChildId(node: Text, key: Text, index: nat): Text { node + [47] + TopId(key, index) }

  /** A property set: in the place of its key, or behind all others. */
  function Put(properties: seq<(Text, Value)>, key: Text, value: Value): seq<(Text, Value)> {
    if properties == [] then [(key, value)]
    else if properties[0].0 == key then [(key, value)] + properties[1..]
    else [properties[0]] + Put(properties[1..], key, value)
  }

  /** The objects under widget keys, in order. */
  function Children(pairs: seq<(Text, Value)>, id: Text): seq<Widget>
    decreases pairs, 0
  {
    if pairs == [] then []
    else
      var front, last := pairs[..|pairs| - 1], pairs[|pairs| - 1];
      assert Obj(pairs) decreases to last.1;
      assert pairs decreases to last.1;
      if !IsChild(last) then Children(front, id)
      else
        var child := ChildId(id, last.0, ChildCount(front, last.0));
        Children(front, id) + [Built(last.0, last.1, child)]
  }

  function Built(kind: Text, value: Value, id: Text): Widget
    requires value.Obj?
    decreases value, 1
  {
    Widget(kind, id, Children(value.pairs, id), Properties(value.pairs))
  }

  /** All other pairs. */
  function Properties(pairs: seq<(Text, Value)>): seq<(Text, Value)> {
    if pairs == [] then []
    else
      var front, last := pairs[..|pairs| - 1], pairs[|pairs| - 1];
      if IsChild(last) then Properties(front) else Put(Properties(front), last.0, last.1)
  }

  /** What is said about a repeated property, here and below. */
  function Warnings(pairs: seq<(Text, Value)>, id: Text): seq<Diagnostic>
    decreases pairs, 0
  {
    if pairs == [] then []
    else
      var front, last := pairs[..|pairs| - 1], pairs[|pairs| - 1];
      assert Obj(pairs) decreases to last.1;
      assert pairs decreases to last.1;
      Warnings(front, id) +
      if IsChild(last) then BuildWarnings(last.1, ChildId(id, last.0, ChildCount(front, last.0)))
      else if PropertyCount(front, last.0) > 0 then [DuplicateProperty(last.0, id)]
      else []
  }

  function BuildWarnings(value: Value, id: Text): seq<Diagnostic>
    requires value.Obj?
    decreases value, 1
  {
    Warnings(value.pairs, id)
  }

  /** A Counter. */
  function Tally(counts: map<Text, nat>, key: Text): nat { if key in counts then counts[key] else 0 }

  /** What one more pair adds. */
  lemma {:induction false} BuildStep(pairs: seq<(Text, Value)>, i: nat, id: Text)
    requires i < |pairs|
    ensures var front, more, last := pairs[..i], pairs[..i + 1], pairs[i];
            if IsChild(last) then
              var child := ChildId(id, last.0, ChildCount(front, last.0));
              && Children(more, id) == Children(front, id) + [Built(last.0, last.1, child)]
              && Properties(more) == Properties(front)
              && Warnings(more, id) == Warnings(front, id) + BuildWarnings(last.1, child)
            else
              && Children(more, id) == Children(front, id)
              && Properties(more) == Put(Properties(front), last.0, last.1)
              && Warnings(more, id) == Warnings(front, id) +
                   if PropertyCount(front, last.0) > 0 then [DuplicateProperty(last.0, id)] else []
  {
    hide IsWidget;
    hide ChildId;
    hide Put;
    hide Built;
    hide BuildWarnings;
    assert pairs[..i + 1][..i] == pairs[..i] && pairs[..i + 1][i] == pairs[i];
  }

  lemma {:induction false} CountStep(pairs: seq<(Text, Value)>, i: nat, key: Text)
    requires i < |pairs|
    ensures ChildCount(pairs[..i + 1], key) ==
      ChildCount(pairs[..i], key) + if IsChild(pairs[i]) && pairs[i].0 == key then 1 else 0
    ensures PropertyCount(pairs[..i + 1], key) ==
      PropertyCount(pairs[..i], key) + if !IsChild(pairs[i]) && pairs[i].0 == key then 1 else 0
  {
    hide IsWidget;
    assert pairs[..i + 1][..i] == pairs[..i] && pairs[..i + 1][i] == pairs[i];
  }

  lemma {:induction false} NothingBuilt(id: Text)
    ensures Children([], id) == [] && Properties([]) == [] && Warnings([], id) == []
    ensures forall key: Text :: ChildCount([], key) == 0 && PropertyCount([], key) == 0
  {
  }

  // ---- Any layout: every pair becomes a node, a property or a warning ----

  ghost predicate HasKey(properties: seq<(Text, Value)>, key: Text) {
    exists i | 0 <= i < |properties| :: properties[i].0 == key
  }

  /** A new key goes behind the others. */
  lemma {:induction false} PutNew(properties: seq<(Text, Value)>, key: Text, value: Value)
    requires forall i | 0 <= i < |properties| :: properties[i].0 != key
    ensures Put(properties, key, value) == properties + [(key, value)]
  {
    if properties != [] {
      var rest := properties[1..];
      assert forall i | 0 <= i < |rest| :: rest[i] == properties[i + 1];
      PutNew(rest, key, value);
      assert properties == [properties[0]] + rest;
    }
  }

  /** An old key keeps its place. */
  lemma {:induction false} PutOver(properties: seq<(Text, Value)>, key: Text, value: Value, i: nat)
    requires i < |properties| && properties[i].0 == key && forall j | 0 <= j < i :: properties[j].0 != key
    ensures Put(properties, key, value) == properties[i := (key, value)]
  {
    if i > 0 {
      var rest := properties[1..];
      assert forall j | 0 <= j < |rest| :: rest[j] == properties[j + 1];
      PutOver(rest, key, value, i - 1);
      assert properties[i := (key, value)] == [properties[0]] + rest[i - 1 := (key, value)];
    }
  }

  lemma {:induction false} PutKeeps(properties: seq<(Text, Value)>, key: Text, value: Value)
    requires DistinctKeys(properties)
    ensures var put := Put(properties, key, value);
            && DistinctKeys(put) && (key, value) in put
            && |put| == |properties| + (if HasKey(properties, key) then 0 else 1)
            && (forall other: Text :: HasKey(put, other) <==> (other == key || HasKey(properties, other)))
            && (forall pair :: pair in properties && pair.0 != key ==> pair in put)
  {
    hide Put;
    var put := Put(properties, key, value);
    var i := |properties|;
    if HasKey(properties, key) {
      i :| 0 <= i < |properties| && properties[i].0 == key;
      PutOver(properties, key, value, i);
    } else {
      PutNew(properties, key, value);
    }
    assert put[i] == (key, value) && forall j | 0 <= j < |properties| && j != i :: put[j] == properties[j];
    forall other: Text
      ensures HasKey(put, other) <==> (other == key || HasKey(properties, other))
    {
      if HasKey(properties, other) {
        var j :| 0 <= j < |properties| && properties[j].0 == other;
        assert put[j].0 == other;
      }
      if HasKey(put, other) {
        var j :| 0 <= j < |put| && put[j].0 == other;
        assert j < |properties| ==> properties[j].0 == other;
      }
      assert put[i].0 == key;
    }
    forall pair | pair in properties && pair.0 != key
      ensures pair in put
    {
      var j :| 0 <= j < |properties| && properties[j] == pair;
      assert put[j] == pair;
    }
  }

  /** A dictionary holds one entry for each key that occurs. */
  lemma {:induction false} PropertiesAreDistinct(pairs: seq<(Text, Value)>)
    ensures DistinctKeys(Properties(pairs))
    ensures forall key: Text :: HasKey(Properties(pairs), key) <==> PropertyCount(pairs, key) > 0
  {
    if pairs != [] {
      var front, last := pairs[..|pairs| - 1], pairs[|pairs| - 1];
      PropertiesAreDistinct(front);
      if !IsChild(last) {
        PutKeeps(Properties(front), last.0, last.1);
      }
      hide IsWidget;
      hide Put;
      hide HasKey;
      hide DistinctKeys;
    }
  }

  predicate Decides(pairs: seq<(Text, Value)>, i: nat)
    requires i < |pairs|
  {
    !IsChild(pairs[i]) && forall j | i < j < |pairs| :: pairs[j].0 == pairs[i].0 ==> IsChild(pairs[j])
  }

  /** The last value of a property is the one that is used. */
  lemma {:induction false} LastValueWins(pairs: seq<(Text, Value)>, i: nat)
    requires i < |pairs| && Decides(pairs, i)
    ensures pairs[i] in Properties(pairs)
  {
    var n := |pairs| - 1;
    var front, last := pairs[..n], pairs[n];
    PropertiesAreDistinct(front);
    if i == n {
      PutKeeps(Properties(front), last.0, last.1);
    } else {
      assert Decides(front, i);
      LastValueWins(front, i);
      if !IsChild(last) {
        PutKeeps(Properties(front), last.0, last.1);
      }
    }
  }

  /** The pairs of an object and of the widgets in it. */
  function Pieces(pairs: seq<(Text, Value)>): nat
    decreases pairs, 0
  {
    if pairs == [] then 0
    else
      var front, last := pairs[..|pairs| - 1], pairs[|pairs| - 1];
      assert Obj(pairs) decreases to last.1;
      assert pairs decreases to last.1;
      Pieces(front) + 1 + if IsChild(last) then ObjectPieces(last.1) else 0
  }

  function ObjectPieces(value: Value): nat
    requires value.Obj?
    decreases value, 1
  {
    Pieces(value.pairs)
  }

  /** The nodes and the properties below a node. */
  function Held(node: Widget): nat
    decreases node, 1
  {
    HeldBelow(node.children) + |node.properties|
  }

  function HeldBelow(children: seq<Widget>): nat
    decreases children, 0
  {
    if children == [] then 0
    else HeldBelow(children[..|children| - 1]) + 1 + Held(children[|children| - 1])
  }

  /** Every pair is a node, a property or one warning. */
  lemma {:induction false} NothingIsSilent(pairs: seq<(Text, Value)>, id: Text)
    ensures Pieces(pairs) == HeldBelow(Children(pairs, id)) + |Properties(pairs)| + |Warnings(pairs, id)|
    decreases pairs, 0
  {
    if pairs != [] {
      var front, last := pairs[..|pairs| - 1], pairs[|pairs| - 1];
      assert Obj(pairs) decreases to last.1;
      assert pairs decreases to last.1;
      NothingIsSilent(front, id);
      PropertiesAreDistinct(front);
      hide IsWidget;
      hide HasKey;
      if IsChild(last) {
        var child := ChildId(id, last.0, ChildCount(front, last.0));
        ObjectIsNotSilent(last.0, last.1, child);
        HeldMore(Children(front, id), Built(last.0, last.1, child));
      } else {
        PutKeeps(Properties(front), last.0, last.1);
      }
    }
  }

  lemma {:induction false} ObjectIsNotSilent(kind: Text, value: Value, id: Text)
    requires value.Obj?
    ensures ObjectPieces(value) == Held(Built(kind, value, id)) + |BuildWarnings(value, id)|
    decreases value, 1
  {
    NothingIsSilent(value.pairs, id);
  }

  lemma {:induction false} HeldMore(children: seq<Widget>, child: Widget)
    ensures HeldBelow(children + [child]) == HeldBelow(children) + 1 + Held(child)
  {
    assert (children + [child])[..|children|] == children;
  }

  // ---- The loop that builds a node ----

  /** What the contract of the loop says beside the node itself. */
  lemma BuiltIsComplete(kind: Text, value: Value, id: Text)
    requires value.Obj?
    ensures var node := Built(kind, value, id);
            && DistinctKeys(node.properties)
            && (forall i | 0 <= i < |value.pairs| && Decides(value.pairs, i) :: value.pairs[i] in node.properties)
            && ObjectPieces(value) == Held(node) + |BuildWarnings(value, id)|
  {
    hide Decides;
    hide DistinctKeys;
    hide HasKey;
    hide Properties;
    hide Children;
    hide Held;
    hide ObjectPieces;
    hide BuildWarnings;
    PropertiesAreDistinct(value.pairs);
    ObjectIsNotSilent(kind, value, id);
    forall i | 0 <= i < |value.pairs| && Decides(value.pairs, i)
      ensures value.pairs[i] in Properties(value.pairs)
    {
      LastValueWins(value.pairs, i);
    }
  }

  /** _build_node */
  method BuildNode(kind: Text, value: Value, id: Text, diagnostics: seq<Diagnostic>)
    returns (node: Widget, all: seq<Diagnostic>)
    requires value.Obj?
    ensures node == Built(kind, value, id)
    ensures all == diagnostics + BuildWarnings(value, id)
    ensures DistinctKeys(node.properties)
    ensures forall i | 0 <= i < |value.pairs| && Decides(value.pairs, i) :: value.pairs[i] in node.properties
    ensures ObjectPieces(value) == Held(node) + |all| - |diagnostics|
    decreases value
  {
    hide IsWidget;
    hide ChildId;
    hide Put;
    hide Children;
    hide Properties;
    hide Warnings;
    hide ChildCount;
    hide PropertyCount;
    hide DistinctKeys;
    hide Decides;
    hide Held;
    hide ObjectPieces;
    NothingBuilt(id);
    var children, properties: seq<(Text, Value)> := [], [];
    var childCounts: map<Text, nat>, propertyCounts: map<Text, nat> := map[], map[];
    all := diagnostics;
    var pairs := value.pairs;
    assert pairs[..0] == [];
    for i := 0 to |pairs|
      invariant children == Children(pairs[..i], id) && properties == Properties(pairs[..i])
      invariant all == diagnostics + Warnings(pairs[..i], id)
      invariant forall key: Text :: Tally(childCounts, key) == ChildCount(pairs[..i], key)
      invariant forall key: Text :: Tally(propertyCounts, key) == PropertyCount(pairs[..i], key)
    {
      var (key, item) := pairs[i];
      BuildStep(pairs, i, id);
      if IsWidget(key) && item.Obj? {
        var index := Tally(childCounts, key);
        childCounts := childCounts[key := index + 1];
        var child;
        child, all := BuildNode(key, item, ChildId(id, key, index), all);
        children := children + [child];
      } else {
        propertyCounts := propertyCounts[key := Tally(propertyCounts, key) + 1];
        if propertyCounts[key] > 1 {
          all := all + [DuplicateProperty(key, id)];
        }
        properties := Put(properties, key, item);
      }
      forall k: Text
        ensures Tally(childCounts, k) == ChildCount(pairs[..i + 1], k)
        ensures Tally(propertyCounts, k) == PropertyCount(pairs[..i + 1], k)
      {
        CountStep(pairs, i, k);
      }
    }
    assert pairs[..|pairs|] == pairs;
    node := Widget(kind, id, children, properties);
    BuiltIsComplete(kind, value, id);
  }

  // ---- The top level ----

  // "layout", "document", "root"
  const LAYOUT: Text := Chars("layout")

  function TopChildren(pairs: seq<(Text, Value)>): seq<Widget> {
    if pairs == [] then []
    else
      var front, last := pairs[..|pairs| - 1], pairs[|pairs| - 1];
      TopChildren(front) +
      if IsChild(last) then [Built(last.0, last.1, TopId(last.0, ChildCount(front, last.0)))]
      else if last.0 == LAYOUT && last.1.Obj? then [Built(last.0, last.1, TopId(LAYOUT, 0))]
      else []
  }

  function TopWarnings(pairs: seq<(Text, Value)>): seq<Diagnostic> {
    if pairs == [] then []
    else
      var front, last := pairs[..|pairs| - 1], pairs[|pairs| - 1];
      TopWarnings(front) +
      if IsChild(last) then BuildWarnings(last.1, TopId(last.0, ChildCount(front, last.0)))
      else if last.0 == LAYOUT && last.1.Obj? then BuildWarnings(last.1, TopId(LAYOUT, 0))
      else [UnknownKey(last.0)]
  }

  predicate IsTop(pair: (Text, Value)) { (IsWidget(pair.0) || pair.0 == LAYOUT) && pair.1.Obj? }

  /** The pairs of a document and of the widgets in it. */
  function TopPieces(pairs: seq<(Text, Value)>): nat {
    if pairs == [] then 0
    else
      var last := pairs[|pairs| - 1];
      TopPieces(pairs[..|pairs| - 1]) + 1 + if IsTop(last) then ObjectPieces(last.1) else 0
  }

  /** On the top level, too, every pair is a node, a property or one warning. */
  lemma {:induction false} NothingIsSilentOnTop(pairs: seq<(Text, Value)>)
    ensures TopPieces(pairs) == HeldBelow(TopChildren(pairs)) + |TopWarnings(pairs)|
  {
    hide Held;
    hide HeldBelow;
    hide ObjectPieces;
    hide Built;
    hide BuildWarnings;
    hide IsWidget;
    hide TopId;
    if pairs == [] {
      NothingHeld();
    } else {
      var front, last := pairs[..|pairs| - 1], pairs[|pairs| - 1];
      NothingIsSilentOnTop(front);
      if IsTop(last) {
        var id := if IsChild(last) then TopId(last.0, ChildCount(front, last.0)) else TopId(LAYOUT, 0);
        ObjectIsNotSilent(last.0, last.1, id);
        HeldMore(TopChildren(front), Built(last.0, last.1, id));
      } else {
        assert TopChildren(front) + [] == TopChildren(front);
      }
    }
  }

  lemma {:induction false} NothingOnTop()
    ensures TopChildren([]) == [] && TopWarnings([]) == [] && forall key: Text :: ChildCount([], key) == 0
  {
  }

  lemma NothingHeld()
    ensures HeldBelow([]) == 0
  {
  }

  /** read_text with universal newlines: a carriage return, alone or before a line feed, is a line feed. */
  function Universal(text: Text): (r: Text) {
    if text == [] then []
    else if text[0] == 13 then [10] + Universal(text[if |text| > 1 && text[1] == 10 then 2 else 1..])
    else [text[0]] + Universal(text[1..])
  }

  /** The encoding utf-8-sig drops one byte order mark. */
  function ReadText(file: Text): Text { Universal(if file != [] && file[0] == 0xFEFF then file[1..] else file) }

  /** What lstrip takes from the front of a layout. */
  function Start(text: Text, k: nat): (n: nat)
    requires k <= |text|
    ensures k <= n <= |text|
    decreases |text| - k
  {
    if k < |text| && (text[k] == 0xFEFF || Blank(text[k])) then Start(text, k + 1) else k
  }

  predicate IsSpace(c: int) {
    9 <= c <= 13 || 28 <= c <= 32 || c == 0x85 || c == 0xA0 || c == 0x1680 || 0x2000 <= c <= 0x200A
    || c == 0x2028 || c == 0x2029 || c == 0x202F || c == 0x205F || c == 0x3000
  }

  function Strip(text: Text): Text { Strings.Strip(text, IsSpace) }

  predicate AllBraces(text: Text) { forall i | 0 <= i < |text| :: text[i] == CLOSE }

  function Surplus(trailing: Text): seq<Diagnostic> { if trailing == [] then [] else [SurplusBraces(|trailing|)] }

  /** parse_pairs */
  function ParsePairs(text: Text): Parsed<seq<(Text, Value)>> {
    match ScanValue(text, Start(text, 0))
    case None => Refused(InvalidJson)
    case Some((value, end)) =>
      if !value.Obj? then Refused(NotAnObject)
      else
        var trailing := Strip(text[end..]);
        if !AllBraces(trailing) then Refused(TrailingData) else Parsed(value.pairs, Surplus(trailing))
  }

  function ParsedLayout(file: Text): Parsed<Widget> {
    match ParsePairs(ReadText(file))
    case Refused(error) => Refused(error)
    case Parsed(pairs, diagnostics) =>
      Parsed(Widget(Chars("document"), Chars("root"), TopChildren(pairs), []), diagnostics + TopWarnings(pairs))
  }

  /** What one more pair adds on the top level. */
  lemma {:induction false} TopStep(pairs: seq<(Text, Value)>, i: nat)
    requires i < |pairs|
    ensures var front, more, last := pairs[..i], pairs[..i + 1], pairs[i];
            if IsChild(last) then
              var id := TopId(last.0, ChildCount(front, last.0));
              && TopChildren(more) == TopChildren(front) + [Built(last.0, last.1, id)]
              && TopWarnings(more) == TopWarnings(front) + BuildWarnings(last.1, id)
            else if last.0 == LAYOUT && last.1.Obj? then
              && TopChildren(more) == TopChildren(front) + [Built(last.0, last.1, TopId(LAYOUT, 0))]
              && TopWarnings(more) == TopWarnings(front) + BuildWarnings(last.1, TopId(LAYOUT, 0))
            else
              && TopChildren(more) == TopChildren(front)
              && TopWarnings(more) == TopWarnings(front) + [UnknownKey(last.0)]
  {
    hide IsWidget;
    hide TopId;
    hide Built;
    hide BuildWarnings;
    assert pairs[..i + 1][..i] == pairs[..i] && pairs[..i + 1][i] == pairs[i];
  }

  /** parse_layout */
  method ParseLayout(file: Text) returns (layout: Parsed<Widget>)
    ensures layout == ParsedLayout(file)
    ensures layout.Parsed? ==>
              var document := ParsePairs(ReadText(file));
              && document.Parsed?
              && TopPieces(document.value) ==
                   HeldBelow(layout.value.children) + |layout.diagnostics| - |document.diagnostics|
  {
    hide IsWidget;
    hide TopId;
    hide ParsePairs;
    hide BuildWarnings;
    hide Built;
    hide DistinctKeys;
    hide Decides;
    hide HeldBelow;
    hide Held;
    hide TopPieces;
    hide ObjectPieces;
    hide ChildCount;
    hide TopChildren;
    hide TopWarnings;
    hide ReadText;
    NothingOnTop();
    var document := ParsePairs(ReadText(file));
    if document.Refused? {
      return Refused(document.error);
    }
    var pairs, diagnostics := document.value, document.diagnostics;
    var children := [];
    var counts: map<Text, nat> := map[];
    assert pairs[..0] == [];
    for i := 0 to |pairs|
      invariant children == TopChildren(pairs[..i])
      invariant diagnostics == document.diagnostics + TopWarnings(pairs[..i])
      invariant forall key: Text :: Tally(counts, key) == ChildCount(pairs[..i], key)
    {
      var (key, item) := pairs[i];
      TopStep(pairs, i);
      var child;
      if IsWidget(key) && item.Obj? {
        var index := Tally(counts, key);
        counts := counts[key := index + 1];
        child, diagnostics := BuildNode(key, item, TopId(key, index), diagnostics);
        children := children + [child];
      } else if key == LAYOUT && item.Obj? {
        child, diagnostics := BuildNode(LAYOUT, item, TopId(LAYOUT, 0), diagnostics);
        children := children + [child];
      } else {
        diagnostics := diagnostics + [UnknownKey(key)];
      }
      forall k: Text
        ensures Tally(counts, k) == ChildCount(pairs[..i + 1], k)
      {
        CountStep(pairs, i, k);
      }
    }
    assert pairs[..|pairs|] == pairs;
    layout := Parsed(Widget(Chars("document"), Chars("root"), children, []), diagnostics);
    NothingIsSilentOnTop(pairs);
  }
}
