/**
 * The two shapes configuration takes in merge-conf: the key-value mappings
 * that sources produce (Python dicts), and the namespace tree they are merged
 * into (Namespace objects and their attributes).
 */
module ConfigTree {

  /** A value of a configuration mapping: a string, a list of strings or a
      nested mapping (a `dict`). */
  datatype Value =
    | Text(text: string)
    | Items(items: seq<string>)
    | Table(entries: map<string, Value>)

  /** What `ConfigurationSource.read` produces. */
  type Mapping = map<string, Value>

  /** An attribute of a namespace: a leaf (string or list of strings) or a
      nested namespace. */
  datatype Node =
    | Leaf(text: string)
    | LeafList(items: seq<string>)
    | Branch(attrs: map<string, Node>)

  /** The node a value becomes when it is merged: a non-dict value is
      assigned as it is; a dict becomes a fresh namespace holding the merge
      of its entries. */
  function ToNode(v: Value): (n: Node)
    ensures v.Table? <==> n.Branch?
    ensures v.Text? ==> n == Leaf(v.text)
    ensures v.Items? ==> n == LeafList(v.items)
  {
    match v
    case Text(s) => Leaf(s)
    case Items(l) => LeafList(l)
    case Table(m) => Branch(map k | k in m :: ToNode(m[k]))
  }

  /** The mapping view of a node, as a namespace's `__dict__` gives it. */
  function ToValue(n: Node): (v: Value)
    ensures n.Branch? <==> v.Table?
  {
    match n
    case Leaf(s) => Text(s)
    case LeafList(l) => Items(l)
    case Branch(attrs) => Table(map k | k in attrs :: ToValue(attrs[k]))
  }

  /** Merging a value into a fresh namespace keeps exactly its content. */
  lemma {:induction false} ToValueToNode(v: Value)
    ensures ToValue(ToNode(v)) == v
  {
    match v
    case Text(_) =>
    case Items(_) =>
    case Table(m) =>
      forall k | k in m
        ensures ToValue(ToNode(m[k])) == m[k]
      {
        ToValueToNode(m[k]);
      }
  }

  /** Every namespace tree is the merge of its own mapping view. */
  lemma {:induction false} ToNodeToValue(n: Node)
    ensures ToNode(ToValue(n)) == n
  {
    match n
    case Leaf(_) =>
    case LeafList(_) =>
    case Branch(attrs) =>
      forall k | k in attrs
        ensures ToNode(ToValue(attrs[k])) == attrs[k]
      {
        ToNodeToValue(attrs[k]);
      }
  }

  /** The attributes of a namespace after one mapping is merged into it:
      every key of the mapping is (re)assigned, every other key is kept. */
  function Merged(attrs: map<string, Node>, values: Mapping): (merged: map<string, Node>)
  {
    attrs + map k | k in values :: ToNode(values[k])
  }

  /** Merging touches no key that the mapping lacks and adds no other key. */
  lemma MergedKeepsAbsentKeys(attrs: map<string, Node>, values: Mapping)
    ensures Merged(attrs, values).Keys == attrs.Keys + values.Keys
    ensures forall k :: k in attrs && k !in values ==> Merged(attrs, values)[k] == attrs[k]
  {
  }

  /** A non-dict value is assigned as it is, whatever was at its key. */
  lemma MergedAssignsLeaf(attrs: map<string, Node>, values: Mapping, k: string)
    requires k in values && !values[k].Table?
    ensures k in Merged(attrs, values)
    ensures values[k].Text? ==> Merged(attrs, values)[k] == Leaf(values[k].text)
    ensures values[k].Items? ==> Merged(attrs, values)[k] == LeafList(values[k].items)
  {
  }

  /** A dict value replaces whatever was at its key by a fresh namespace
      whose content is exactly the dict: the prior sub-tree is discarded,
      not deep-merged. */
  lemma MergedReplacesSubtree(attrs: map<string, Node>, values: Mapping, k: string)
    requires k in values && values[k].Table?
    ensures k in Merged(attrs, values) && Merged(attrs, values)[k].Branch?
    ensures ToValue(Merged(attrs, values)[k]) == values[k]
    ensures forall other: map<string, Node> :: Merged(other, values)[k] == Merged(attrs, values)[k]
  {
    ToValueToNode(values[k]);
  }

  /** Merging the same mapping twice gives what merging it once gives. */
  lemma MergedIdempotent(attrs: map<string, Node>, values: Mapping)
    ensures Merged(Merged(attrs, values), values) == Merged(attrs, values)
  {
  }

  /** Merging into a fresh namespace builds the node of the whole dict. */
  lemma MergedIntoFresh(values: Mapping)
    ensures Branch(Merged(map[], values)) == ToNode(Table(values))
  {
  }

  /** Merging `{a: {b: 1}}` and then `{a: {c: 2}}` leaves `a` holding only `c`. */
  lemma NestedMergeReplaces()
    ensures Merged(Merged(map[], map["a" := Table(map["b" := Text("1")])]),
                   map["a" := Table(map["c" := Text("2")])])
            == map["a" := Branch(map["c" := Leaf("2")])]
  {
    var first := Merged(map[], map["a" := Table(map["b" := Text("1")])]);
    assert first.Keys == {"a"};
    var second := map["a" := Table(map["c" := Text("2")])];
    assert ToNode(second["a"]) == Branch(map["c" := Leaf("2")]) by {
      assert ToNode(Text("2")) == Leaf("2");
    }
  }
}
