/**
 * `Namespace` and `_NamespaceMerger` (src/merge_conf/__init__.py:71-114):
 * merging one mapping into a mutable namespace object in place.
 */
module NamespaceMerger {
  import opened Wrappers
  import opened ConfigTree

  /** An attribute container; `attrs` is its `__dict__`. */
  class Namespace {
    var attrs: map<string, Node>

    constructor ()
      ensures attrs == map[]
    {
      attrs := map[];
    }
  }

  /** The exception that line 108 raises as written: a `dict` has no
      attribute `__dict__`. */
  datatype MergeError = NoDictAttribute

  /** What lines 105-112 do with one value, as written: a non-dict value is
      assigned as it is; for a dict, reading `value.__dict__` raises. */
  function AsWrittenEntry(value: Value): (r: Result<Node, MergeError>)
    ensures r.Failure? <==> value.Table?
    ensures r.Success? ==> r.value == ToNode(value)
  {
    match value
    case Text(s) => Success(Leaf(s))
    case Items(l) => Success(LeafList(l))
    case Table(_) => Failure(NoDictAttribute)
  }

  /** The code as written fails on every nested mapping, where the evident
      intent builds a fresh namespace holding exactly that mapping. */
  lemma AsWrittenRejectsNested(nested: Mapping)
    ensures AsWrittenEntry(Table(nested)) == Failure(NoDictAttribute)
    ensures ToNode(Table(nested)).Branch? && ToValue(ToNode(Table(nested))) == Table(nested)
  {
    ToValueToNode(Table(nested));
  }

  /** Adding one more processed key to a merge in progress. */
  lemma MergedStep(attrs: map<string, Node>, items: Mapping, pending: set<string>, key: string)
    requires pending <= items.Keys && key in pending
    ensures Merged(attrs, items - (pending - {key}))
            == Merged(attrs, items - pending)[key := ToNode(items[key])]
  {
  }

  class Merger {
    const namespace: Namespace

    /** `_NamespaceMerger(namespace)`: `namespace or Namespace()`. */
    constructor (namespace: Option<Namespace>)
      ensures namespace.Some? ==> this.namespace == namespace.value
      ensures namespace.None? ==> fresh(this.namespace) && this.namespace.attrs == map[]
    {
      if namespace.Some? {
        this.namespace := namespace.value;
      } else {
        this.namespace := new Namespace();
      }
    }

    /** `merge(values)` with nested dicts merged recursively (the evident
        intent of line 108): returns the very namespace it holds, whose
        attributes become those of `Merged`, for any order of the keys. */
    method Merge(values: Option<Mapping>) returns (r: Namespace)
      modifies namespace
      decreases if values.Some? then Table(values.value) else Text([])
      ensures r == namespace
      ensures values.None? ==> namespace.attrs == old(namespace.attrs)
      ensures values.Some? ==> namespace.attrs == Merged(old(namespace.attrs), values.value)
    {
      var target := namespace;
      if values.Some? {
        var items := values.value;
        var pending := items.Keys;
        while pending != {}
          invariant pending <= items.Keys
          invariant target.attrs == Merged(old(target.attrs), items - pending)
          decreases pending
        {
          var key :| key in pending;
          var value := items[key];
          if !value.Table? {
            target.attrs := target.attrs[key := if value.Text? then Leaf(value.text) else LeafList(value.items)];
          } else {
            var innerTarget := new Namespace();
            var merger := new Merger(Some(innerTarget));
            innerTarget := merger.Merge(Some(value.entries));
            MergedIntoFresh(value.entries);
            target.attrs := target.attrs[key := Branch(innerTarget.attrs)];
          }
          MergedStep(old(target.attrs), items, pending, key);
          pending := pending - {key};
        }
        assert items - {} == items;
      }
      r := target;
    }

    /** `merge(values)` exactly as written: it fails as soon as it meets a
        nested dict, after assigning the leaves it met before. */
    method MergeAsWritten(values: Option<Mapping>) returns (r: Result<Namespace, MergeError>)
      modifies namespace
      ensures r.Success? ==> r.value == namespace
      ensures values.None? ==> r.Success? && namespace.attrs == old(namespace.attrs)
      ensures values.Some? ==>
        (r.Success? <==> forall k :: k in values.value ==> !values.value[k].Table?)
      ensures values.Some? && r.Success? ==> namespace.attrs == Merged(old(namespace.attrs), values.value)
      ensures values.Some? && r.Failure? ==>
        namespace.attrs.Keys <= old(namespace.attrs).Keys + values.value.Keys &&
        forall k :: k in namespace.attrs ==>
          (k in old(namespace.attrs) && namespace.attrs[k] == old(namespace.attrs)[k]) ||
          (k in values.value && AsWrittenEntry(values.value[k]) == Success(namespace.attrs[k]))
      ensures values.Some? && r.Failure? ==> old(namespace.attrs).Keys <= namespace.attrs.Keys
      ensures values.Some? && r.Failure? ==>
        exists pending :: pending <= values.value.Keys &&
          (exists k :: k in pending && values.value[k].Table?) &&
          namespace.attrs == Merged(old(namespace.attrs), values.value - pending)
    {
      var target := namespace;
      if values.Some? {
        var items := values.value;
        var pending := items.Keys;
        while pending != {}
          invariant pending <= items.Keys
          invariant forall k :: k in items && k !in pending ==> !items[k].Table?
          invariant target.attrs == Merged(old(target.attrs), items - pending)
          decreases pending
        {
          var key :| key in pending;
          var entry := AsWrittenEntry(items[key]);
          if entry.Failure? {
            assert key in pending && items[key].Table?;
            r := Failure(entry.error);
            return;
          }
          target.attrs := target.attrs[key := entry.value];
          MergedStep(old(target.attrs), items, pending, key);
          pending := pending - {key};
        }
        assert items - {} == items;
      }
      r := Success(target);
    }
  }
}
