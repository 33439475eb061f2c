/** The value-to-plist direction: the `wrap_*_tag` functions (app.py:63-111), which append
    one element per value to a parent element and raise on a value of a kind the plist
    format has no tag for. */
module PlistSerializer {
  import opened PlistTypes
  import opened ElementTree

  /** The kinds the `isinstance` chains accept: str, dict, list and bool. */
  predicate Wrappable(v: Value)
  {
    v.Str? || v.Dict? || v.Array? || v.Bool?
  }

  /** Every value in the tree is of a kind the chains accept. */
  predicate Serializable(v: Value)
  {
    match v
    case Str(_) => true
    case Bool(_) => true
    case Dict(es) => forall i :: 0 <= i < |es| ==> Serializable(es[i].value)
    case Array(vs) => forall i :: 0 <= i < |vs| ==> Serializable(vs[i])
    case _ => false
  }

  /** The element appended for a value, as left in its parent, and the value whose kind
      raised "Unknown info property list type" while it was being filled, if one did. */
  datatype Built = Built(node: Element, raised: Option<Value>)

  /** The children appended to one parent, and the value that raised, if one did. */
  datatype Filled = Filled(children: seq<Element>, raised: Option<Value>)

  function KeyElement(k: Text): Element
  {
    Leaf(KeyTag, k)
  }

  function StringElement(s: string): Element
  {
    Leaf(StringTag, Some(s))
  }

  function BoolElement(b: bool): Element
  {
    Leaf(if b then TrueTag else FalseTag, None)
  }

  /** The element a value of an accepted kind becomes. A dict or array element is
      appended before it is filled, so when one of its items raises, it stays behind
      holding what was appended up to then. */
  function ElementFor(v: Value): Built
    requires Wrappable(v)
    decreases v, 1
  {
    match v
    case Str(s) => Built(StringElement(s), None)
    case Bool(b) => Built(BoolElement(b), None)
    case Dict(es) =>
      var f := EntryChildren(es);
      Built(Element(DictTag, map[], None, None, f.children), f.raised)
    case Array(vs) =>
      var f := ItemChildren(vs);
      Built(Element(ArrayTag, map[], None, None, f.children), f.raised)
  }

  /** What the loop of `wrap_dict_tag` (app.py:80-95) appends for these entries: a `key`
      element and then the value's element for each entry, up to the first raise. An
      entry whose value is of no accepted kind raises before its key is appended. */
  function EntryChildren(es: seq<Entry>): Filled
    decreases es, 0
  {
    if es == [] then Filled([], None)
    else
      var f := EntryChildren(es[..|es| - 1]);
      var e := es[|es| - 1];
      if f.raised.Some? then f
      else if !Wrappable(e.value) then Filled(f.children, Some(e.value))
      else
        assert es decreases to e;
        assert e decreases to e.value;
        var b := ElementFor(e.value);
        Filled(f.children + [KeyElement(e.key), b.node], b.raised)
  }

  /** What the loop of `wrap_array_tag` (app.py:100-111) appends for these items: one
      element per item, up to the first raise. */
  function ItemChildren(vs: seq<Value>): Filled
    decreases vs, 0
  {
    if vs == [] then Filled([], None)
    else
      var f := ItemChildren(vs[..|vs| - 1]);
      var v := vs[|vs| - 1];
      if f.raised.Some? then f
      else if !Wrappable(v) then Filled(f.children, Some(v))
      else
        var b := ElementFor(v);
        Filled(f.children + [b.node], b.raised)
  }

  /** Once an entry raised, the entries after it are never looked at. */
  lemma {:induction false} EntriesStopAtRaise(es: seq<Entry>, n: nat, m: nat)
    requires n <= m <= |es| && EntryChildren(es[..n]).raised.Some?
    ensures EntryChildren(es[..m]) == EntryChildren(es[..n])
    decreases m
  {
    if m > n {
      EntriesStopAtRaise(es, n, m - 1);
      assert es[..m][..m - 1] == es[..m - 1];
    }
  }

  lemma {:induction false} ItemsStopAtRaise(vs: seq<Value>, n: nat, m: nat)
    requires n <= m <= |vs| && ItemChildren(vs[..n]).raised.Some?
    ensures ItemChildren(vs[..m]) == ItemChildren(vs[..n])
    decreases m
  {
    if m > n {
      ItemsStopAtRaise(vs, n, m - 1);
      assert vs[..m][..m - 1] == vs[..m - 1];
    }
  }

  /** `wrap_key_tag` (app.py:63-65). */
  method WrapKeyTag(text: Text, parent: Node)
    requires parent.Valid()
    modifies parent
    ensures parent.Valid() && fresh(parent.Repr - old(parent.Repr))
    ensures parent.Model == old(parent.Model).(children := old(parent.Model.children) + [KeyElement(text)])
  {
    var keyTag := new Node(KeyTag, map[], text);
    parent.Append(keyTag);
  }

  /** `wrap_string_tag` (app.py:68-70). */
  method WrapStringTag(text: string, parent: Node)
    requires parent.Valid()
    modifies parent
    ensures parent.Valid() && fresh(parent.Repr - old(parent.Repr))
    ensures parent.Model == old(parent.Model).(children := old(parent.Model.children) + [StringElement(text)])
  {
    var stringTag := new Node(StringTag, map[], Some(text));
    parent.Append(stringTag);
  }

  /** `wrap_boolean_tag` (app.py:73-75): the tag itself is the value. */
  method WrapBooleanTag(value: bool, parent: Node)
    requires parent.Valid()
    modifies parent
    ensures parent.Valid() && fresh(parent.Repr - old(parent.Repr))
    ensures parent.Model == old(parent.Model).(children := old(parent.Model.children) + [BoolElement(value)])
  {
    var tagInValue := if value then TrueTag else FalseTag;
    var booleanTag := new Node(tagInValue, map[], None);
    parent.Append(booleanTag);
  }

  /** `wrap_dict_tag` (app.py:78-95): appends one `dict` element to the parent. */
  method WrapDictTag(dict: seq<Entry>, parent: Node) returns (raised: Option<Value>)
    requires parent.Valid()
    modifies parent
    ensures parent.Valid() && fresh(parent.Repr - old(parent.Repr))
    ensures parent.Model == old(parent.Model).(children := old(parent.Model.children) + [ElementFor(Dict(dict)).node])
    ensures raised == ElementFor(Dict(dict)).raised
    decreases dict, 1
  {
    var dictTag := new Node(DictTag, map[], None);
    raised := WrapEntries(dict, dictTag);
    assert dictTag.Model == ElementFor(Dict(dict)).node;
    parent.Append(dictTag);
  }

  /** `wrap_array_tag` (app.py:98-111): appends one `array` element to the parent. */
  method WrapArrayTag(list: seq<Value>, parent: Node) returns (raised: Option<Value>)
    requires parent.Valid()
    modifies parent
    ensures parent.Valid() && fresh(parent.Repr - old(parent.Repr))
    ensures parent.Model == old(parent.Model).(children := old(parent.Model.children) + [ElementFor(Array(list)).node])
    ensures raised == ElementFor(Array(list)).raised
    decreases list, 1
  {
    var arrayTag := new Node(ArrayTag, map[], None);
    raised := WrapItems(list, arrayTag);
    assert arrayTag.Model == ElementFor(Array(list)).node;
    parent.Append(arrayTag);
  }

  /** The branches of the isinstance chain in `wrap_dict_tag` and `wrap_array_tag`
      (app.py:85-93, app.py:101-109) that accept the value: the element for it is appended. */
  method WrapValue(value: Value, target: Node) returns (raised: Option<Value>)
    requires target.Valid() && Wrappable(value)
    modifies target
    ensures target.Valid() && fresh(target.Repr - old(target.Repr))
    ensures target.Model == old(target.Model).(children := old(target.Model.children) + [ElementFor(value).node])
    ensures raised == ElementFor(value).raised
    decreases value, 2
  {
    match value
    case Str(s) =>
      WrapStringTag(s, target);
      raised := None;
    case Dict(es) =>
      raised := WrapDictTag(es, target);
    case Array(vs) =>
      raised := WrapArrayTag(vs, target);
    case Bool(b) =>
      WrapBooleanTag(b, target);
      raised := None;
  }

  /** One pass of the loop of `wrap_dict_tag` (app.py:81-95): a value of an accepted kind
      gets its key element and then its own element, any other value raises before
      anything is appended. */
  method WrapEntry(key: Text, value: Value, target: Node) returns (raised: Option<Value>)
    requires target.Valid()
    modifies target
    ensures target.Valid() && fresh(target.Repr - old(target.Repr))
    ensures Wrappable(value) ==>
              && target.Model == old(target.Model).(children := old(target.Model.children) + [KeyElement(key), ElementFor(value).node])
              && raised == ElementFor(value).raised
    ensures !Wrappable(value) ==> target.Model == old(target.Model) && raised == Some(value)
    decreases value, 3
  {
    if Wrappable(value) {
      WrapKeyTag(key, target);
      raised := WrapValue(value, target);
    } else {
      raised := Some(value);
    }
  }

  /** The loop over a dict's items that `wrap_dict_tag` runs (app.py:80-95) and that
      `dict_to_xml` repeats for the document's top dict (app.py:144-159). */
  method WrapEntries(entries: seq<Entry>, target: Node) returns (raised: Option<Value>)
    requires target.Valid()
    modifies target
    ensures target.Valid() && fresh(target.Repr - old(target.Repr))
    ensures target.Model == old(target.Model).(children := old(target.Model.children) + EntryChildren(entries).children)
    ensures raised == EntryChildren(entries).raised
    decreases entries, 0
  {
    raised := None;
    ghost var m0 := target.Model;
    var n := 0;
    while n < |entries| && raised.None?
      invariant 0 <= n <= |entries|
      invariant target.Valid() && fresh(target.Repr - old(target.Repr))
      invariant target.Model == m0.(children := m0.children + EntryChildren(entries[..n]).children)
      invariant raised == EntryChildren(entries[..n]).raised
    {
      var entry := entries[n];
      ghost var done := EntryChildren(entries[..n]).children;
      EntryStep(entries, n);
      assert entries decreases to entry;
      assert entry decreases to entry.value;
      raised := WrapEntry(entry.key, entry.value, target);
      if Wrappable(entry.value) {
        assert m0.children + done + [KeyElement(entry.key), ElementFor(entry.value).node]
            == m0.children + (done + [KeyElement(entry.key), ElementFor(entry.value).node]);
      }
      n := n + 1;
    }
    if raised.Some? {
      EntriesStopAtRaise(entries, n, |entries|);
    }
    assert entries[..|entries|] == entries;
  }

  /** The loop over a list's items in `wrap_array_tag` (app.py:100-111). */
  method WrapItems(items: seq<Value>, target: Node) returns (raised: Option<Value>)
    requires target.Valid()
    modifies target
    ensures target.Valid() && fresh(target.Repr - old(target.Repr))
    ensures target.Model == old(target.Model).(children := old(target.Model.children) + ItemChildren(items).children)
    ensures raised == ItemChildren(items).raised
    decreases items, 0
  {
    raised := None;
    ghost var m0 := target.Model;
    var n := 0;
    while n < |items| && raised.None?
      invariant 0 <= n <= |items|
      invariant target.Valid() && fresh(target.Repr - old(target.Repr))
      invariant target.Model == m0.(children := m0.children + ItemChildren(items[..n]).children)
      invariant raised == ItemChildren(items[..n]).raised
    {
      var item := items[n];
      ghost var done := ItemChildren(items[..n]).children;
      ItemStep(items, n);
      if Wrappable(item) {
        raised := WrapValue(item, target);
        assert m0.children + done + [ElementFor(item).node] == m0.children + (done + [ElementFor(item).node]);
      } else {
        raised := Some(item);
      }
      n := n + 1;
    }
    if raised.Some? {
      ItemsStopAtRaise(items, n, |items|);
    }
    assert items[..|items|] == items;
  }

  /** Serializing raises exactly when the tree holds a value of a kind the chains do not
      accept, and what it raises with is such a value. */
  lemma {:induction false} RaisesIffUnsupported(v: Value)
    requires Wrappable(v)
    ensures ElementFor(v).raised.None? <==> Serializable(v)
    ensures ElementFor(v).raised.Some? ==> !Wrappable(ElementFor(v).raised.value)
    decreases v
  {
    match v
    case Str(_) =>
    case Bool(_) =>
    case Dict(es) => EntriesRaiseIffUnsupported(es);
    case Array(vs) => ItemsRaiseIffUnsupported(vs);
  }

  lemma {:induction false} EntriesRaiseIffUnsupported(es: seq<Entry>)
    ensures EntryChildren(es).raised.None? <==> forall i :: 0 <= i < |es| ==> Serializable(es[i].value)
    ensures EntryChildren(es).raised.Some? ==> !Wrappable(EntryChildren(es).raised.value)
    decreases es
  {
    if es != [] {
      var init, e := es[..|es| - 1], es[|es| - 1];
      EntriesRaiseIffUnsupported(init);
      assert forall i :: 0 <= i < |init| ==> init[i] == es[i];
      if Wrappable(e.value) {
        assert es decreases to e;
        assert e decreases to e.value;
        RaisesIffUnsupported(e.value);
      }
    }
  }

  lemma {:induction false} ItemsRaiseIffUnsupported(vs: seq<Value>)
    ensures ItemChildren(vs).raised.None? <==> forall i :: 0 <= i < |vs| ==> Serializable(vs[i])
    ensures ItemChildren(vs).raised.Some? ==> !Wrappable(ItemChildren(vs).raised.value)
    decreases vs
  {
    if vs != [] {
      var init, v := vs[..|vs| - 1], vs[|vs| - 1];
      ItemsRaiseIffUnsupported(init);
      assert forall i :: 0 <= i < |init| ==> init[i] == vs[i];
      if Wrappable(v) {
        RaisesIffUnsupported(v);
      }
    }
  }

  /** Without a raise, a dict element holds 2n children, alternating the `key` element of
      each entry and the element of its value, in iteration order. */
  lemma {:induction false} EntryChildrenShape(es: seq<Entry>)
    requires forall i :: 0 <= i < |es| ==> Serializable(es[i].value)
    ensures |EntryChildren(es).children| == 2 * |es|
    ensures forall i :: 0 <= i < |es| ==>
              && Wrappable(es[i].value)
              && EntryChildren(es).children[2 * i] == KeyElement(es[i].key)
              && EntryChildren(es).children[2 * i + 1] == ElementFor(es[i].value).node
  {
    EntriesRaiseIffUnsupported(es);
    if es != [] {
      var init := es[..|es| - 1];
      assert forall i :: 0 <= i < |init| ==> init[i] == es[i];
      EntriesRaiseIffUnsupported(init);
      EntryChildrenShape(init);
    }
  }

  /** Without a raise, an array element holds one child per item, in order, and no `key`
      elements. */
  lemma {:induction false} ItemChildrenShape(vs: seq<Value>)
    requires forall i :: 0 <= i < |vs| ==> Serializable(vs[i])
    ensures |ItemChildren(vs).children| == |vs|
    ensures forall i :: 0 <= i < |vs| ==>
              Wrappable(vs[i]) && ItemChildren(vs).children[i] == ElementFor(vs[i]).node
  {
    ItemsRaiseIffUnsupported(vs);
    if vs != [] {
      var init := vs[..|vs| - 1];
      assert forall i :: 0 <= i < |init| ==> init[i] == vs[i];
      ItemsRaiseIffUnsupported(init);
      ItemChildrenShape(init);
    }
  }

  /** The fold `EntryChildren` taken one entry further, as the loop over the entries does. */
  lemma EntryStep(es: seq<Entry>, n: nat)
    requires n < |es| && EntryChildren(es[..n]).raised.None?
    ensures Wrappable(es[n].value) ==>
              EntryChildren(es[..n + 1]) ==
                Filled(EntryChildren(es[..n]).children + [KeyElement(es[n].key), ElementFor(es[n].value).node],
                       ElementFor(es[n].value).raised)
    ensures !Wrappable(es[n].value) ==> EntryChildren(es[..n + 1]) == Filled(EntryChildren(es[..n]).children, Some(es[n].value))
  {
    assert es[..n + 1] == es[..n] + [es[n]];
    EntryAppended(es[..n], es[n]);
  }

  /** The fold `ItemChildren` taken one item further, as the loop over the items does. */
  lemma ItemStep(vs: seq<Value>, n: nat)
    requires n < |vs| && ItemChildren(vs[..n]).raised.None?
    ensures Wrappable(vs[n]) ==>
              ItemChildren(vs[..n + 1]) ==
                Filled(ItemChildren(vs[..n]).children + [ElementFor(vs[n]).node], ElementFor(vs[n]).raised)
    ensures !Wrappable(vs[n]) ==> ItemChildren(vs[..n + 1]) == Filled(ItemChildren(vs[..n]).children, Some(vs[n]))
  {
    assert vs[..n + 1] == vs[..n] + [vs[n]];
    ItemAppended(vs[..n], vs[n]);
  }

  /** One more entry on a dict that has not raised: a value of a kind the chain accepts
      appends its key and its element and passes on what that element raised, any other
      value is raised with nothing appended. */
  lemma EntryAppended(pre: seq<Entry>, e: Entry)
    requires EntryChildren(pre).raised.None?
    ensures Wrappable(e.value) ==>
              EntryChildren(pre + [e]) ==
                Filled(EntryChildren(pre).children + [KeyElement(e.key), ElementFor(e.value).node],
                       ElementFor(e.value).raised)
    ensures !Wrappable(e.value) ==> EntryChildren(pre + [e]) == Filled(EntryChildren(pre).children, Some(e.value))
  {
    assert (pre + [e])[..|pre|] == pre;
  }

  /** One more item on a list that has not raised, as `EntryAppended` without the key. */
  lemma ItemAppended(pre: seq<Value>, v: Value)
    requires ItemChildren(pre).raised.None?
    ensures Wrappable(v) ==>
              ItemChildren(pre + [v]) ==
                Filled(ItemChildren(pre).children + [ElementFor(v).node], ElementFor(v).raised)
    ensures !Wrappable(v) ==> ItemChildren(pre + [v]) == Filled(ItemChildren(pre).children, Some(v))
  {
    assert (pre + [v])[..|pre|] == pre;
  }

  /** Entries before the first one holding a value of a rejected kind raise nothing. */
  lemma EntriesPrefixNoRaise(es: seq<Entry>, i: nat)
    requires i <= |es| && forall j :: 0 <= j < i ==> Serializable(es[j].value)
    ensures EntryChildren(es[..i]).raised.None?
  {
    var pre := es[..i];
    assert forall j :: 0 <= j < |pre| ==> pre[j] == es[j];
    EntriesRaiseIffUnsupported(pre);
  }

  /** When entry `i` is the first whose value cannot be serialized, the dict element keeps
      what the earlier entries appended. A value of a rejected kind raises before its key
      is appended; a dict or list value that raises further down is left, after its key,
      as far as it was filled. */
  lemma {:induction false} EntriesRaiseAt(es: seq<Entry>, i: nat)
    requires i < |es| && !Serializable(es[i].value)
    requires forall j :: 0 <= j < i ==> Serializable(es[j].value)
    ensures EntryChildren(es).raised.Some?
    ensures !Wrappable(es[i].value) ==> EntryChildren(es) == Filled(EntryChildren(es[..i]).children, Some(es[i].value))
    ensures Wrappable(es[i].value) ==>
              EntryChildren(es).children == EntryChildren(es[..i]).children + [KeyElement(es[i].key), ElementFor(es[i].value).node]
  {
    var init := es[..|es| - 1];
    if i == |es| - 1 {
      EntriesPrefixNoRaise(es, i);
      assert init == es[..i];
      if Wrappable(es[i].value) {
        UnsupportedRaises(es[i].value);
      }
    } else {
      assert init[..i] == es[..i] && init[i] == es[i];
      assert forall j :: 0 <= j < i ==> init[j] == es[j];
      EntriesRaiseAt(init, i);
    }
  }

  lemma ItemsPrefixNoRaise(vs: seq<Value>, i: nat)
    requires i <= |vs| && forall j :: 0 <= j < i ==> Serializable(vs[j])
    ensures ItemChildren(vs[..i]).raised.None?
  {
    var pre := vs[..i];
    assert forall j :: 0 <= j < |pre| ==> pre[j] == vs[j];
    ItemsRaiseIffUnsupported(pre);
  }

  /** The same for the items of a list: the array element keeps the elements of the items
      before the first one that cannot be serialized, plus, for a dict or list item, its
      partly filled element. */
  lemma {:induction false} ItemsRaiseAt(vs: seq<Value>, i: nat)
    requires i < |vs| && !Serializable(vs[i])
    requires forall j :: 0 <= j < i ==> Serializable(vs[j])
    ensures ItemChildren(vs).raised.Some?
    ensures !Wrappable(vs[i]) ==> ItemChildren(vs) == Filled(ItemChildren(vs[..i]).children, Some(vs[i]))
    ensures Wrappable(vs[i]) ==> ItemChildren(vs).children == ItemChildren(vs[..i]).children + [ElementFor(vs[i]).node]
  {
    var init := vs[..|vs| - 1];
    if i == |vs| - 1 {
      ItemsPrefixNoRaise(vs, i);
      assert init == vs[..i];
      if Wrappable(vs[i]) {
        UnsupportedRaises(vs[i]);
      }
    } else {
      assert init[..i] == vs[..i] && init[i] == vs[i];
      assert forall j :: 0 <= j < i ==> init[j] == vs[j];
      ItemsRaiseAt(init, i);
    }
  }

  lemma UnsupportedRaises(v: Value)
    requires Wrappable(v) && !Serializable(v)
    ensures ElementFor(v).raised.Some?
  {
    RaisesIffUnsupported(v);
  }
}
