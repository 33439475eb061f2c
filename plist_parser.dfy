/** The plist-to-value direction: `_parse_lists`, `_parse_dicts` and `parse_root_data`
    (app.py:20-60). The element's tag decides the kind of value. */
module PlistParser {
  import opened PlistTypes
  import opened ElementTree

  /** What a missing text reads as: Python's None. */
  function TextValue(t: Text): Value
  {
    match t
    case Some(s) => Str(s)
    case None => Null
  }

  /** The value one element stands for, by its tag (app.py:23-32 and 43-52): `true` and
      `false` are booleans, `dict` and `array` are parsed recursively and any other tag
      gives the element's text. */
  function ValueOf(e: Element): Value
    decreases e, 2
  {
    if e.tag == TrueTag then Bool(true)
    else if e.tag == FalseTag then Bool(false)
    else if e.tag == DictTag then Dict(DictOf(e.children))
    else if e.tag == ArrayTag then Array(ListOf(e.children))
    else TextValue(e.text)
  }

  /** The list `_parse_lists` builds from these children. */
  function ListOf(kids: seq<Element>): seq<Value>
    decreases kids, 1
  {
    if kids == [] then [] else ListOf(kids[..|kids| - 1]) + [ValueOf(kids[|kids| - 1])]
  }

  /** The two local variables of `_parse_dicts`: the dict built so far and `propertyKey`. */
  datatype DictScan = DictScan(entries: seq<Entry>, key: Text)

  /** The state of `_parse_dicts` after these children: a `key` element sets the pending
      key, any other child is stored under it. The pending key starts as `''`. */
  function Scan(kids: seq<Element>): DictScan
    decreases kids, 0
  {
    if kids == [] then DictScan([], Some(""))
    else
      var st := Scan(kids[..|kids| - 1]);
      var item := kids[|kids| - 1];
      if item.tag == KeyTag then st.(key := item.text)
      else st.(entries := Put(st.entries, st.key, ValueOf(item)))
  }

  /** The dict `_parse_dicts` builds from these children. */
  function DictOf(kids: seq<Element>): seq<Entry>
    decreases kids, 1
  {
    Scan(kids).entries
  }

  /** The dict `parse_root_data` returns for a root with these children. */
  function RootDataOf(kids: seq<Element>): (r: seq<Entry>)
  {
    if kids == [] then [] else DictOf(kids[|kids| - 1].children)
  }

  /** `_parse_lists` (app.py:20-33). */
  method ParseLists(list: Node) returns (items: seq<Value>)
    requires list.Valid()
    ensures items == ListOf(list.Model.children)
    decreases list.Repr, 0
  {
    items := [];
    var n := 0;
    while n < |list.children|
      invariant 0 <= n <= |list.children|
      invariant items == ListOf(list.Model.children[..n])
    {
      var item := list.children[n];
      var v := ParseItem(item);
      assert list.Model.children[..n + 1][..n] == list.Model.children[..n];
      items := items + [v];
      n := n + 1;
    }
    assert list.Model.children[..n] == list.Model.children;
  }

  /** `_parse_dicts` (app.py:36-53). */
  method ParseDicts(dict: Node) returns (entries: seq<Entry>)
    requires dict.Valid()
    ensures entries == DictOf(dict.Model.children)
    decreases dict.Repr, 0
  {
    var propertyKey: Text := Some("");
    entries := [];
    var n := 0;
    while n < |dict.children|
      invariant 0 <= n <= |dict.children|
      invariant DictScan(entries, propertyKey) == Scan(dict.Model.children[..n])
    {
      var item := dict.children[n];
      assert item.Valid() && item.Model == dict.Model.children[n];
      assert dict.Model.children[..n + 1][..n] == dict.Model.children[..n];
      if item.tag == KeyTag {
        propertyKey := item.text;
      } else {
        var v := ParseItem(item);
        entries := Put(entries, propertyKey, v);
      }
      n := n + 1;
    }
    assert dict.Model.children[..n] == dict.Model.children;
  }

  /** The branch on the item's tag shared by both loops (app.py:23-32 and 43-52). */
  method ParseItem(item: Node) returns (v: Value)
    requires item.Valid()
    ensures v == ValueOf(item.Model)
    decreases item.Repr, 1
  {
    if item.tag == TrueTag {
      v := Bool(true);
    } else if item.tag == FalseTag {
      v := Bool(false);
    } else if item.tag == DictTag {
      var entries := ParseDicts(item);
      v := Dict(entries);
    } else if item.tag == ArrayTag {
      var items := ParseLists(item);
      v := Array(items);
    } else {
      v := TextValue(item.text);
    }
  }

  /** `parse_root_data` (app.py:56-60): every child of the root is parsed as a dict, and
      each result replaces the previous one. */
  method ParseRootData(root: Node) returns (entries: seq<Entry>)
    requires root.Valid()
    ensures |root.children| == 0 ==> entries == []
    ensures |root.children| > 0 ==> entries == DictOf(root.Model.children[|root.children| - 1].children)
  {
    entries := [];
    var n := 0;
    while n < |root.children|
      invariant 0 <= n <= |root.children|
      invariant entries == RootDataOf(root.Model.children[..n])
    {
      entries := ParseDicts(root.children[n]);
      n := n + 1;
    }
  }

  /** `_parse_lists` yields one value per child, in document order. */
  lemma {:induction false} ListOfAt(kids: seq<Element>)
    ensures |ListOf(kids)| == |kids|
    ensures forall i :: 0 <= i < |kids| ==> ListOf(kids)[i] == ValueOf(kids[i])
  {
    if kids != [] {
      ListOfAt(kids[..|kids| - 1]);
    }
  }

  /** The text of the last `key` element among the first `j` children, or `''` if there is
      none: the key `_parse_dicts` holds when it reaches child `j`. */
  function KeyBefore(kids: seq<Element>, j: nat): Text
    requires j <= |kids|
  {
    if j == 0 then Some("")
    else if kids[j - 1].tag == KeyTag then kids[j - 1].text
    else KeyBefore(kids, j - 1)
  }

  /** Child `j` is a value that `_parse_dicts` stores under key `k`. */
  predicate StoredAt(kids: seq<Element>, j: int, k: Text)
  {
    0 <= j < |kids| && kids[j].tag != KeyTag && KeyBefore(kids, j) == k
  }

  /** Child `j` is the last value stored under `k`. */
  predicate LastStoredAt(kids: seq<Element>, j: int, k: Text)
  {
    StoredAt(kids, j, k) && forall j2 :: j < j2 < |kids| ==> !StoredAt(kids, j2, k)
  }

  /** Some child ahead of child `j2` is stored under `k`. */
  predicate StoredBefore(kids: seq<Element>, j2: int, k: Text)
  {
    exists j :: 0 <= j < j2 && StoredAt(kids, j, k)
  }

  lemma {:induction false} KeyBeforeExtend(init: seq<Element>, x: Element, j: nat)
    requires j <= |init|
    ensures KeyBefore(init + [x], j) == KeyBefore(init, j)
  {
    if j > 0 {
      KeyBeforeExtend(init, x, j - 1);
    }
  }

  lemma StoredAtExtend(init: seq<Element>, x: Element)
    ensures forall j, k :: 0 <= j < |init| ==> (StoredAt(init + [x], j, k) <==> StoredAt(init, j, k))
    ensures forall k :: StoredAt(init + [x], |init|, k) <==> x.tag != KeyTag && k == KeyBefore(init, |init|)
  {
    forall j | 0 <= j <= |init| {
      KeyBeforeExtend(init, x, j);
    }
  }

  /** The pending key after a run of children is the text of the last `key` among them. */
  lemma {:induction false} ScanKey(kids: seq<Element>)
    ensures Scan(kids).key == KeyBefore(kids, |kids|)
  {
    if kids != [] {
      var init := kids[..|kids| - 1];
      assert kids == init + [kids[|kids| - 1]];
      ScanKey(init);
      KeyBeforeExtend(init, kids[|kids| - 1], |init|);
    }
  }

  /** One child more: a `key` leaves the dict as it was, any other child is put under
      the pending key. */
  lemma ScanLast(init: seq<Element>, x: Element)
    ensures DictOf(init + [x]) ==
              if x.tag == KeyTag then DictOf(init)
              else Put(DictOf(init), KeyBefore(init, |init|), ValueOf(x))
  {
    assert (init + [x])[..|init|] == init;
    ScanKey(init);
  }

  /** The keys of the parsed dict are distinct, and they are exactly the keys some value
      child is stored under: a value before any `key` is kept under `''`, and a `key`
      with no value after it adds nothing. */
  lemma {:induction false} DictOfKeys(kids: seq<Element>)
    ensures DistinctKeys(DictOf(kids))
    ensures forall k :: k in Keys(DictOf(kids)) <==> exists j :: StoredAt(kids, j, k)
  {
    if kids != [] {
      var init, x := kids[..|kids| - 1], kids[|kids| - 1];
      assert kids == init + [x];
      DictOfKeys(init);
      StoredAtExtend(init, x);
      ScanLast(init, x);
      var before := DictOf(init);
      if x.tag != KeyTag {
        var k := KeyBefore(init, |init|);
        PutKeepsDistinct(before, k, ValueOf(x));
        forall k2 ensures k2 in Keys(DictOf(kids)) <==> exists j :: StoredAt(kids, j, k2) {
          if k2 in Keys(before) {
            var j :| StoredAt(init, j, k2);
            assert StoredAt(kids, j, k2);
          } else if k2 == k {
            assert StoredAt(kids, |init|, k2);
          } else {
            forall j ensures !StoredAt(kids, j, k2) {
              if 0 <= j < |init| {
                assert StoredAt(kids, j, k2) == StoredAt(init, j, k2);
              }
            }
          }
        }
      } else {
        forall k2 ensures k2 in Keys(DictOf(kids)) <==> exists j :: StoredAt(kids, j, k2) {
          if k2 in Keys(before) {
            var j :| StoredAt(init, j, k2);
            assert StoredAt(kids, j, k2);
          } else {
            forall j ensures !StoredAt(kids, j, k2) {
              if 0 <= j < |init| {
                assert StoredAt(kids, j, k2) == StoredAt(init, j, k2);
              }
            }
          }
        }
      }
    }
  }

  /** Each key holds the value of the last child stored under it. */
  lemma {:induction false} DictOfLastWins(kids: seq<Element>)
    ensures forall i, j :: 0 <= i < |DictOf(kids)| && LastStoredAt(kids, j, DictOf(kids)[i].key) ==>
              DictOf(kids)[i].value == ValueOf(kids[j])
  {
    if kids != [] {
      var init, x := kids[..|kids| - 1], kids[|kids| - 1];
      assert kids == init + [x];
      DictOfLastWins(init);
      DictOfKeys(init);
      StoredAtExtend(init, x);
      ScanLast(init, x);
      var before, r := DictOf(init), DictOf(kids);
      if x.tag != KeyTag {
        var k := KeyBefore(init, |init|);
        if k in Keys(before) {
          var p :| 0 <= p < |before| && Keys(before)[p] == k;
          PutExisting(before, p, k, ValueOf(x));
        } else {
          PutNew(before, k, ValueOf(x));
        }
        forall i, j | 0 <= i < |r| && LastStoredAt(kids, j, r[i].key)
          ensures r[i].value == ValueOf(kids[j])
        {
          if r[i].key == k {
            assert StoredAt(kids, |init|, k);
            assert j == |init|;
          } else {
            assert j < |init| && r[i] == before[i];
            assert LastStoredAt(init, j, before[i].key);
          }
        }
      } else {
        forall i, j | 0 <= i < |r| && LastStoredAt(kids, j, r[i].key)
          ensures r[i].value == ValueOf(kids[j])
        {
          assert j < |init| && r[i] == before[i];
          assert LastStoredAt(init, j, before[i].key);
        }
      }
    }
  }

  /** Entries are in the order their keys were first stored: a key stored again keeps the
      position it was first given. */
  lemma {:induction false} DictOfOrder(kids: seq<Element>)
    ensures forall i, i2, j2 :: 0 <= i < i2 < |DictOf(kids)| && StoredAt(kids, j2, DictOf(kids)[i2].key) ==>
              StoredBefore(kids, j2, DictOf(kids)[i].key)
  {
    if kids != [] {
      var init, x := kids[..|kids| - 1], kids[|kids| - 1];
      assert kids == init + [x];
      DictOfOrder(init);
      DictOfKeys(init);
      StoredAtExtend(init, x);
      ScanLast(init, x);
      var before, r := DictOf(init), DictOf(kids);
      var k := KeyBefore(init, |init|);
      if x.tag != KeyTag {
        PutAt(before, k, ValueOf(x));
      }
      assert |before| <= |r|;
      assert forall i :: 0 <= i < |before| ==> r[i].key == before[i].key;
      assert |r| == |before| + 1 ==> x.tag != KeyTag && r[|before|].key == k && k !in Keys(before);
      forall i, i2, j2 | 0 <= i < i2 < |r| && StoredAt(kids, j2, r[i2].key)
        ensures StoredBefore(kids, j2, r[i].key)
      {
        assert r[i].key in Keys(before);
        var j0 :| StoredAt(init, j0, r[i].key);
        if j2 == |init| {
          assert StoredAt(kids, j0, r[i].key);
        } else {
          assert StoredAt(init, j2, r[i2].key);
          if i2 < |before| {
            assert StoredBefore(init, j2, before[i].key);
            var j :| 0 <= j < j2 && StoredAt(init, j, before[i].key);
            assert StoredAt(kids, j, r[i].key);
          } else {
            assert false;
          }
        }
      }
    }
  }

  /** A value ahead of every `key` element is stored under the empty key, not dropped. */
  lemma ValueBeforeKey(kids: seq<Element>)
    requires kids != [] && kids[0].tag != KeyTag
    ensures Some("") in Keys(DictOf(kids))
  {
    DictOfKeys(kids);
    assert StoredAt(kids, 0, Some(""));
  }

  /** An element parses to None exactly when its tag is none of `true`, `false`, `dict`
      and `array` and it has no text. */
  lemma NullIffTextless(e: Element)
    ensures ValueOf(e) == Null <==> e.tag !in {TrueTag, FalseTag, DictTag, ArrayTag} && e.text.None?
  {
  }
}
