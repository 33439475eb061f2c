/** How the two directions of the converter fit together: parsing the elements the
    serializer builds gives the value back, and `indent` does not change what parses. */
module RoundTrip {
  import opened PlistTypes
  import opened PlistParser
  import opened PlistSerializer
  import opened PrettyPrint

  /** A value the serializer accepts and that has distinct keys in each dict is what the
      parser reads back from the element built for it. */
  lemma {:induction false} ValueRoundTrip(v: Value)
    requires Serializable(v) && UniqueKeys(v)
    ensures Wrappable(v) && ValueOf(ElementFor(v).node) == v
    decreases v, 1
  {
    match v
    case Str(_) =>
    case Bool(_) =>
    case Dict(es) => EntriesRoundTrip(es);
    case Array(vs) => ItemsRoundTrip(vs);
  }

  /** The children `wrap_dict_tag` appends for a dict parse back to that dict, keys and
      order included. */
  lemma {:induction false} EntriesRoundTrip(es: seq<Entry>)
    requires DistinctKeys(es)
    requires forall i :: 0 <= i < |es| ==> Serializable(es[i].value) && UniqueKeys(es[i].value)
    ensures EntryChildren(es).raised.None? && DictOf(EntryChildren(es).children) == es
    decreases es, 0
  {
    EntriesRaiseIffUnsupported(es);
    if es != [] {
      var init, e := es[..|es| - 1], es[|es| - 1];
      assert forall i :: 0 <= i < |init| ==> init[i] == es[i];
      EntriesRoundTrip(init);
      assert es == init + [e];
      EntryAppended(init, e);
      assert es decreases to e;
      assert e decreases to e.value;
      ValueRoundTrip(e.value);
      var c := EntryChildren(init).children;
      var k, n := KeyElement(e.key), ElementFor(e.value).node;
      assert EntryChildren(es).children == (c + [k]) + [n];
      ScanLast(c, k);
      ScanLast(c + [k], n);
      assert KeyBefore(c + [k], |c| + 1) == e.key;
      assert e.key !in Keys(init) by {
        forall i | 0 <= i < |init| ensures Keys(init)[i] != e.key {
          assert init[i] == es[i];
        }
      }
      PutNew(init, e.key, e.value);
    }
  }

  /** The children `wrap_array_tag` appends for a list parse back to that list. */
  lemma {:induction false} ItemsRoundTrip(vs: seq<Value>)
    requires forall i :: 0 <= i < |vs| ==> Serializable(vs[i]) && UniqueKeys(vs[i])
    ensures ItemChildren(vs).raised.None? && ListOf(ItemChildren(vs).children) == vs
    decreases vs, 0
  {
    ItemsRaiseIffUnsupported(vs);
    if vs != [] {
      var init, v := vs[..|vs| - 1], vs[|vs| - 1];
      assert forall i :: 0 <= i < |init| ==> init[i] == vs[i];
      ItemsRoundTrip(init);
      assert vs == init + [v];
      ItemAppended(init, v);
      ValueRoundTrip(v);
      var c := ItemChildren(init).children;
      var n := ElementFor(v).node;
      assert (c + [n])[..|c|] == c;
    }
  }

  /** Every element whose text the parser may read is childless, so `indent` leaves that
      text alone: any tag other than `true`, `false`, `dict` and `array`. */
  predicate TextLeaves(e: Element)
    decreases e, 1
  {
    && (e.tag !in {TrueTag, FalseTag, DictTag, ArrayTag} ==> e.children == [])
    && KidsTextLeaves(e.children)
  }

  predicate KidsTextLeaves(kids: seq<Element>)
    decreases kids, 0
  {
    forall i :: 0 <= i < |kids| ==> TextLeaves(kids[i])
  }

  /** The serializer only builds such trees: strings and keys are leaves. */
  lemma {:induction false} BuiltTextLeaves(v: Value)
    requires Wrappable(v)
    ensures TextLeaves(ElementFor(v).node)
    decreases v, 1
  {
    match v
    case Str(_) =>
    case Bool(_) =>
    case Dict(es) => EntriesTextLeaves(es);
    case Array(vs) => ItemsTextLeaves(vs);
  }

  lemma {:induction false} EntriesTextLeaves(es: seq<Entry>)
    ensures KidsTextLeaves(EntryChildren(es).children)
    decreases es, 0
  {
    if es != [] {
      var init, e := es[..|es| - 1], es[|es| - 1];
      EntriesTextLeaves(init);
      assert es == init + [e];
      if EntryChildren(init).raised.None? {
        EntryAppended(init, e);
        if Wrappable(e.value) {
          assert es decreases to e;
          assert e decreases to e.value;
          BuiltTextLeaves(e.value);
        }
      } else {
        EntriesStopAtRaise(es, |init|, |es|);
        assert es[..|es|] == es;
      }
    }
  }

  lemma {:induction false} ItemsTextLeaves(vs: seq<Value>)
    ensures KidsTextLeaves(ItemChildren(vs).children)
    decreases vs, 0
  {
    if vs != [] {
      var init, v := vs[..|vs| - 1], vs[|vs| - 1];
      ItemsTextLeaves(init);
      assert vs == init + [v];
      if ItemChildren(init).raised.None? {
        ItemAppended(init, v);
        if Wrappable(v) {
          BuiltTextLeaves(v);
        }
      } else {
        ItemsStopAtRaise(vs, |init|, |vs|);
        assert vs[..|vs|] == vs;
      }
    }
  }

  /** `indent` does not change the value an element parses to, when no element whose
      text is read has children. */
  lemma {:induction false} IndentKeepsValue(e: Element, level: nat)
    requires TextLeaves(e)
    ensures TextLeaves(IndentTree(e, level)) && ValueOf(IndentTree(e, level)) == ValueOf(e)
    decreases e, 2
  {
    IndentKidsAt(e.children, level + 1);
    if |e.children| > 0 {
      IndentKidsKeepScan(e.children, level + 1);
      IndentKidsKeepList(e.children, level + 1);
    }
  }

  /** ... and so `_parse_dicts` reads the same dict from the indented children. */
  lemma {:induction false} IndentKidsKeepScan(kids: seq<Element>, level: nat)
    requires KidsTextLeaves(kids)
    ensures KidsTextLeaves(IndentKids(kids, level)) && Scan(IndentKids(kids, level)) == Scan(kids)
    decreases kids, 1
  {
    IndentKidsAt(kids, level);
    if kids != [] {
      var init, last := kids[..|kids| - 1], kids[|kids| - 1];
      var once := IndentKids(kids, level);
      assert once[..|once| - 1] == IndentKids(init, level);
      assert once[|once| - 1] == IndentTree(last, level);
      IndentKidsKeepScan(init, level);
      IndentKeepsValue(last, level);
      IndentOnlyWhitespace(last, level);
    }
  }

  /** ... and `_parse_lists` the same list. */
  lemma {:induction false} IndentKidsKeepList(kids: seq<Element>, level: nat)
    requires KidsTextLeaves(kids)
    ensures ListOf(IndentKids(kids, level)) == ListOf(kids)
    decreases kids, 1
  {
    if kids != [] {
      var init, last := kids[..|kids| - 1], kids[|kids| - 1];
      var once := IndentKids(kids, level);
      assert once[..|once| - 1] == IndentKids(init, level);
      IndentKidsKeepList(init, level);
      IndentKeepsValue(last, level);
    }
  }

  /** Everything a parsed dict holds has distinct keys, at every depth. */
  lemma {:induction false} ParsedUniqueKeys(e: Element)
    ensures UniqueKeys(ValueOf(e))
    decreases e, 2
  {
    if e.tag == DictTag {
      ScanUniqueKeys(e.children);
      DictOfKeys(e.children);
    } else if e.tag == ArrayTag {
      ListUniqueKeys(e.children);
    }
  }

  lemma {:induction false} ScanUniqueKeys(kids: seq<Element>)
    ensures forall i :: 0 <= i < |DictOf(kids)| ==> UniqueKeys(DictOf(kids)[i].value)
    decreases kids, 1
  {
    if kids != [] {
      var init, last := kids[..|kids| - 1], kids[|kids| - 1];
      ScanUniqueKeys(init);
      assert kids == init + [last];
      ScanLast(init, last);
      if last.tag != KeyTag {
        ParsedUniqueKeys(last);
        PutKeepsValues(DictOf(init), KeyBefore(init, |init|), ValueOf(last));
      }
    }
  }

  lemma {:induction false} PutKeepsValues(es: seq<Entry>, k: Text, v: Value)
    requires UniqueKeys(v) && forall i :: 0 <= i < |es| ==> UniqueKeys(es[i].value)
    ensures forall i :: 0 <= i < |Put(es, k, v)| ==> UniqueKeys(Put(es, k, v)[i].value)
  {
    if es != [] && es[0].key != k {
      PutKeepsValues(es[1..], k, v);
    }
  }

  lemma {:induction false} ListUniqueKeys(kids: seq<Element>)
    ensures forall i :: 0 <= i < |ListOf(kids)| ==> UniqueKeys(ListOf(kids)[i])
    decreases kids, 1
  {
    ListOfAt(kids);
    forall i | 0 <= i < |kids| ensures UniqueKeys(ListOf(kids)[i]) {
      ParsedUniqueKeys(kids[i]);
    }
  }
}
