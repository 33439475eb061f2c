/** The two commands of the tool as far as they compute: `--init` turns a plist root into
    the JSON document (app.py:180-191) and the default command turns the JSON document
    back into a plist tree with `dict_to_xml` (app.py:132-163). */
module Converter {
  import opened PlistTypes
  import opened ElementTree
  import opened PlistParser
  import opened PlistSerializer
  import opened PrettyPrint
  import opened RootKey
  import opened RoundTrip

  /** Why `dict_to_xml` raises. */
  datatype ConvError =
    | NotAMapping(v: Value)      // `.items()` or `.values()` on something that is not a dict
    | BadRootKey(key: Text)      // the root key is not a string, or a split has too few parts
    | UnknownType(v: Value)      // "Unknown info property list type" from a wrap loop
    | NoRoot                     // an empty document: `indent` gets the Element class itself

  /** The key under which `main` stores the root's dict (app.py:189). */
  const MainKey: string := "dict"

  /** The document `main --init` writes for a root with this tag, version and data. */
  function Document(tag: string, version: string, data: seq<Entry>): Value
  {
    Dict([Entry(Some(Compose(tag, version)), Dict([Entry(Some(MainKey), Dict(data))]))])
  }

  /** The document `main --init` builds from a parsed root (app.py:183-191), or None where
      `root.attrib['version']` raises KeyError. */
  function InitialData(root: Element): Option<Value>
  {
    if "version" in root.attrib then
      Some(Document(root.tag, root.attrib["version"], RootDataOf(root.children)))
    else None
  }

  /** What the init document holds: nothing without a `version` attribute; otherwise one
      key, which gives the root's tag and version back when `dict_to_xml` takes it apart
      (provided the tag holds no space and the version no space or `=`), whose value maps
      `"dict"` to the dict parsed from the root's last child, or to an empty dict. */
  lemma InitialDataShape(root: Element)
    ensures InitialData(root).None? <==> "version" !in root.attrib
    ensures InitialData(root).Some? ==>
              var d := InitialData(root).value;
              d.Dict? && |d.entries| == 1 && d.entries[0].key.Some? &&
              (root.children == [] ==> d.entries[0].value == Dict([Entry(Some("dict"), Dict([]))])) &&
              (root.children != [] ==>
                 d.entries[0].value == Dict([Entry(Some("dict"), Dict(DictOf(root.children[|root.children| - 1].children)))]))
    ensures InitialData(root).Some? && ' ' !in root.tag && ' ' !in root.attrib["version"] && '=' !in root.attrib["version"] ==>
              Decode(InitialData(root).value.entries[0].key.value) == Some((root.tag, root.attrib["version"]))
  {
    if "version" in root.attrib {
      DecodeCompose(root.tag, root.attrib["version"]);
    }
  }

  /** `main --init` on the parsed tree, up to the JSON dump. */
  method InitialDocument(root: Node) returns (r: Option<Value>)
    requires root.Valid()
    ensures r == InitialData(root.Model)
  {
    if "version" !in root.attrib {
      return None;
    }
    var rootTag := root.tag;
    var versionAttribute := root.attrib["version"];
    var pListTag := Compose(rootTag, versionAttribute);
    var data := ParseRootData(root);
    assert data == RootDataOf(root.Model.children);
    r := Some(Dict([Entry(Some(pListTag), Dict([Entry(Some(MainKey), Dict(data))]))]));
  }

  /** The children the inner loops of `dict_to_xml` (app.py:143-159) put in the root's
      `dict` element: the entries of every value of the root's mapping, one after the
      other, up to the first value that is not a dict or holds a value of a rejected kind. */
  function MainChildren(mains: seq<Entry>): Result<seq<Element>, ConvError>
  {
    if mains == [] then Ok([])
    else
      var front := MainChildren(mains[..|mains| - 1]);
      var main := mains[|mains| - 1].value;
      if front.Err? then front
      else if !main.Dict? then Err(NotAMapping(main))
      else
        var f := EntryChildren(main.entries);
        if f.raised.Some? then Err(UnknownType(f.raised.value))
        else Ok(front.value + f.children)
  }

  /** One pass of the outer loop of `dict_to_xml` (app.py:135-159): the root element for
      one top-level key, holding one `dict` element. */
  function RootFor(key: Text, value: Value): Result<Element, ConvError>
  {
    if key.None? then Err(BadRootKey(key))
    else
      match Decode(key.value)
      case None => Err(BadRootKey(key))
      case Some((tag, version)) =>
        if !value.Dict? then Err(NotAMapping(value))
        else
          match MainChildren(value.entries)
          case Err(e) => Err(e)
          case Ok(kids) => Ok(Element(tag, map["version" := version], None, None, [Element(DictTag, map[], None, None, kids)]))
  }

  /** The root the outer loop leaves behind: every key is processed, each replacing the
      root built before it; None when there is no key at all. */
  function Roots(top: seq<Entry>): Result<Option<Element>, ConvError>
  {
    if top == [] then Ok(None)
    else
      var front := Roots(top[..|top| - 1]);
      var last := top[|top| - 1];
      if front.Err? then front
      else
        match RootFor(last.key, last.value)
        case Err(e) => Err(e)
        case Ok(root) => Ok(Some(root))
  }

  /** The tree `dict_to_xml` returns for a JSON document, or why it raises. */
  function XmlOf(data: Value): Result<Element, ConvError>
  {
    if !data.Dict? then Err(NotAMapping(data))
    else
      match Roots(data.entries)
      case Err(e) => Err(e)
      case Ok(None) => Err(NoRoot)
      case Ok(Some(root)) => Ok(IndentTree(root, 0))
  }

  /** The value of the root mapping is serializable: a dict whose values are dicts of
      values of accepted kinds. */
  predicate MainFills(v: Value)
  {
    v.Dict? && forall j :: 0 <= j < |v.entries| ==> Serializable(v.entries[j].value)
  }

  /** The inner loops succeed exactly when every value of the root's mapping fills. */
  lemma {:induction false} MainChildrenOk(mains: seq<Entry>)
    ensures MainChildren(mains).Ok? <==> forall i :: 0 <= i < |mains| ==> MainFills(mains[i].value)
  {
    if mains != [] {
      var init, main := mains[..|mains| - 1], mains[|mains| - 1].value;
      MainChildrenOk(init);
      assert forall i :: 0 <= i < |init| ==> init[i] == mains[i];
      if main.Dict? {
        EntriesRaiseIffUnsupported(main.entries);
      }
    }
  }

  /** Every top-level key is decoded and its value filled, though only the last root is
      kept: the result is the last key's root exactly when no key fails. */
  lemma {:induction false} LastRootWins(top: seq<Entry>)
    requires top != []
    ensures Roots(top).Ok? <==> forall i :: 0 <= i < |top| ==> RootFor(top[i].key, top[i].value).Ok?
    ensures Roots(top).Ok? ==> Roots(top).value == Some(RootFor(top[|top| - 1].key, top[|top| - 1].value).value)
  {
    var init := top[..|top| - 1];
    assert forall i :: 0 <= i < |init| ==> init[i] == top[i];
    if init != [] {
      LastRootWins(init);
    }
  }

  /** The first key that fails decides the error. */
  lemma {:induction false} FirstFailureRaises(top: seq<Entry>)
    requires Roots(top).Err?
    ensures exists i :: 0 <= i < |top| && RootFor(top[i].key, top[i].value) == Err(Roots(top).error)
                        && forall j :: 0 <= j < i ==> RootFor(top[j].key, top[j].value).Ok?
  {
    var init, last := top[..|top| - 1], top[|top| - 1];
    assert forall i :: 0 <= i < |init| ==> init[i] == top[i];
    if Roots(init).Err? {
      FirstFailureRaises(init);
      var i :| 0 <= i < |init| && RootFor(init[i].key, init[i].value) == Err(Roots(init).error)
                && forall j :: 0 <= j < i ==> RootFor(init[j].key, init[j].value).Ok?;
      assert RootFor(top[i].key, top[i].value) == Err(Roots(top).error);
    } else {
      if init != [] {
        LastRootWins(init);
      }
      assert RootFor(top[|init|].key, top[|init|].value) == Err(Roots(top).error);
    }
  }

  lemma MainStep(mains: seq<Entry>, m: nat)
    requires m < |mains| && MainChildren(mains[..m]).Ok?
    ensures MainChildren(mains[..m + 1]) ==
              var main := mains[m].value;
              if !main.Dict? then Err(NotAMapping(main))
              else if EntryChildren(main.entries).raised.Some? then Err(UnknownType(EntryChildren(main.entries).raised.value))
              else Ok(MainChildren(mains[..m]).value + EntryChildren(main.entries).children)
  {
    assert mains[..m + 1][..m] == mains[..m];
  }

  lemma {:induction false} MainStopAtError(mains: seq<Entry>, n: nat, m: nat)
    requires n <= m <= |mains| && MainChildren(mains[..n]).Err?
    ensures MainChildren(mains[..m]) == MainChildren(mains[..n])
    decreases m
  {
    if m > n {
      MainStopAtError(mains, n, m - 1);
      assert mains[..m][..m - 1] == mains[..m - 1];
    }
  }

  lemma RootsStep(top: seq<Entry>, n: nat)
    requires n < |top| && Roots(top[..n]).Ok?
    ensures Roots(top[..n + 1]) ==
              match RootFor(top[n].key, top[n].value)
              case Err(e) => Err(e)
              case Ok(root) => Ok(Some(root))
  {
    assert top[..n + 1][..n] == top[..n];
  }

  lemma {:induction false} RootsStopAtError(top: seq<Entry>, n: nat, m: nat)
    requires n <= m <= |top| && Roots(top[..n]).Err?
    ensures Roots(top[..m]) == Roots(top[..n])
    decreases m
  {
    if m > n {
      RootsStopAtError(top, n, m - 1);
      assert top[..m][..m - 1] == top[..m - 1];
    }
  }

  /** The inner loops of `dict_to_xml` (app.py:143-159), filling the root's `dict`
      element. */
  method FillRootDict(mains: seq<Entry>, dictTag: Node) returns (failure: Option<ConvError>)
    requires dictTag.Valid()
    modifies dictTag
    ensures dictTag.Valid() && fresh(dictTag.Repr - old(dictTag.Repr))
    ensures failure.None? <==> MainChildren(mains).Ok?
    ensures failure.Some? ==> MainChildren(mains) == Err(failure.value)
    ensures failure.None? ==>
              dictTag.Model == old(dictTag.Model).(children := old(dictTag.Model.children) + MainChildren(mains).value)
  {
    ghost var m0 := dictTag.Model;
    var m := 0;
    while m < |mains|
      invariant 0 <= m <= |mains|
      invariant dictTag.Valid() && fresh(dictTag.Repr - old(dictTag.Repr))
      invariant MainChildren(mains[..m]).Ok?
      invariant dictTag.Model == m0.(children := m0.children + MainChildren(mains[..m]).value)
    {
      var mainDictValue := mains[m].value;
      MainStep(mains, m);
      if !mainDictValue.Dict? {
        failure := Some(NotAMapping(mainDictValue));
        MainStopAtError(mains, m + 1, |mains|);
        assert mains[..|mains|] == mains;
        return;
      }
      ghost var done := MainChildren(mains[..m]).value;
      var raised := WrapEntries(mainDictValue.entries, dictTag);
      if raised.Some? {
        failure := Some(UnknownType(raised.value));
        MainStopAtError(mains, m + 1, |mains|);
        assert mains[..|mains|] == mains;
        return;
      }
      assert m0.children + done + EntryChildren(mainDictValue.entries).children
          == m0.children + (done + EntryChildren(mainDictValue.entries).children);
      m := m + 1;
    }
    assert mains[..m] == mains;
    failure := None;
  }

  /** One pass of the outer loop of `dict_to_xml` (app.py:136-159). */
  method BuildRoot(key: Text, value: Value) returns (r: Result<Node, ConvError>)
    ensures r.Ok? <==> RootFor(key, value).Ok?
    ensures r.Err? ==> RootFor(key, value) == Err(r.error)
    ensures r.Ok? ==> r.value.Valid() && fresh(r.value.Repr) && r.value.Model == RootFor(key, value).value
  {
    if key.None? {
      return Err(BadRootKey(key));
    }
    var decoded := Decode(key.value);
    if decoded.None? {
      return Err(BadRootKey(key));
    }
    var (tag, version) := decoded.value;
    var xmlRoot := new Node(tag, map["version" := version], None);
    var dictTag := new Node(DictTag, map[], None);
    if !value.Dict? {
      return Err(NotAMapping(value));
    }
    var failure := FillRootDict(value.entries, dictTag);
    if failure.Some? {
      return Err(failure.value);
    }
    assert dictTag.Model == Element(DictTag, map[], None, None, MainChildren(value.entries).value);
    xmlRoot.Append(dictTag);
    assert xmlRoot.Model == RootFor(key, value).value;
    r := Ok(xmlRoot);
  }

  /** `dict_to_xml` (app.py:132-163): the last key's root, holding what every value of its
      mapping holds, indented; or why it raises. */
  method DictToXml(data: Value) returns (r: Result<Node, ConvError>)
    ensures r.Ok? <==> XmlOf(data).Ok?
    ensures r.Err? ==> XmlOf(data) == Err(r.error)
    ensures r.Ok? ==> r.value.Valid() && fresh(r.value.Repr) && r.value.Model == XmlOf(data).value
  {
    if !data.Dict? {
      return Err(NotAMapping(data));
    }
    var top := data.entries;
    var xmlRoot: Option<Node> := None;
    var n := 0;
    while n < |top|
      invariant 0 <= n <= |top|
      invariant Roots(top[..n]) == Ok(if xmlRoot.None? then None else Some(xmlRoot.value.Model))
      invariant xmlRoot.Some? ==> xmlRoot.value.Valid() && fresh(xmlRoot.value.Repr)
    {
      RootsStep(top, n);
      var built := BuildRoot(top[n].key, top[n].value);
      if built.Err? {
        RootsStopAtError(top, n + 1, |top|);
        assert top[..|top|] == top;
        return Err(built.error);
      }
      xmlRoot := Some(built.value);
      n := n + 1;
    }
    assert top[..n] == top;
    if xmlRoot.None? {
      return Err(NoRoot);
    }
    var root := xmlRoot.value;
    Indent(root, 0);
    r := Ok(root);
  }

  /** Syncing the document `--init` writes gives a plist that `--init` reads back as the
      same document, when the tag has no space, the version neither a space nor an `=`,
      and every value is of a kind the serializer accepts. */
  lemma SyncThenInit(tag: string, version: string, data: seq<Entry>)
    requires ' ' !in tag && ' ' !in version && '=' !in version
    requires DistinctKeys(data)
    requires forall i :: 0 <= i < |data| ==> Serializable(data[i].value) && UniqueKeys(data[i].value)
    ensures XmlOf(Document(tag, version, data)).Ok?
    ensures InitialData(XmlOf(Document(tag, version, data)).value) == Some(Document(tag, version, data))
  {
    EntriesRoundTrip(data);
    EntriesTextLeaves(data);
    DocumentXml(tag, version, data);
    var d := Element(DictTag, map[], None, None, EntryChildren(data).children);
    var root := Element(tag, map["version" := version], None, None, [d]);
    var out := IndentTree(root, 0);
    IndentOnlyWhitespace(root, 0);
    IndentKidsAt([d], 1);
    assert out.children == [IndentTree(d, 1)];
    IndentKeepsValue(d, 1);
    IndentOnlyWhitespace(d, 1);
    assert RootDataOf(out.children) == data;
  }

  /** What syncing does to a document `--init` wrote: one root with the tag and version
      of the key, holding one `dict` element with the root data's children, indented;
      or the value of a rejected kind it raises with. */
  lemma DocumentXml(tag: string, version: string, data: seq<Entry>)
    requires ' ' !in tag && ' ' !in version && '=' !in version
    ensures EntryChildren(data).raised.Some? ==> XmlOf(Document(tag, version, data)) == Err(UnknownType(EntryChildren(data).raised.value))
    ensures EntryChildren(data).raised.None? ==>
              XmlOf(Document(tag, version, data)) ==
                Ok(IndentTree(Element(tag, map["version" := version], None, None,
                                      [Element(DictTag, map[], None, None, EntryChildren(data).children)]), 0))
  {
    DecodeCompose(tag, version);
    var mains := [Entry(Some(MainKey), Dict(data))];
    assert mains[..0] == [];
    var f := EntryChildren(data);
    assert MainChildren(mains) == if f.raised.Some? then Err(UnknownType(f.raised.value)) else Ok([] + f.children);
    var top := [Entry(Some(Compose(tag, version)), Dict(mains))];
    assert top[..0] == [];
    assert Document(tag, version, data) == Dict(top);
    if f.raised.None? {
      assert [] + f.children == f.children;
      var root := Element(tag, map["version" := version], None, None, [Element(DictTag, map[], None, None, f.children)]);
      assert RootFor(top[0].key, top[0].value) == Ok(root);
      assert Roots(top) == Ok(Some(root));
    } else {
      assert RootFor(top[0].key, top[0].value) == Err(UnknownType(f.raised.value));
      assert Roots(top) == Err(UnknownType(f.raised.value));
    }
  }


  /** `--init`, sync and `--init` again give the first document back, for a root whose
      tag and version survive the key format and whose data the serializer accepts. */
  lemma InitSyncInit(root: Element)
    requires "version" in root.attrib
    requires ' ' !in root.tag && ' ' !in root.attrib["version"] && '=' !in root.attrib["version"]
    requires forall i :: 0 <= i < |RootDataOf(root.children)| ==> Serializable(RootDataOf(root.children)[i].value)
    ensures XmlOf(InitialData(root).value).Ok?
    ensures InitialData(XmlOf(InitialData(root).value).value) == InitialData(root)
  {
    var data := RootDataOf(root.children);
    if root.children != [] {
      var last := root.children[|root.children| - 1];
      DictOfKeys(last.children);
      ScanUniqueKeys(last.children);
    }
    SyncThenInit(root.tag, root.attrib["version"], data);
  }

  /** A root key that is missing, has no space, or whose second word has no `=` makes
      the pass for that key raise. */
  lemma BadRootKeyRaises(key: Text, value: Value)
    requires key.None? || ' ' !in key.value || (|Split(key.value, ' ')| >= 2 && '=' !in Split(key.value, ' ')[1])
    ensures RootFor(key, value) == Err(BadRootKey(key))
  {
    if key.Some? {
      SplitHasSecond(key.value, ' ');
      if ' ' in key.value {
        SplitHasSecond(Split(key.value, ' ')[1], '=');
      }
    }
  }

  /** A document that is not a mapping, has no key, or has a key whose pass raises, makes
      `dict_to_xml` raise; with a single key lacking a space, it raises on that key. */
  lemma MalformedDocumentsRaise(data: Value)
    ensures !data.Dict? ==> XmlOf(data) == Err(NotAMapping(data))
    ensures data == Dict([]) ==> XmlOf(data) == Err(NoRoot)
    ensures data.Dict? && (exists i :: 0 <= i < |data.entries| && RootFor(data.entries[i].key, data.entries[i].value).Err?) ==>
              XmlOf(data).Err?
    ensures data.Dict? && |data.entries| == 1 && data.entries[0].key.Some? && ' ' !in data.entries[0].key.value ==>
              XmlOf(data) == Err(BadRootKey(data.entries[0].key))
  {
    if data.Dict? && data.entries != [] {
      LastRootWins(data.entries);
    }
    if data.Dict? && |data.entries| == 1 && data.entries[0].key.Some? && ' ' !in data.entries[0].key.value {
      var e := data.entries[0];
      BadRootKeyRaises(e.key, e.value);
      assert data.entries[..0] == [];
      assert Roots(data.entries) == Err(BadRootKey(e.key));
    }
  }

  /** The document of a root syncs exactly when every value below the root's data is of a
      kind the serializer accepts; otherwise it raises with one that is not. */
  lemma SyncRaisesIffUnsupported(tag: string, version: string, data: seq<Entry>)
    requires ' ' !in tag && ' ' !in version && '=' !in version
    ensures XmlOf(Document(tag, version, data)).Ok? <==> forall i :: 0 <= i < |data| ==> Serializable(data[i].value)
    ensures XmlOf(Document(tag, version, data)).Err? ==>
              XmlOf(Document(tag, version, data)).error.UnknownType? &&
              !Wrappable(XmlOf(Document(tag, version, data)).error.v)
  {
    EntriesRaiseIffUnsupported(data);
    DocumentXml(tag, version, data);
  }


  /** A `string` element without text parses to None, which the serializer has no tag
      for: such a plist survives `--init` but its document does not sync. */
  lemma EmptyStringBlocksSync()
    ensures var root := Element("plist", map["version" := "1.0"], None, None,
                                [Element(DictTag, map[], None, None, [Leaf(KeyTag, Some("a")), Leaf(StringTag, None)])]);
            InitialData(root) == Some(Document("plist", "1.0", [Entry(Some("a"), Null)])) &&
            XmlOf(InitialData(root).value) == Err(UnknownType(Null))
  {
    var key, str := Leaf(KeyTag, Some("a")), Leaf(StringTag, None);
    ScanLast([], key);
    ScanLast([key], str);
    assert [key, str] == [key] + [str] && [key] == [] + [key];
    assert KeyBefore([key], 1) == Some("a");
    var data := [Entry(Some("a"), Null)];
    assert DictOf([key, str]) == data;
    assert data[..0] == [];
    assert EntryChildren(data).raised == Some(Null);
    DocumentXml("plist", "1.0", data);
  }

  /** A value from an element without text (None) anywhere in a root's data stops sync:
      the document `--init` writes for that root raises an unknown-type error. */
  lemma NullBlocksSync(root: Element, i: nat)
    requires "version" in root.attrib
    requires ' ' !in root.tag && ' ' !in root.attrib["version"] && '=' !in root.attrib["version"]
    requires i < |RootDataOf(root.children)| && RootDataOf(root.children)[i].value == Null
    ensures XmlOf(InitialData(root).value).Err? && XmlOf(InitialData(root).value).error.UnknownType?
  {
    SyncRaisesIffUnsupported(root.tag, root.attrib["version"], RootDataOf(root.children));
  }
}
