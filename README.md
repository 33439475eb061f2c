# info_plist_parser, modelled in Dafny

`app.py` converts an Apple `Info.plist` file to JSON and back.

- With `--init` it parses the plist's root element into a nested value. `true`/`false` become booleans, `dict` and `array` become dicts and lists, and any other tag gives its text. It writes that value as a JSON document with one key, `"<root tag> version=<version>"`.
- Without `--init` (the sync direction) it reads that JSON document back. `main` parses the plist and reads its root's `version` attribute before it looks at the mode (app.py:180-191), so sync also raises KeyError on a plist whose root has no `version`. `dict_to_xml` rebuilds an element tree from it. String, dict, list and boolean values are accepted; any other value raises "Unknown info property list type". The result is pretty-printed with `indent`.

The model covers these computations:

- `PlistTypes`: the values, dicts and element trees.
- `PlistParser`: parsing, `_parse_lists`, `_parse_dicts` and `parse_root_data`.
- `PlistSerializer`: serializing, the `wrap_*` functions.
- `PrettyPrint`: `indent`.
- `RootKey`: the composite root key.
- `Converter`: `dict_to_xml`, and the `--init` document built in `main`.
- `RoundTrip`: how the two directions fit together.

`ElementTree` models the ElementTree element. It is a `Node` class whose `Model` is the element's value. The parser reads nodes, and the serializer and `indent` update them in place.

Python dicts keep their keys in insertion order. A dict is modelled as a sequence of entries, and assigning to a key (`Put`) replaces the value in place or appends a new entry.

The loops of the source are methods. Each is proved against a recursive specification function that folds from the end (`DictOf`, `ListOf`, `EntryChildren`, `ItemChildren`, `IndentTree`, `XmlOf`), and the properties are lemmas about those functions.

Behaviour worth noting:

- A value that appears in a `dict` before any `key` element is not dropped. `_parse_dicts` stores it under the initial key `''` (app.py:37, `ValueBeforeKey`).
- `parse_root_data` returns the dict parsed from the root's last child, whatever that child's tag (app.py:58-59).
- `indent` sets the element's own tail after indenting its children (app.py:124-125), not the last child's tail. So only the first child of an element starts one level deeper. Every later sibling, and the closing tag, starts at the parent's level (`ChildLines`).
- A `<string/>` element, or any element of another non-container tag without text, parses to None (`NullIffTextless`). Sync then refuses the document (`NullBlocksSync`, `EmptyStringBlocksSync`).

## Model

| member | source | states |
|---|---|---|
| PlistTypes.PutNew | app.py:44-52 | storing under a key the dict does not hold appends the entry at the end |
| PlistTypes.PutExisting | app.py:44-52 | storing under a key the dict holds replaces that entry's value in its place |
| PlistTypes.PutKeepsDistinct | app.py:44-52 | storing keeps keys distinct; the key list grows by the key only when it is new |
| PlistTypes.PutAt | app.py:44-52 | after storing, each old position holds its old entry or the new value for that key, and a new key sits at the end |
| ElementTree.Node.constructor | app.py:138-139 | a new element with the given tag, attributes and text, no tail and no children |
| ElementTree.Node.Append | app.py:64 | the child's subtree becomes the last child; nothing else in the parent changes |
| PlistParser.ParseLists | app.py:20-33 | the list built is `ListOf` the children, one value per child, in order |
| PlistParser.ParseDicts | app.py:36-53 | the dict built is `DictOf` the children: key elements set the pending key, other children are stored under it |
| PlistParser.ParseItem | app.py:43-52 | the value of one element by its tag: booleans, nested dict or list, else its text (None when missing) |
| PlistParser.ParseRootData | app.py:56-60 | an empty dict for a root without children, else the dict parsed from the last child |
| PlistParser.ListOfAt | app.py:20-33 | the list has one value per child and position i holds the value of child i |
| PlistParser.DictOfKeys | app.py:36-53 | the keys are distinct, and a key is present iff some non-key child is stored under it |
| PlistParser.DictOfLastWins | app.py:39-52 | a repeated key holds the value of the last child stored under it |
| PlistParser.DictOfOrder | app.py:39-52 | keys are ordered by the first child stored under each: a later key was first stored after every earlier one |
| PlistParser.NullIffTextless | app.py:31-32 | an element parses to None iff its tag is not `true`, `false`, `dict` or `array` and it has no text |
| PlistParser.ValueBeforeKey | app.py:37-52 | a value before any key element is stored under the empty key |
| PrettyPrint.Spaces | app.py:115-116 | `level*"  "` is 2·level spaces |
| PrettyPrint.LinesAreBlank | app.py:115-125 | the indentation strings are themselves blank, so `indent` may overwrite them again |
| PrettyPrint.IndentKidsAt | app.py:122-123 | every child is indented one level deeper, in place and in order |
| PrettyPrint.Indent | app.py:114-129 | the element's tree becomes `IndentTree` of the old tree; the same nodes stay in place |
| PrettyPrint.IndentParent | app.py:117-125 | an element with children: text, then children, then tail are rewritten as `IndentTree` says |
| PrettyPrint.IndentChildren | app.py:122-123 | each child's subtree becomes its own indentation one level deeper |
| PrettyPrint.IndentRules | app.py:114-128 | blank text of a parent becomes a newline and (level+1) indents; a blank tail becomes a newline and (level-1) indents, except for a root leaf; other text and tails are kept |
| PrettyPrint.ChildLines | app.py:117-125 | with blank tails, the first child opens at level+1 and every child's tail, so each later sibling and the closing tag, is at the parent's level |
| PrettyPrint.IndentIdempotent | app.py:114-129 | indenting an indented tree changes nothing |
| PrettyPrint.IndentKidsIdempotent | app.py:122-123 | the same for a sequence of children |
| PrettyPrint.IndentOnlyWhitespace | app.py:114-129 | only blank text and tails change; tags, attributes, children count and a leaf's text are kept |
| PrettyPrint.IndentKidsOnlyWhitespace | app.py:122-123 | the same for a sequence of children |
| PlistSerializer.WrapKeyTag | app.py:63-65 | appends a `key` element holding the key as text |
| PlistSerializer.WrapStringTag | app.py:68-70 | appends a `string` element holding the string as text |
| PlistSerializer.WrapBooleanTag | app.py:73-75 | appends an empty `true` or `false` element |
| PlistSerializer.WrapDictTag | app.py:78-95 | appends a `dict` element filled from the entries, and reports the value that raised, if any |
| PlistSerializer.WrapArrayTag | app.py:98-111 | appends an `array` element filled from the items, and reports the value that raised, if any |
| PlistSerializer.WrapValue | app.py:81-92 | a string, dict, list or boolean appends its element, chosen by kind |
| PlistSerializer.WrapEntry | app.py:80-95 | an accepted value appends its key and then its element; any other value raises with nothing appended |
| PlistSerializer.WrapEntries | app.py:80-95 | the dict element gains `EntryChildren`, stopping at the first raise |
| PlistSerializer.WrapItems | app.py:100-111 | the array element gains `ItemChildren`, stopping at the first raise |
| PlistSerializer.EntriesStopAtRaise | app.py:93-95 | after a raise, later entries add nothing |
| PlistSerializer.ItemsStopAtRaise | app.py:109-111 | after a raise, later items add nothing |
| PlistSerializer.RaisesIffUnsupported | app.py:78-111 | serializing a value raises iff some value nested in it is not a string, dict, list or boolean; the raised value is one of those |
| PlistSerializer.EntriesRaiseIffUnsupported | app.py:80-95 | a dict raises iff some entry's value is not serializable |
| PlistSerializer.ItemsRaiseIffUnsupported | app.py:100-111 | a list raises iff some item is not serializable |
| PlistSerializer.EntryChildrenShape | app.py:80-92 | without a raise, a dict of n entries gives 2n children: the key of entry i, then its value's element |
| PlistSerializer.ItemChildrenShape | app.py:100-108 | without a raise, child i is the element of item i |
| PlistSerializer.EntriesRaiseAt | app.py:80-95 | at the first unserializable entry the dict element keeps the earlier entries' children; a value of a rejected kind adds no key, a nested dict or list adds its key and partial element |
| PlistSerializer.ItemsRaiseAt | app.py:100-111 | the same for the items of a list |
| RoundTrip.ValueRoundTrip | app.py:20-111 | a serializable value with distinct keys parses back from the element built for it |
| RoundTrip.EntriesRoundTrip | app.py:36-95 | the children built for a dict parse back to that dict, keys and order included |
| RoundTrip.ItemsRoundTrip | app.py:20-111 | the children built for a list parse back to that list |
| RoundTrip.BuiltTextLeaves | app.py:63-111 | every element the serializer builds whose text is read is childless |
| RoundTrip.EntriesTextLeaves | app.py:78-95 | the same for a dict's children |
| RoundTrip.ItemsTextLeaves | app.py:98-111 | the same for a list's children |
| RoundTrip.IndentKeepsValue | app.py:114-129 | indenting such a tree does not change the value it parses to |
| RoundTrip.IndentKidsKeepScan | app.py:36-53 | indented children parse to the same dict |
| RoundTrip.IndentKidsKeepList | app.py:20-33 | indented children parse to the same list |
| RoundTrip.ParsedUniqueKeys | app.py:20-53 | every dict the parser builds, at every depth, has distinct keys |
| RoundTrip.ScanUniqueKeys | app.py:36-53 | the values of a parsed dict have distinct keys at every depth |
| RoundTrip.PutKeepsValues | app.py:44-52 | storing keeps the property that every value has distinct keys at every depth |
| RoundTrip.ListUniqueKeys | app.py:20-33 | the items of a parsed list have distinct keys at every depth |
| RootKey.Split | app.py:136 | `str.split` with one separator always gives at least one field |
| RootKey.SplitJoin | app.py:136 | joining the fields gives the string back, and no field holds the separator |
| RootKey.SplitNoSep | app.py:136 | a string without the separator is a single field |
| RootKey.SplitAtFirst | app.py:136-139 | the first separator ends the first field |
| RootKey.JoinSplit | app.py:136 | splitting joined separator-free fields gives them back |
| RootKey.SplitFirst | app.py:136-139 | the first field is the longest separator-free prefix |
| RootKey.SplitHasSecond | app.py:136-139 | there is a second field iff the separator occurs |
| RootKey.DecodeNeedsSpace | app.py:136-139 | a key without a space raises |
| RootKey.DecodeClean | app.py:136-139 | a decoded tag holds no space, a decoded version no space and no `=` |
| RootKey.DecodeCompose | app.py:185 | the key written for a root decodes to its tag and version iff the tag has no space and the version no space or `=` |
| RootKey.DecodeComposeClean | app.py:185 | the forward direction of that equivalence |
| Converter.InitialDataShape | app.py:183-191 | a document exists iff the root has a `version` attribute; it has one key, which decodes back to the root's tag and version when those are clean, mapping `"dict"` to the dict parsed from the last child (empty without children) |
| Converter.InitialDocument | app.py:183-191 | the document built from the root node is `InitialData` of its tree |
| Converter.MainChildrenOk | app.py:143-159 | the inner loops succeed iff every value of the root mapping is a dict of serializable values |
| Converter.LastRootWins | app.py:135-141 | with keys present, the loop succeeds iff each key does, and the root left is the one built for the last key |
| Converter.FirstFailureRaises | app.py:135-159 | the error raised is the one of the first key whose root fails |
| Converter.MainStopAtError | app.py:157-159 | after an error, later mappings change nothing |
| Converter.FillRootDict | app.py:143-159 | fills the root's `dict` element with `MainChildren`, or reports its error |
| Converter.BuildRoot | app.py:136-159 | builds the root element for one key, or reports the error `RootFor` gives |
| Converter.DictToXml | app.py:132-163 | returns the indented tree `XmlOf` gives, or fails exactly when `XmlOf` does, with its error |
| Converter.DocumentXml | app.py:132-163 | the tree for an init document is the indented root holding one `dict` of the data's children, or the data's unknown-type error |
| Converter.SyncThenInit | app.py:180-205 | on element trees: the tree sync builds for a document parses back to the same document |
| Converter.InitSyncInit | app.py:180-205 | on element trees: init, then sync, then init again gives the first document |
| Converter.BadRootKeyRaises | app.py:136-139 | a root key that is missing, has no space, or whose second word has no `=` raises for that key |
| Converter.MalformedDocumentsRaise | app.py:132-163 | a non-mapping, an empty mapping, or a mapping with any key whose pass raises makes sync raise; a single key without a space raises on that key |
| Converter.SyncRaisesIffUnsupported | app.py:143-159 | syncing an init document fails iff some value is not serializable, always with an unknown-type error |
| Converter.NullBlocksSync | app.py:143-159 | a None anywhere in a root's data makes syncing its init document raise an unknown-type error |
| Converter.EmptyStringBlocksSync | app.py:143-159 | for example, a `<key>a</key><string/>` dict inits to `{"a": None}`, and syncing that document raises on the None |

## Left out

- Converter.SyncThenInit: proved on element trees, taking `xml_tree.write` followed by `ET.parse` as the identity. Through the file, an element whose text is `""` is written as `<key />` or `<string />` and reads back with text None. So an empty key (the `''` key of a value before any `key` element) comes back as None, and an empty string value comes back as None, which the next sync refuses.
- Converter.InitSyncInit: the same gap. For `<dict><string>x</string></dict>`, init gives `{"": "x"}`, sync writes `<key />`, and the next init gives a None key where this lemma, on trees, gives `""`.
- Command-line parsing (`parse_args`), reading and writing files, and `ET.parse` / `xml_tree.write`. The model starts from an element tree and ends with one. XML text is not modelled.
- `json.dump` and `json.load`. The document is modelled as the Python value on both sides. JSON's own encodings are not modelled: a None key written as `"null"`, floats, and the indentation of the JSON file.
- The `path.exists` check, the `FileNotFoundError` message, and the XML declaration and DOCTYPE prepended after writing (app.py:204-220). These are file I/O.
- `Number` stands for every JSON number, integer or floating point. The serializer refuses all of them in the same way, so their values do not matter.
- `InfoPropertyListTags` members are modelled as their string values. The `str` Enum compares and serializes as the string.
- The serializer builds each subtree as a separate node, fills it, then attaches it. ET.SubElement attaches the node first, then fills it. The finished tree is the same, including the partial tree left when a value raises.
- The partly filled tree is modelled, but the exception is not. A raise is returned as a result value, and `DictToXml` then returns no tree, because Python discards it.
- `IsSpace` lists the characters Python's `str.strip()` removes. It does not model `strip()` beyond deciding whether a string is blank.
- `indent` and `dict_to_xml` return their argument and the tree. The model keeps the node they return and does not model the `ElementTree` wrapper object.
