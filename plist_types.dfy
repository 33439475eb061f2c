/** Values and element trees shared by both directions of the converter (app.py). */
module PlistTypes {

  datatype Option<+T> = None | Some(value: T)

  datatype Result<+T, +E> = Ok(value: T) | Err(error: E)

  /** Python's `str | None`: the text or tail of an element, and so also a dict key read
      from the text of a `key` element. */
  type Text = Option<string>

  /** The Python value the converter holds between the plist and the JSON file. `Null` is
      Python's None (JSON null, also what an element without text parses to) and `Number`
      stands for every JSON number; the serializer has no plist form for either. */
  datatype Value =
    | Str(s: string)
    | Bool(b: bool)
    | Dict(entries: seq<Entry>)
    | Array(items: seq<Value>)
    | Null
    | Number(n: int)

  /** One item of a Python dict, which keeps its keys in insertion order. */
  datatype Entry = Entry(key: Text, value: Value)

  /** The value of an ElementTree element: tag, attributes, text, tail and children. */
  datatype Element = Element(tag: string, attrib: map<string, string>, text: Text, tail: Text, children: seq<Element>)

  // The tag names of InfoPropertyListTags (app.py:11-17).
  const TrueTag: string := "true"
  const FalseTag: string := "false"
  const DictTag: string := "dict"
  const ArrayTag: string := "array"
  const KeyTag: string := "key"
  const StringTag: string := "string"

  /** An element with no attributes, no tail and no children, as ET.SubElement makes it. */
  function Leaf(tag: string, text: Text): Element
  {
    Element(tag, map[], text, None, [])
  }

  /** The keys of a dict, in insertion order. */
  function Keys(es: seq<Entry>): (ks: seq<Text>)
    ensures |ks| == |es|
    ensures forall i :: 0 <= i < |es| ==> ks[i] == es[i].key
  {
    if es == [] then [] else Keys(es[..|es| - 1]) + [es[|es| - 1].key]
  }

  predicate DistinctKeys(es: seq<Entry>)
  {
    forall i, j :: 0 <= i < j < |es| ==> es[i].key != es[j].key
  }

  /** Every dict in the value has distinct keys, as every Python dict does. */
  predicate UniqueKeys(v: Value)
  {
    match v
    case Dict(es) => DistinctKeys(es) && forall i :: 0 <= i < |es| ==> UniqueKeys(es[i].value)
    case Array(vs) => forall i :: 0 <= i < |vs| ==> UniqueKeys(vs[i])
    case _ => true
  }

  /** Python's `d[k] = v`: an existing key keeps its position and gets the new value,
      a new key is added at the end. */
  function Put(es: seq<Entry>, k: Text, v: Value): (r: seq<Entry>)
  {
    if es == [] then [Entry(k, v)]
    else if es[0].key == k then [Entry(k, v)] + es[1..]
    else [es[0]] + Put(es[1..], k, v)
  }

  /** Assigning a key the dict does not hold appends one entry. */
  lemma {:induction false} PutNew(es: seq<Entry>, k: Text, v: Value)
    requires k !in Keys(es)
    ensures Put(es, k, v) == es + [Entry(k, v)]
  {
    if es != [] {
      assert es[0].key == Keys(es)[0];
      assert k !in Keys(es[1..]) by {
        forall i | 0 <= i < |es[1..]| ensures Keys(es[1..])[i] != k {
          assert Keys(es[1..])[i] == Keys(es)[i + 1];
        }
      }
      PutNew(es[1..], k, v);
      assert [es[0]] + (es[1..] + [Entry(k, v)]) == es + [Entry(k, v)];
    }
  }

  /** Assigning a key the dict already holds at position `i` replaces that entry in place. */
  lemma {:induction false} PutExisting(es: seq<Entry>, i: nat, k: Text, v: Value)
    requires DistinctKeys(es) && i < |es| && es[i].key == k
    ensures Put(es, k, v) == es[i := Entry(k, v)]
  {
    if i > 0 {
      PutExisting(es[1..], i - 1, k, v);
      assert [es[0]] + es[1..][i - 1 := Entry(k, v)] == es[i := Entry(k, v)];
    }
  }

  /** `d[k] = v` keeps the keys distinct and leaves `k` mapped to `v`. */
  lemma PutKeepsDistinct(es: seq<Entry>, k: Text, v: Value)
    requires DistinctKeys(es)
    ensures DistinctKeys(Put(es, k, v))
    ensures Keys(Put(es, k, v)) == if k in Keys(es) then Keys(es) else Keys(es) + [k]
  {
    if k in Keys(es) {
      var i :| 0 <= i < |es| && Keys(es)[i] == k;
      PutExisting(es, i, k, v);
      assert Keys(es[i := Entry(k, v)]) == Keys(es);
    } else {
      PutNew(es, k, v);
      assert Keys(es + [Entry(k, v)]) == Keys(es) + [k];
    }
  }

  /** `d[k] = v` entry by entry: the entry holding `k` takes the new value, every other
      entry stays where it was, and a new key goes last. */
  lemma PutAt(es: seq<Entry>, k: Text, v: Value)
    requires DistinctKeys(es)
    ensures |Put(es, k, v)| == if k in Keys(es) then |es| else |es| + 1
    ensures forall i :: 0 <= i < |es| ==> Put(es, k, v)[i] == if es[i].key == k then Entry(k, v) else es[i]
    ensures k !in Keys(es) ==> Put(es, k, v)[|es|] == Entry(k, v)
  {
    if k in Keys(es) {
      var p :| 0 <= p < |es| && Keys(es)[p] == k;
      PutExisting(es, p, k, v);
    } else {
      PutNew(es, k, v);
    }
  }
}
