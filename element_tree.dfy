/** The mutable ElementTree element the converter builds, walks and re-indents in place. */
module ElementTree {
  import opened PlistTypes

  /** An ET.Element. `Repr` is the set of nodes of its subtree and `Model` its value; the
      children's subtrees are disjoint, so the tree has no sharing. */
  class Node {
    var tag: string
    var attrib: map<string, string>
    var text: Text
    var tail: Text
    var children: seq<Node>

    ghost var Repr: set<object>
    ghost var Model: Element

    /** The node's fields agree with `Model`, over a valid subtree. */
    ghost predicate Valid()
      reads this, Repr
      decreases Repr, 1
    {
      && Tree()
      && Model.tag == tag && Model.attrib == attrib
      && Model.text == text && Model.tail == tail
      && |Model.children| == |children|
      && (forall i :: 0 <= i < |children| ==> Model.children[i] == children[i].Model)
    }

    /** The footprint is this node and the disjoint footprints of its valid children. */
    ghost predicate Tree()
      reads this, Repr
      decreases Repr, 0
    {
      && this in Repr
      && (forall i :: 0 <= i < |children| ==>
            && children[i] in Repr
            && children[i].Repr <= Repr
            && this !in children[i].Repr
            && children[i].Valid())
      && (forall i, j :: 0 <= i < j < |children| ==> children[i].Repr !! children[j].Repr)
    }

    /** Writing a node's own text, tail or model keeps its subtree well formed. */
    twostate lemma TreeKept()
      requires old(Tree()) && children == old(children) && Repr == old(Repr)
      requires unchanged(old(Repr) - {this})
      ensures Tree()
    {
    }

    /** ET.Element(tag, **attrib) with its text set: a node without tail and children. */
    constructor (tag: string, attrib: map<string, string>, text: Text)
      ensures Valid() && fresh(Repr) && Repr == {this}
      ensures Model == Element(tag, attrib, text, None, [])
    {
      this.tag := tag;
      this.attrib := attrib;
      this.text := text;
      this.tail := None;
      this.children := [];
      Repr := {this};
      Model := Element(tag, attrib, text, None, []);
    }

    /** Attaching a separately built subtree as the last child, which is how
        ET.SubElement places a new element under its parent. */
    method Append(child: Node)
      requires Valid() && child.Valid() && Repr !! child.Repr
      modifies this
      ensures Valid() && Repr == old(Repr) + child.Repr
      ensures Model == old(Model).(children := old(Model.children) + [child.Model])
      ensures children == old(children) + [child]
    {
      children := children + [child];
      Repr := Repr + child.Repr;
      Model := Model.(children := Model.children + [child.Model]);
    }
  }
}
