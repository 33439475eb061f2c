/** The pretty-printer `indent` (app.py:114-129): it rewrites missing or whitespace-only
    text and tails so that each element sits on its own line, two spaces per level. */
module PrettyPrint {
  import opened PlistTypes
  import opened ElementTree

  /** Python's `str.isspace()` for one character: the characters `str.strip()` removes. */
  predicate IsSpace(c: char)
  {
    || c == ' ' || c == '\t' || c == '\n' || c == '\r' || c == '\U{000B}' || c == '\U{000C}'
    || ('\U{001C}' <= c <= '\U{001F}') || c == '\U{0085}' || c == '\U{00A0}' || c == '\U{1680}'
    || ('\U{2000}' <= c <= '\U{200A}') || c == '\U{2028}' || c == '\U{2029}'
    || c == '\U{202F}' || c == '\U{205F}' || c == '\U{3000}'
  }

  /** `not t or not t.strip()`: the text is missing, empty or whitespace only. */
  predicate IsBlank(t: Text)
  {
    t.None? || forall k :: 0 <= k < |t.value| ==> IsSpace(t.value[k])
  }

  /** `n * "  "`; Python gives the empty string for a negative count, which the callers
      below pass as 0. */
  function Spaces(n: nat): (s: string)
    ensures |s| == 2 * n
    ensures forall k :: 0 <= k < |s| ==> s[k] == ' '
  {
    if n == 0 then "" else Spaces(n - 1) + "  "
  }

  /** `"\n" + level*"  "`, the line break that opens a child's line at this level. */
  function LineAt(level: nat): string
  {
    "\n" + Spaces(level)
  }

  /** `"\n" + (level-1)*"  "`, the line break that closes an element at this level. */
  function LineBefore(level: nat): string
  {
    "\n" + Spaces(if level == 0 then 0 else level - 1)
  }

  /** The tree `indent(elem, level)` leaves behind. */
  function IndentTree(e: Element, level: nat): Element
    decreases e, 1
  {
    if |e.children| > 0 then
      Element(e.tag, e.attrib,
              if IsBlank(e.text) then Some(LineAt(level) + "  ") else e.text,
              if IsBlank(e.tail) then Some(LineBefore(level)) else e.tail,
              IndentKids(e.children, level + 1))
    else
      e.(tail := if level > 0 && IsBlank(e.tail) then Some(LineBefore(level)) else e.tail)
  }

  /** Each child indented one level deeper, in order. */
  function IndentKids(kids: seq<Element>, level: nat): (r: seq<Element>)
    decreases kids, 0
  {
    if kids == [] then [] else IndentKids(kids[..|kids| - 1], level) + [IndentTree(kids[|kids| - 1], level)]
  }

  lemma {:induction false} IndentKidsAt(kids: seq<Element>, level: nat)
    ensures |IndentKids(kids, level)| == |kids|
    ensures forall i :: 0 <= i < |kids| ==> IndentKids(kids, level)[i] == IndentTree(kids[i], level)
  {
    if kids != [] {
      var init := kids[..|kids| - 1];
      IndentKidsAt(init, level);
      var r, front := IndentKids(kids, level), IndentKids(init, level);
      assert r == front + [IndentTree(kids[|kids| - 1], level)];
      forall i | 0 <= i < |init| ensures r[i] == IndentTree(kids[i], level) {
        assert r[i] == front[i] && init[i] == kids[i];
      }
    }
  }

  lemma LinesAreBlank(level: nat)
    ensures IsBlank(Some(LineAt(level))) && IsBlank(Some(LineAt(level) + "  "))
    ensures IsBlank(Some(LineBefore(level)))
  {
    var s := LineAt(level);
    assert forall k :: 0 <= k < |s| ==> s[k] == '\n' || s[k] == ' ';
    var t := s + "  ";
    assert forall k :: 0 <= k < |t| ==> t[k] == '\n' || t[k] == ' ';
    var u := LineBefore(level);
    assert forall k :: 0 <= k < |u| ==> u[k] == '\n' || u[k] == ' ';
  }

  /** `indent(elem, level)` on the live tree. */
  method Indent(elem: Node, level: nat)
    requires elem.Valid()
    modifies elem.Repr
    ensures elem.Valid() && elem.Repr == old(elem.Repr) && elem.children == old(elem.children)
    ensures elem.Model == IndentTree(old(elem.Model), level)
    decreases elem.Repr, 2
  {
    if |elem.children| > 0 {
      IndentParent(elem, level);
    } else {
      if level > 0 && IsBlank(elem.tail) {
        LinesAreBlank(level);
        elem.tail := Some(LineBefore(level));
      }
      elem.Model := elem.Model.(tail := elem.tail);
    }
  }

  /** The branch of `indent` for an element with children (app.py:118-125). The tail is
      first set to the child line at app.py:121 and then, still blank, overwritten by the
      closing line at app.py:125, so only the latter survives. */
  method IndentParent(elem: Node, level: nat)
    requires elem.Valid() && |elem.children| > 0
    modifies elem.Repr
    ensures elem.Valid() && elem.Repr == old(elem.Repr) && elem.children == old(elem.children)
    ensures elem.Model == IndentTree(old(elem.Model), level)
    decreases elem.Repr, 1
  {
    label Entry:
    var i := LineAt(level);
    var j := LineBefore(level);
    LinesAreBlank(level);
    var text := if IsBlank(elem.text) then Some(i + "  ") else elem.text;
    var tail := if IsBlank(elem.tail) then Some(i) else elem.tail;
    elem.text, elem.tail := text, tail;
    ghost var kids := elem.Model.children;
    elem.TreeKept@Entry();
    IndentChildren(elem, level + 1);
    label Indented:
    tail := if IsBlank(elem.tail) then Some(j) else elem.tail;
    IndentKidsAt(kids, level + 1);
    elem.tail, elem.Model := tail, Element(elem.tag, elem.attrib, elem.text, tail, IndentKids(kids, level + 1));
    elem.TreeKept@Indented();
  }


  /** The loop `for subelem in elem: indent(subelem, level+1)` (app.py:122-123), with
      `level` already one deeper than the parent's. */
  method IndentChildren(elem: Node, level: nat)
    requires elem.Tree()
    modifies elem.Repr - {elem}
    ensures elem.Tree()
    ensures forall m :: 0 <= m < |elem.children| ==>
              && elem.children[m].Repr == old(elem.children[m].Repr)
              && elem.children[m].Model == IndentTree(old(elem.children[m].Model), level)
    decreases elem.Repr, 0
  {
    var n := 0;
    while n < |elem.children|
      invariant 0 <= n <= |elem.children|
      invariant forall m :: 0 <= m < |elem.children| ==>
                  && elem.children[m] in elem.Repr
                  && elem.children[m].Repr <= elem.Repr
                  && elem !in elem.children[m].Repr
                  && elem.children[m].Valid()
                  && elem.children[m].Repr == old(elem.children[m].Repr)
      invariant forall m, p :: 0 <= m < p < |elem.children| ==> elem.children[m].Repr !! elem.children[p].Repr
      invariant forall m :: 0 <= m < n ==> elem.children[m].Model == IndentTree(old(elem.children[m].Model), level)
      invariant forall m :: n <= m < |elem.children| ==> elem.children[m].Model == old(elem.children[m].Model)
    {
      var child := elem.children[n];
      assert forall m :: 0 <= m < |elem.children| && m != n ==> elem.children[m].Repr !! child.Repr;
      Indent(child, level);
      n := n + 1;
    }
  }

  /** Indenting an indented tree changes nothing: the text and tails `indent` writes are
      whitespace, so a second pass overwrites them with the same strings. */
  lemma {:induction false} IndentIdempotent(e: Element, level: nat)
    ensures IndentTree(IndentTree(e, level), level) == IndentTree(e, level)
    decreases e, 1
  {
    LinesAreBlank(level);
    if |e.children| > 0 {
      IndentKidsAt(e.children, level + 1);
      IndentKidsIdempotent(e.children, level + 1);
    }
  }

  lemma {:induction false} IndentKidsIdempotent(kids: seq<Element>, level: nat)
    ensures IndentKids(IndentKids(kids, level), level) == IndentKids(kids, level)
    decreases kids, 0
  {
    if kids != [] {
      var init, last := kids[..|kids| - 1], kids[|kids| - 1];
      var once := IndentKids(kids, level);
      assert once == IndentKids(init, level) + [IndentTree(last, level)];
      assert once[..|once| - 1] == IndentKids(init, level);
      IndentKidsIdempotent(init, level);
      IndentIdempotent(last, level);
    }
  }

  /** A missing or whitespace-only text or tail, which `indent` treats as unset. */
  function Squash(t: Text): Text
  {
    if IsBlank(t) then None else t
  }

  /** The tree with every blank text and tail unset: what is left when whitespace between
      elements is ignored. */
  function Strip(e: Element): Element
    decreases e, 1
  {
    Element(e.tag, e.attrib, Squash(e.text), Squash(e.tail), StripKids(e.children))
  }

  function StripKids(kids: seq<Element>): seq<Element>
    decreases kids, 0
  {
    if kids == [] then [] else StripKids(kids[..|kids| - 1]) + [Strip(kids[|kids| - 1])]
  }

  /** `indent` changes whitespace only: tags, attributes, the number and order of children
      and every text or tail that is not blank stay as they were, and a childless
      element keeps its text. */
  lemma {:induction false} IndentOnlyWhitespace(e: Element, level: nat)
    ensures Strip(IndentTree(e, level)) == Strip(e)
    ensures IndentTree(e, level).tag == e.tag && IndentTree(e, level).attrib == e.attrib
    ensures |IndentTree(e, level).children| == |e.children|
    ensures e.children == [] ==> IndentTree(e, level).text == e.text
    decreases e, 1
  {
    LinesAreBlank(level);
    IndentKidsAt(e.children, level + 1);
    if |e.children| > 0 {
      IndentKidsOnlyWhitespace(e.children, level + 1);
    }
  }

  lemma {:induction false} IndentKidsOnlyWhitespace(kids: seq<Element>, level: nat)
    ensures StripKids(IndentKids(kids, level)) == StripKids(kids)
    decreases kids, 0
  {
    if kids != [] {
      var init, last := kids[..|kids| - 1], kids[|kids| - 1];
      var once := IndentKids(kids, level);
      assert once[..|once| - 1] == IndentKids(init, level);
      IndentKidsOnlyWhitespace(init, level);
      IndentOnlyWhitespace(last, level);
    }
  }

  /** The strings `indent` writes, one element at a time: a parent's blank text opens its
      first child's line one level deeper, a blank tail closes at one level less (just
      a newline at level 0), a root leaf's tail is left alone, and text or tail that is
      not blank is never touched. */
  lemma IndentRules(e: Element, level: nat)
    ensures |e.children| > 0 && IsBlank(e.text) ==> IndentTree(e, level).text == Some("\n" + Spaces(level + 1))
    ensures |e.children| == 0 || !IsBlank(e.text) ==> IndentTree(e, level).text == e.text
    ensures IsBlank(e.tail) && (|e.children| > 0 || level > 0) ==>
              IndentTree(e, level).tail == Some("\n" + Spaces(if level == 0 then 0 else level - 1))
    ensures !IsBlank(e.tail) || (|e.children| == 0 && level == 0) ==> IndentTree(e, level).tail == e.tail
    ensures level == 0 && IsBlank(e.tail) && |e.children| > 0 ==> IndentTree(e, level).tail == Some("\n")
  {
    assert LineAt(level) + "  " == "\n" + Spaces(level + 1) by {
      assert Spaces(level + 1) == Spaces(level) + "  ";
    }
    assert LineBefore(0) == "\n" by {
      assert Spaces(0) == "";
    }
  }

  /** Where each child's line starts once a parent with blank text and blank child tails is
      indented: the first child starts one level deeper than the parent (the parent's
      text), but every child's tail, and so the line of each later sibling and of the
      closing tag, is at the parent's own level. */
  lemma ChildLines(e: Element, level: nat)
    requires |e.children| > 0 && IsBlank(e.text)
    requires forall i :: 0 <= i < |e.children| ==> IsBlank(e.children[i].tail)
    ensures IndentTree(e, level).text == Some("\n" + Spaces(level + 1))
    ensures |IndentTree(e, level).children| == |e.children|
    ensures forall i :: 0 <= i < |e.children| ==> IndentTree(e, level).children[i].tail == Some("\n" + Spaces(level))
  {
    IndentRules(e, level);
    IndentKidsAt(e.children, level + 1);
    forall i | 0 <= i < |e.children|
      ensures IndentTree(e, level).children[i].tail == Some("\n" + Spaces(level))
    {
      IndentRules(e.children[i], level + 1);
    }
  }
}
