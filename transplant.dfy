/**
 * Copying a subtree into a document: cloneChildren (XmlDocument.java:2014-2075), and the
 * renumbering a document applies to every node it creates or parses.
 *
 * cloneChildren builds the copy with the target document's factory methods: a new element with
 * the source's name, every attribute set one by one, then each child copied in order and
 * appended unless its copy is null; text, comment and CDATA nodes are copied with their
 * payloads; a text node with a null value gives null, and any other kind fails with
 * CLONE_FAILED. Each created node takes the target's next identifier, so identifiers are
 * handed out in preorder.
 */
module Transplant {
  import opened Wrappers
  import opened DomTree
  import Attributes

  // ---------------------------------------------------------------- renumbering

  /** The identifiers k, k+1, ..., k+len-1. */
  function Span(k: nat, len: nat): (r: seq<NodeId>)
    ensures |r| == len
    ensures forall i :: 0 <= i < len ==> r[i] == k + i
  {
    seq(len, i requires 0 <= i < len => k + i)
  }

  /** The tree with its nodes numbered in preorder from k. */
  function Renumber(n: Node, k: nat): Node
    decreases n
  {
    match n
    case Element(_, tag, attrs, cs) => Element(k, tag, attrs, RenumberList(cs, k + 1))
    case DocRoot(_, cs) => DocRoot(k, RenumberList(cs, k + 1))
    case Text(_, t) => Text(k, t)
    case CData(_, d) => CData(k, d)
    case Comment(_, d) => Comment(k, d)
    case Instruction(_, t, d) => Instruction(k, t, d)
  }

  function RenumberList(cs: seq<Node>, k: nat): seq<Node>
    decreases cs
  {
    if cs == [] then [] else [Renumber(cs[0], k)] + RenumberList(cs[1..], k + |Ids(cs[0])|)
  }

  /** The tree with every identifier forgotten: its shape and its payloads. */
  function Erase(n: Node): Node
    decreases n
  {
    match n
    case Element(_, tag, attrs, cs) => Element(0, tag, attrs, EraseList(cs))
    case DocRoot(_, cs) => DocRoot(0, EraseList(cs))
    case Text(_, t) => Text(0, t)
    case CData(_, d) => CData(0, d)
    case Comment(_, d) => Comment(0, d)
    case Instruction(_, t, d) => Instruction(0, t, d)
  }

  function EraseList(cs: seq<Node>): seq<Node>
    decreases cs
  {
    if cs == [] then [] else [Erase(cs[0])] + EraseList(cs[1..])
  }

  lemma SpanSplit(k: nat, a: nat, b: nat)
    ensures Span(k, a + b) == Span(k, a) + Span(k + a, b)
  {
  }

  /** A renumbered tree carries exactly the identifiers k .. k+size-1, in preorder. */
  lemma {:induction false} RenumberIds(n: Node, k: nat)
    ensures Ids(Renumber(n, k)) == Span(k, |Ids(n)|)
    decreases n
  {
    match n
    case Element(_, _, _, cs) =>
      RenumberListIds(cs, k + 1);
      SpanSplit(k, 1, |IdsOf(cs)|);
    case DocRoot(_, cs) =>
      RenumberListIds(cs, k + 1);
      SpanSplit(k, 1, |IdsOf(cs)|);
    case _ =>
  }

  lemma {:induction false} RenumberListIds(cs: seq<Node>, k: nat)
    ensures IdsOf(RenumberList(cs, k)) == Span(k, |IdsOf(cs)|)
    decreases cs
  {
    if cs != [] {
      var h := Renumber(cs[0], k);
      var t := RenumberList(cs[1..], k + |Ids(cs[0])|);
      RenumberIds(cs[0], k);
      RenumberListIds(cs[1..], k + |Ids(cs[0])|);
      IdsOfCons(h, t);
      SpanSplit(k, |Ids(cs[0])|, |IdsOf(cs[1..])|);
    }
  }

  /** Renumbering changes identifiers and nothing else. */
  lemma {:induction false} EraseRenumber(n: Node, k: nat)
    ensures Erase(Renumber(n, k)) == Erase(n)
    decreases n
  {
    match n
    case Element(_, _, _, cs) => EraseRenumberList(cs, k + 1);
    case DocRoot(_, cs) => EraseRenumberList(cs, k + 1);
    case _ =>
  }

  lemma {:induction false} EraseRenumberList(cs: seq<Node>, k: nat)
    ensures EraseList(RenumberList(cs, k)) == EraseList(cs)
    decreases cs
  {
    if cs != [] {
      EraseRenumber(cs[0], k);
      EraseRenumberList(cs[1..], k + |Ids(cs[0])|);
      var r := RenumberList(cs, k);
      assert r[0] == Renumber(cs[0], k) && r[1..] == RenumberList(cs[1..], k + |Ids(cs[0])|);
    }
  }

  /** A span has no duplicate, and every identifier in it lies in [k, k+len). */
  lemma {:induction false} SpanBag(k: nat, len: nat)
    ensures NoDup(multiset(Span(k, len)))
    ensures forall y :: y in multiset(Span(k, len)) ==> k <= y < k + len
    decreases len
  {
    if len > 0 {
      var a, b := multiset(Span(k, len - 1)), multiset{k + len - 1};
      assert multiset(Span(k, len)) == a + b by {
        assert Span(k, len) == Span(k, len - 1) + [k + len - 1];
      }
      assert NoDup(a) && forall y :: y in a ==> k <= y < k + len - 1 by {
        SpanBag(k, len - 1);
      }
      assert NoDup(b) && forall y :: y in a ==> y !in b;
      NoDupSum(a, b);
    }
  }

  /** A renumbered tree has no duplicate identifier, and all of them are at least k and below k + its size. */
  lemma RenumberFresh(n: Node, k: nat)
    ensures UniqueNode(Renumber(n, k))
    ensures |Ids(Renumber(n, k))| == |Ids(n)|
    ensures forall y :: y in Ids(Renumber(n, k)) ==> k <= y < k + |Ids(n)|
  {
    RenumberIds(n, k);
    SpanBag(k, |Ids(n)|);
    forall y | y in Ids(Renumber(n, k))
      ensures k <= y < k + |Ids(n)|
    {
      assert y in multiset(Span(k, |Ids(n)|));
    }
  }

  // ---------------------------------------------------------------- cloneChildren

  /** What cloneChildren returns: CLONE_FAILED, or the copy (None for null) and the next free identifier. */
  datatype Copied = CloneFailed | Copy(node: Option<Node>, next: nat)

  /** The copies of a child list that were appended, or CLONE_FAILED. */
  datatype CopiedList = ListFailed | Copies(nodes: seq<Node>, next: nat)

  /** cloneChildren(doc, child), with the target's identifiers handed out from k. */
  function CloneChildren(n: Node, k: nat): Copied
    decreases n
  {
    match n
    case Text(_, t) => if t.None? then Copy(None, k) else Copy(Some(Text(k, t)), k + 1)
    case Element(_, tag, attrs, cs) =>
      (match CloneList(cs, k + 1)
       case ListFailed => CloneFailed
       case Copies(kids, k') => Copy(Some(Element(k, tag, Attributes.CopyAttrs(attrs), kids)), k'))
    case Comment(_, d) => Copy(Some(Comment(k, d)), k + 1)
    case CData(_, d) => Copy(Some(CData(k, d)), k + 1)
    case _ => CloneFailed
  }

  /** The child loop of cloneChildren: each child copied in order, a null copy skipped. */
  function CloneList(cs: seq<Node>, k: nat): CopiedList
    decreases cs
  {
    if cs == [] then Copies([], k)
    else match CloneChildren(cs[0], k)
      case CloneFailed => ListFailed
      case Copy(c, k1) =>
        (match CloneList(cs[1..], k1)
         case ListFailed => ListFailed
         case Copies(rest, k2) => Copies((if c.Some? then [c.value] else []) + rest, k2))
  }

  /** The kinds cloneChildren copies, all the way down: no document node and no processing instruction. */
  predicate Clonable(n: Node)
    decreases n
  {
    match n
    case Element(_, _, _, cs) => ClonableList(cs)
    case DocRoot(_, _) => false
    case Instruction(_, _, _) => false
    case _ => true
  }

  predicate ClonableList(cs: seq<Node>)
    decreases cs
  {
    cs == [] || (Clonable(cs[0]) && ClonableList(cs[1..]))
  }

  /** A text node whose value is null: its copy is null. */
  predicate NullText(n: Node)
  {
    n.Text? && n.text.None?
  }

  /** What a copy looks like before numbering: null texts dropped, attributes as the copying loop sets them. */
  function Canonical(n: Node): Node
    decreases n
  {
    match n
    case Element(i, tag, attrs, cs) => Element(i, tag, Attributes.CopyAttrs(attrs), CanonicalList(cs))
    case DocRoot(i, cs) => DocRoot(i, CanonicalList(cs))
    case _ => n
  }

  function CanonicalList(cs: seq<Node>): seq<Node>
    decreases cs
  {
    if cs == [] then []
    else if NullText(cs[0]) then CanonicalList(cs[1..])
    else [Canonical(cs[0])] + CanonicalList(cs[1..])
  }

  /**
   * cloneChildren fails exactly on a tree holding a document node or a processing instruction;
   * otherwise it gives null for a null text and else the canonical form of the source, numbered
   * in preorder from k, and the next free identifier after it.
   */
  lemma {:induction false} CloneChildrenSpec(n: Node, k: nat)
    ensures CloneChildren(n, k).CloneFailed? <==> !Clonable(n)
    ensures Clonable(n) && NullText(n) ==> CloneChildren(n, k) == Copy(None, k)
    ensures Clonable(n) && !NullText(n) ==>
      CloneChildren(n, k) == Copy(Some(Renumber(Canonical(n), k)), k + |Ids(Canonical(n))|)
    decreases n
  {
    match n
    case Element(i, tag, attrs, cs) =>
      CloneListSpec(cs, k + 1);
    case _ =>
  }

  lemma {:induction false} CloneListSpec(cs: seq<Node>, k: nat)
    ensures CloneList(cs, k).ListFailed? <==> !ClonableList(cs)
    ensures ClonableList(cs) ==>
      CloneList(cs, k) == Copies(RenumberList(CanonicalList(cs), k), k + |IdsOf(CanonicalList(cs))|)
    decreases cs
  {
    if cs != [] {
      CloneChildrenSpec(cs[0], k);
      if Clonable(cs[0]) {
        var k1 := CloneChildren(cs[0], k).next;
        CloneListSpec(cs[1..], k1);
        if ClonableList(cs[1..]) {
          var c := Canonical(cs[0]);
          var rest := CanonicalList(cs[1..]);
          if !NullText(cs[0]) {
            assert CanonicalList(cs) == [c] + rest;
            assert ([c] + rest)[0] == c && ([c] + rest)[1..] == rest;
            IdsOfCons(c, rest);
          }
        }
      }
    }
  }

  /** A tree as the DOM holds it: no null text, and unique attribute names on every element. */
  predicate DomShaped(n: Node)
    decreases n
  {
    match n
    case Element(_, _, attrs, cs) => Attributes.NamesUnique(attrs) && DomShapedList(cs)
    case DocRoot(_, cs) => DomShapedList(cs)
    case Text(_, t) => t.Some?
    case _ => true
  }

  predicate DomShapedList(cs: seq<Node>)
    decreases cs
  {
    cs == [] || (DomShaped(cs[0]) && DomShapedList(cs[1..]))
  }

  /** A DOM-shaped tree is its own canonical form. */
  lemma {:induction false} CanonicalOfDomShaped(n: Node)
    requires DomShaped(n)
    ensures Canonical(n) == n
    decreases n
  {
    match n
    case Element(_, _, attrs, cs) =>
      Attributes.CopyAttrsIdentity(attrs);
      CanonicalListOfDomShaped(cs);
    case DocRoot(_, cs) => CanonicalListOfDomShaped(cs);
    case _ =>
  }

  lemma {:induction false} CanonicalListOfDomShaped(cs: seq<Node>)
    requires DomShapedList(cs)
    ensures CanonicalList(cs) == cs
    decreases cs
  {
    if cs != [] {
      CanonicalOfDomShaped(cs[0]);
      CanonicalListOfDomShaped(cs[1..]);
    }
  }

  /**
   * The copy of a clonable DOM tree is the source itself up to identifiers: the element name,
   * every attribute, every child in order and every payload are kept. Its identifiers are new:
   * none is below k, and none occurs twice.
   */
  lemma CopyIsStructurallyEqual(n: Node, k: nat)
    requires DomShaped(n) && Clonable(n)
    ensures CloneChildren(n, k).Copy? && CloneChildren(n, k).node.Some?
    ensures Erase(CloneChildren(n, k).node.value) == Erase(n)
    ensures UniqueNode(CloneChildren(n, k).node.value)
    ensures forall y :: y in Ids(CloneChildren(n, k).node.value) ==> k <= y < CloneChildren(n, k).next
  {
    CloneChildrenSpec(n, k);
    CanonicalOfDomShaped(n);
    EraseRenumber(n, k);
    RenumberFresh(n, k);
  }
}
