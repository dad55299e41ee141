/**
 * Moving and copying between documents: examineChild (the node itself when it belongs to the
 * receiving document, a cloneChildren copy when it does not), the appendChild that follows it in
 * addChild and appendChildByName, create(Node) (a copy into a brand-new document, the way
 * getChild and getChildren answer) and clone(deep) (cloneNode into the same document).
 */
module Transfer {
  import opened Wrappers
  import opened Throwables
  import opened DomTree
  import opened Dom
  import opened Transplant
  import opened Outcomes
  import X = XmlDocumentCheckedException

  /** The node examineChild is handed: one of the receiving document, or the tree of a node of another document (null in either). */
  datatype Source = Local(id: Option<NodeId>) | Foreign(tree: Option<Node>)

  /** The debug string cloneChildren gives its CLONE_FAILED exception (it names no class). */
  const CLONE_DEBUG: string := ".getElementChildByIndex(Node, int)"

  /** The exception cloneChildren throws on a node it cannot copy. */
  const CLONE_FAILED_ERR: Throwable := Raise(X.CLONE_FAILED, CLONE_DEBUG)

  predicate SourceIn(st: State, src: Source)
  {
    src.Local? && src.id.Some? ==> Has(st, src.id.value)
  }

  /**
   * examineChild(rootDoc, child): a node of this document is passed on as it is; a node of another
   * document is copied into this one by cloneChildren, attached nowhere (null for a null text).
   */
  function Examine(st: State, src: Source): Effect<Option<NodeId>>
  {
    match src
    case Local(x) => Effect(st, Ok(x))
    case Foreign(None) => Effect(st, Fail(NULL_POINTER))
    case Foreign(Some(n)) =>
      match CloneChildren(n, st.next)
      case CloneFailed => Effect(st, Fail(CLONE_FAILED_ERR))
      case Copy(None, _) => Effect(st, Ok(None))
      case Copy(Some(t), k) => Effect(Adopt(st, t, k), Ok(Some(t.id)))
  }

  /** The copy of a foreign node, numbered from the document's next identifier. */
  function CopyOf(st: State, n: Node): Node
  {
    Renumber(Canonical(n), st.next)
  }

  /**
   * examineChild keeps the document valid and its nodes as they were. A local node is passed on
   * unchanged; a foreign one fails exactly when it is null or holds a node cloneChildren refuses,
   * gives null exactly for a null text, and otherwise is its canonical copy, new and attached nowhere.
   */
  lemma ExamineSpec(st: State, src: Source)
    requires Valid(st) && SourceIn(st, src)
    ensures var e := Examine(st, src);
      Valid(e.st) && e.st.next >= st.next && forall y :: Has(st, y) ==> Has(e.st, y) && Get(e.st, y) == Get(st, y)
    ensures src.Local? ==> Examine(st, src) == Effect(st, Ok(src.id))
    ensures src.Foreign? ==>
      (Examine(st, src).out.Fail? <==> src.tree.None? || !Clonable(src.tree.value))
    ensures src.Foreign? && src.tree.None? ==> Examine(st, src).out == Fail(NULL_POINTER)
    ensures src.Foreign? && src.tree.Some? && !Clonable(src.tree.value) ==> Examine(st, src).out == Fail(CLONE_FAILED_ERR)
    ensures src.Foreign? && Examine(st, src).out.Ok? ==>
      (Examine(st, src).out.value.None? <==> NullText(src.tree.value))
    ensures src.Foreign? && Examine(st, src).out.Ok? && Examine(st, src).out.value.Some? ==>
      var e := Examine(st, src); var c := e.out.value.value;
      c == st.next && Has(e.st, c) && Get(e.st, c) == CopyOf(st, src.tree.value) && IsTop(e.st.nodes, c)
      && Erase(Get(e.st, c)) == Erase(Canonical(src.tree.value))
  {
    if src.Foreign? && src.tree.Some? {
      var n := src.tree.value;
      CloneChildrenSpec(n, st.next);
      if Clonable(n) && !NullText(n) {
        var t := CopyOf(st, n);
        RenumberFresh(Canonical(n), st.next);
        AdoptSpec(st, t, st.next + |Ids(Canonical(n))|);
        EraseRenumber(Canonical(n), st.next);
      }
    }
  }

  /** parentNode.appendChild(examineChild(doc, child)): appendChild(null) is a NullPointerException. */
  function AttachTo(st: State, p: NodeId, src: Source): Effect<()>
    requires Valid(st) && Has(st, p) && SourceIn(st, src)
  {
    ExamineSpec(st, src);
    var e := Examine(st, src);
    match e.out
    case Fail(err) => Effect(e.st, Fail(err))
    case Ok(None) => Effect(e.st, Fail(NULL_POINTER))
    case Ok(Some(c)) =>
      match AppendChild(e.st, p, c)
      case Ok(s) => Effect(s, Ok(()))
      case Fail(err) => Effect(e.st, Fail(err))
  }

  /**
   * Attaching a node of the same document moves that very node: it becomes p's last child with
   * its subtree intact. Attaching a node of another document appends its copy, and the copy is
   * the source up to identifiers.
   */
  lemma AttachSpec(st: State, p: NodeId, src: Source)
    requires Valid(st) && Has(st, p) && SourceIn(st, src)
    ensures var r := AttachTo(st, p, src); Valid(r.st) && forall y :: Has(st, y) ==> Has(r.st, y)
    ensures src.Local? && src.id.None? ==> AttachTo(st, p, src) == Effect(st, Fail(NULL_POINTER))
    ensures src.Local? && src.id.Some? ==>
      var c := src.id.value;
      AttachTo(st, p, src).out.Ok? <==> KidAllowed(Get(st, p), Get(st, c)) && p !in Ids(Get(st, c))
    ensures src.Local? && src.id.Some? && AttachTo(st, p, src).out.Ok? ==>
      var c := src.id.value; var r := AttachTo(st, p, src).st;
      Get(r, c) == Get(st, c) && !IsTop(r.nodes, c)
      && HasChildList(Get(st, p))
      && (c !in Ids(Get(st, p)) ==> Get(r, p) == WithKids(Get(st, p), Kids(Get(st, p)) + [Get(st, c)]))
    ensures src.Foreign? && AttachTo(st, p, src).out.Ok? ==>
      var r := AttachTo(st, p, src).st; var t := CopyOf(st, src.tree.value);
      HasChildList(Get(st, p)) && Get(r, p) == WithKids(Get(st, p), Kids(Get(st, p)) + [t])
      && Erase(t) == Erase(Canonical(src.tree.value))
  {
    ExamineSpec(st, src);
    var e := Examine(st, src);
    if e.out.Ok? && e.out.value.Some? {
      var c := e.out.value.value;
      if KidAllowed(Get(e.st, p), Get(e.st, c)) && p !in Ids(Get(e.st, c)) {
        MoveSpec(e.st, p, c);
        if src.Foreign? {
          var n := src.tree.value;
          RenumberFresh(Canonical(n), st.next);
          FindIffIn(st.nodes, p);
          FindSubBag(st.nodes, p);
          assert c !in multiset(Ids(Get(st, p)));
        }
      }
    }
  }

  // ---------------------------------------------------------------- create(Node)

  /**
   * create(node): a new document, the node's cloneChildren copy appended to its document node.
   * The answer is a handle on the new document's element (null when the copy is not an element).
   */
  function CopyOut(n: Option<Node>): Outcome<State>
  {
    if n.None? then Fail(NULL_POINTER)
    else
      match CloneChildren(n.value, EMPTY.next)
      case CloneFailed => Fail(CLONE_FAILED_ERR)
      case Copy(None, _) => Fail(NULL_POINTER)
      case Copy(Some(t), k) =>
        EmptyValid();
        ExamineSpec(EMPTY, Foreign(n));
        match AppendChild(Adopt(EMPTY, t, k), 0, t.id)
        case Ok(s) => Ok(s)
        case Fail(e) => Fail(e)
  }

  /** The document a copy of n ends up in: the document node holding the copy and nothing else. */
  function CopyDocument(n: Node): State
  {
    State([DocRoot(0, [Renumber(Canonical(n), 1)])], 1 + |Ids(Canonical(n))|)
  }

  /**
   * create(node) of a clonable element gives a new valid document whose only child is the copy,
   * which is the source up to identifiers (for a DOM-shaped source, the source itself: name, every
   * attribute, every child in order, every payload). A comment gives a document with no element,
   * a text or CDATA section the document node refuses, and a non-clonable node CLONE_FAILED.
   */
  lemma CopyOutSpec(n: Node)
    ensures CopyOut(Some(n)).Fail? <==> !Clonable(n) || NullText(n) || n.Text? || n.CData?
    ensures !Clonable(n) ==> CopyOut(Some(n)) == Fail(CLONE_FAILED_ERR)
    ensures Clonable(n) && (NullText(n) || n.Text? || n.CData?) ==>
      CopyOut(Some(n)) == Fail(if NullText(n) then NULL_POINTER else HIERARCHY_REQUEST_ERR)
    ensures CopyOut(Some(n)).Ok? ==>
      var s := CopyOut(Some(n)).value;
      s == CopyDocument(n) && Valid(s) && Has(s, 1) && Get(s, 1) == Renumber(Canonical(n), 1)
      && Erase(Get(s, 1)) == Erase(Canonical(n))
      && DocElement(s) == (if n.Element? then Some(1) else None)
    ensures CopyOut(Some(n)).Ok? && DomShaped(n) ==> Erase(Get(CopyOut(Some(n)).value, 1)) == Erase(n)
  {
    CloneChildrenSpec(n, 1);
    if Clonable(n) && !NullText(n) {
      var t := Renumber(Canonical(n), 1);
      var k := 1 + |Ids(Canonical(n))|;
      RenumberFresh(Canonical(n), 1);
      assert CloneChildren(n, 1) == Copy(Some(t), k);
      if KidAllowed(DocRoot(0, []), t) {
        CopyOutAppends(n);
      } else {
        CopyOutRefused(n);
      }
    }
  }

  /** The copy is appended to the empty document node when the node accepts it. */
  lemma CopyOutAppends(n: Node)
    requires Clonable(n) && !NullText(n) && KidAllowed(DocRoot(0, []), Renumber(Canonical(n), 1))
    ensures CopyOut(Some(n)) == Ok(CopyDocument(n))
    ensures var s := CopyDocument(n);
      Valid(s) && Has(s, 1) && Get(s, 1) == Renumber(Canonical(n), 1)
      && Erase(Get(s, 1)) == Erase(Canonical(n))
      && DocElement(s) == (if n.Element? then Some(1) else None)
    ensures DomShaped(n) ==> Erase(Get(CopyDocument(n), 1)) == Erase(n)
  {
    var t := Renumber(Canonical(n), 1);
    var k := 1 + |Ids(Canonical(n))|;
    CloneChildrenSpec(n, 1);
    RenumberFresh(Canonical(n), 1);
    MoveShape(t, k);
    assert AppendChild(Adopt(EMPTY, t, k), 0, 1) == Ok(Move(Adopt(EMPTY, t, k), 0, 1));
    MoveSpec(Adopt(EMPTY, t, k), 0, 1);
    CopyDocumentSpec(n);
  }

  /** The copy document: valid, with the copy as the document node's only child. */
  lemma CopyDocumentSpec(n: Node)
    requires Valid(CopyDocument(n))
    ensures var s := CopyDocument(n);
      Has(s, 1) && Get(s, 1) == Renumber(Canonical(n), 1)
      && Erase(Get(s, 1)) == Erase(Canonical(n))
      && DocElement(s) == (if n.Element? then Some(1) else None)
    ensures DomShaped(n) ==> Erase(Get(CopyDocument(n), 1)) == Erase(n)
  {
    EraseRenumber(Canonical(n), 1);
    if DomShaped(n) {
      CanonicalOfDomShaped(n);
    }
    SingleChild(Renumber(Canonical(n), 1), 1 + |Ids(Canonical(n))|);
  }

  /** A document whose document node has a single child t. */
  lemma SingleChild(t: Node, k: nat)
    requires t.id == 1
    ensures var s := State([DocRoot(0, [t])], k);
      Has(s, 1) && Get(s, 1) == t && DocElement(s) == (if t.Element? then Some(1) else None)
  {
    var s := State([DocRoot(0, [t])], k);
    IdsOfSingle(t);
    IdsOfSingle(s.nodes[0]);
    IdsHead(t);
    assert Has(s, 1);
    assert Find(s.nodes, 1) == FindIn(s.nodes[0], 1);
    assert FindIn(s.nodes[0], 1) == Find([t], 1);
    assert FindIn(t, 1) == Some(t);
    assert FirstElement([t]) == if t.Element? then Some(t) else None;
  }

  /** A text or CDATA copy is refused by the document node. */
  lemma CopyOutRefused(n: Node)
    requires Clonable(n) && !NullText(n) && !KidAllowed(DocRoot(0, []), Renumber(Canonical(n), 1))
    ensures CopyOut(Some(n)) == Fail(HIERARCHY_REQUEST_ERR)
  {
    var t := Renumber(Canonical(n), 1);
    var k := 1 + |Ids(Canonical(n))|;
    CloneChildrenSpec(n, 1);
    RenumberFresh(Canonical(n), 1);
    MoveShape(t, k);
  }

  /** Appending a detached tree to the empty document node of a two-tree forest leaves one tree. */
  lemma MoveShape(t: Node, k: nat)
    requires t.id == 1 && UniqueNode(t) && (forall y :: y in Ids(t) ==> 1 <= y < k) && !t.DocRoot?
    ensures Valid(Adopt(EMPTY, t, k)) && Has(Adopt(EMPTY, t, k), 0) && Has(Adopt(EMPTY, t, k), 1)
    ensures Get(Adopt(EMPTY, t, k), 1) == t && Get(Adopt(EMPTY, t, k), 0) == DocRoot(0, [])
    ensures 0 !in Ids(Get(Adopt(EMPTY, t, k), 1)) && HasChildList(Get(Adopt(EMPTY, t, k), 0))
    ensures Move(Adopt(EMPTY, t, k), 0, 1) == State([DocRoot(0, [t])], k)
  {
    EmptyValid();
    var s1 := Adopt(EMPTY, t, k);
    AdoptSpec(EMPTY, t, k);
    IdsHead(t);
    assert Find(s1.nodes, 0) == Some(DocRoot(0, []));
    var pr := Prune(s1.nodes, 1);
    assert pr == [DocRoot(0, [])] by {
      assert s1.nodes == [DocRoot(0, [])] + [t];
      assert 1 !in Ids(DocRoot(0, []));
      assert Prune(s1.nodes, 1) == [DocRoot(0, [])] + Prune(s1.nodes[1..], 1);
      assert s1.nodes[1..] == [t];
      assert Prune([t], 1) == [];
    }
    assert Find(pr, 0) == Some(DocRoot(0, []));
    assert Get(s1, 1) == t;
    var m := WithKids(DocRoot(0, []), [] + [t]);
    assert [] + [t] == [t];
    assert m == DocRoot(0, [t]);
    assert Replace(pr, 0, m) == [m];
  }

  // ---------------------------------------------------------------- clone(deep)

  /** What cloneNode(deep) copies: the whole subtree, or the node alone (with its attributes). */
  function CloneSource(n: Node, deep: bool): Node
  {
    if deep || !HasChildList(n) then n else WithKids(n, [])
  }

  /** mRootNode.cloneNode(deep): a copy in the same document and attached nowhere. */
  function CloneInPlace(st: State, x: NodeId, deep: bool): State
    requires Has(st, x)
  {
    var c := CloneSource(Get(st, x), deep);
    Adopt(st, Renumber(c, st.next), st.next + |Ids(c)|)
  }

  /**
   * A clone is new (identifier st.next, attached nowhere), structurally equal to the node (without
   * its children when not deep), and the document keeps every node it had, unchanged: the clone
   * and its source are independent.
   */
  lemma CloneInPlaceSpec(st: State, x: NodeId, deep: bool)
    requires Valid(st) && Has(st, x)
    ensures var r := CloneInPlace(st, x, deep);
      Valid(r) && Has(r, st.next) && IsTop(r.nodes, st.next)
      && Erase(Get(r, st.next)) == Erase(CloneSource(Get(st, x), deep))
      && forall y :: Has(st, y) ==> Has(r, y) && Get(r, y) == Get(st, y)
    ensures deep ==> Erase(Get(CloneInPlace(st, x, deep), st.next)) == Erase(Get(st, x))
    ensures !deep && HasChildList(Get(st, x)) ==> Kids(Get(CloneInPlace(st, x, deep), st.next)) == []
  {
    var c := CloneSource(Get(st, x), deep);
    RenumberFresh(c, st.next);
    AdoptSpec(st, Renumber(c, st.next), st.next + |Ids(c)|);
    EraseRenumber(c, st.next);
  }
}
