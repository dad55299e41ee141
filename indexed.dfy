/**
 * The facade's operations on the current node's element children by position and by name:
 * getChildrenCount, getChildCount, getChild(int), removeChild(int), replaceChild(int, ...),
 * replaceChild(String, ...), getChildren and getChildrenByName. Positions count element
 * children only, as getElementChildByIndex does.
 */
module Indexed {
  import opened Wrappers
  import opened Throwables
  import opened DomTree
  import opened Dom
  import opened Paths
  import opened Outcomes
  import opened Children
  import opened Transplant
  import opened Transfer
  import opened Lookup
  import X = XmlDocumentCheckedException
  import Creation
  import Placing

  /** The current node of a handle, with its subtree (null for a null node). */
  function RootNode(st: State, root: Option<NodeId>): (r: Option<Node>)
    requires RootIn(st, root)
    ensures r.Some? <==> root.Some?
    ensures r.Some? ==> r.value.id == root.value
  {
    if root.Some? then Some(Get(st, root.value)) else None
  }

  /** The element children of the current node. */
  function ElementsOf(st: State, x: NodeId): seq<Node>
    requires Has(st, x)
  {
    ElementKids(Kids(Get(st, x)))
  }

  // ---------------------------------------------------------------- counting

  const CHILDREN_COUNT: string := Debug(".getChildrenCount()")
  const CHILD_COUNT: string := Debug(".getChildCount()")

  /** getChildrenCount(): the number of element children; a null current node is a NullPointerException, wrapped. */
  function ChildrenCount(st: State, root: Option<NodeId>): Outcome<nat>
    requires RootIn(st, root)
  {
    if root.None? then Fail(GeneralError(CHILDREN_COUNT, NULL_POINTER))
    else Ok(|ElementsOf(st, root.value)|)
  }

  /** getChildCount(): getChildrenCount, its exception wrapped once more. */
  function ChildCount(st: State, root: Option<NodeId>): Outcome<nat>
    requires RootIn(st, root)
  {
    match ChildrenCount(st, root)
    case Fail(e) => Fail(Rewrap(CHILD_COUNT, e))
    case Ok(n) => Ok(n)
  }

  /**
   * The count is the number of positions getElementChildByIndex answers: exactly the indexes
   * below it give a child, and the two counting calls agree. Both fail only for a null node,
   * with GENERAL_ERROR.
   */
  lemma CountMatchesPositions(st: State, root: Option<NodeId>, index: int)
    requires RootIn(st, root)
    ensures ChildrenCount(st, root).Ok? <==> root.Some?
    ensures ChildCount(st, root).Ok? <==> root.Some?
    ensures ChildrenCount(st, root).Ok? ==>
      ChildCount(st, root) == ChildrenCount(st, root)
      && (ElementAt(RootNode(st, root), index).Ok? <==> 0 <= index < ChildrenCount(st, root).value)
    ensures ChildrenCount(st, root).Fail? ==>
      ChildrenCount(st, root).error.code == X.GENERAL_ERROR && ChildCount(st, root).error.code == X.GENERAL_ERROR
      && ChildCount(st, root).error.rootCause == Some(ChildrenCount(st, root).error)
  {
    if root.None? {
      RaisedAreXmlChecked(X.GENERAL_ERROR, CHILDREN_COUNT, NULL_POINTER);
      RewrapIsGeneralError(CHILD_COUNT, GeneralError(CHILDREN_COUNT, NULL_POINTER));
    }
  }

  // ---------------------------------------------------------------- getChild(int)

  const GET_CHILD_AT: string := Debug(".getChild(int)")

  /**
   * getChild(index): create(node) of the index-th element child, a copy in a new document.
   * Only the facade's own exceptions are caught, and wrapped as GENERAL_ERROR.
   */
  function GetChildAt(st: State, root: Option<NodeId>, index: int): Outcome<State>
    requires RootIn(st, root)
  {
    match ElementAt(RootNode(st, root), index)
    case Fail(e) => Fail(WrapChecked(GET_CHILD_AT, e))
    case Ok(c) =>
      match CopyOut(Some(c))
      case Fail(e) => Fail(WrapChecked(GET_CHILD_AT, e))
      case Ok(doc) => Ok(doc)
  }

  /** A copied element child: document, element and content. */
  ghost predicate CopiedElement(doc: State, n: Node)
  {
    doc == CopyDocument(n) && Valid(doc) && DocElement(doc) == Some(1) && Has(doc, 1)
    && Erase(Get(doc, 1)) == Erase(Canonical(n))
  }

  /** create(node) of an element: it fails only with CLONE_FAILED, and otherwise gives the element's copy. */
  lemma CopyElement(n: Node)
    requires n.Element?
    ensures CopyOut(Some(n)).Ok? <==> Clonable(n)
    ensures CopyOut(Some(n)).Fail? ==> CopyOut(Some(n)).error == CLONE_FAILED_ERR
    ensures CopyOut(Some(n)).Ok? ==> CopiedElement(CopyOut(Some(n)).value, n)
  {
    CopyOutSpec(n);
  }

  /** CLONE_FAILED is one of the facade's own exceptions. */
  lemma CloneFailedChecked()
    ensures IsXmlChecked(CLONE_FAILED_ERR) && CLONE_FAILED_ERR.code == X.CLONE_FAILED
  {
    RaisedAreXmlChecked(X.CLONE_FAILED, CLONE_DEBUG, NULL_POINTER);
  }

  /**
   * getChild(index) answers exactly for the positions of element children whose subtree can be
   * copied, with the copy of that child in a new document; every failure is GENERAL_ERROR.
   */
  lemma GetChildAtSpec(st: State, root: Option<NodeId>, index: int)
    requires Valid(st) && RootIn(st, root)
    ensures GetChildAt(st, root, index).Ok? <==>
      root.Some? && 0 <= index < |ElementsOf(st, root.value)| && Clonable(ElementsOf(st, root.value)[index])
    ensures GetChildAt(st, root, index).Ok? ==> CopiedElement(GetChildAt(st, root, index).value, ElementsOf(st, root.value)[index])
    ensures GetChildAt(st, root, index).Fail? ==>
      GetChildAt(st, root, index).error.Checked? && GetChildAt(st, root, index).error.code == X.GENERAL_ERROR
  {
    match ElementAt(RootNode(st, root), index)
    case Fail(e) =>
      RaisedAreXmlChecked(X.GENERAL_ERROR, BY_INDEX, NULL_POINTER);
      RaisedAreXmlChecked(X.INVALID_INDEX, BY_INDEX, NULL_POINTER);
      RaisedAreXmlChecked(X.GENERAL_ERROR, GET_CHILD_AT, e);
    case Ok(c) =>
      CopyElement(c);
      CloneFailedChecked();
      RaisedAreXmlChecked(X.GENERAL_ERROR, GET_CHILD_AT, CLONE_FAILED_ERR);
  }

  // ---------------------------------------------------------------- removeChild(int)

  const REMOVE_AT: string := Debug(".removeChild(int)")

  /** The position in the full child list of a node's index-th element child is that of a child of the document. */
  lemma ElementInState(st: State, x: NodeId, index: nat)
    requires Valid(st) && Has(st, x) && index < |ElementsOf(st, x)|
    ensures var j := ElementPos(Kids(Get(st, x)), index);
      Kids(Get(st, x))[j] == ElementsOf(st, x)[index] && Has(st, ElementsOf(st, x)[index].id)
      && Get(st, ElementsOf(st, x)[index].id) == ElementsOf(st, x)[index]
      && ElementsOf(st, x)[index].id in Ids(Get(st, x)) && ElementsOf(st, x)[index].id != x
      && !IsTop(st.nodes, ElementsOf(st, x)[index].id)
  {
    Placing.KidInState(st, x, ElementPos(Kids(Get(st, x)), index));
  }

  /** getElementChildByIndex of a position in range is the child at ElementPos. */
  lemma ElementAtPos(st: State, x: NodeId, index: nat)
    requires Valid(st) && Has(st, x) && index < |ElementsOf(st, x)|
    ensures ElementAt(Some(Get(st, x)), index) == Ok(Kids(Get(st, x))[ElementPos(Kids(Get(st, x)), index)])
  {
  }

  /**
   * removeChild(index): the index-th element child is detached from the current node and a
   * handle on it returned. The exceptions of getElementChildByIndex (INVALID_INDEX, a wrapped
   * NullPointerException) are passed on.
   */
  function RemoveAt(st: State, root: Option<NodeId>, index: int): Effect<NodeId>
    requires Valid(st) && RootIn(st, root)
  {
    match ElementAt(RootNode(st, root), index)
    case Fail(e) => Effect(st, Fail(e))
    case Ok(c) =>
      ElementInState(st, root.value, index);
      match Detach(st, c.id)
      case Fail(e) => Effect(st, Fail(GeneralError(REMOVE_AT, e)))
      case Ok(s) => Effect(s, Ok(c.id))
  }

  /** A node of the document's subtree is unique. */
  lemma UniqueHere(st: State, x: NodeId)
    requires Valid(st) && Has(st, x)
    ensures UniqueNode(Get(st, x))
  {
    FindIffIn(st.nodes, x);
    FoundOccurs(st.nodes, x);
    Creation.UniqueInside(st.nodes, Get(st, x));
  }

  /** Detaching the j-th child of x: x's child list loses that entry, and the child keeps its subtree, attached nowhere. */
  lemma DetachKid(st: State, x: NodeId, j: nat)
    requires Valid(st) && Has(st, x) && j < |Kids(Get(st, x))|
    ensures var c := Kids(Get(st, x))[j]; Has(st, c.id) && Detach(st, c.id).Ok?
    ensures var c := Kids(Get(st, x))[j]; var P := Get(st, x); var s := Detach(st, c.id).value;
      Valid(s) && (forall y :: Has(st, y) <==> Has(s, y))
      && Get(s, c.id) == c && IsTop(s.nodes, c.id)
      && Get(s, x) == WithKids(P, Kids(P)[..j] + Kids(P)[j + 1..])
      && forall y :: Has(st, y) && Apart(st, y, c.id) ==> Get(s, y) == Get(st, y)
  {
    var P := Get(st, x);
    var c := Kids(P)[j];
    Placing.KidInState(st, x, j);
    DetachSpec(st, c.id);
    UniqueHere(st, x);
    Placing.PruneKid(P, j);
  }

  /** removeChild(index) keeps the document valid and all its nodes, and fails, changing nothing, exactly when getElementChildByIndex does. */
  lemma RemoveAtSpec(st: State, root: Option<NodeId>, index: int)
    requires Valid(st) && RootIn(st, root)
    ensures var r := RemoveAt(st, root, index); Valid(r.st) && forall y :: Has(st, y) <==> Has(r.st, y)
    ensures RemoveAt(st, root, index).out.Ok? <==> ElementAt(RootNode(st, root), index).Ok?
    ensures ElementAt(RootNode(st, root), index).Fail? ==>
      RemoveAt(st, root, index) == Effect(st, Fail(ElementAt(RootNode(st, root), index).error))
  {
    if ElementAt(RootNode(st, root), index).Ok? {
      var x := root.value;
      var cs := Kids(Get(st, x));
      var j := ElementPos(cs, index);
      ElementAtPos(st, x, index);
      DetachKid(st, x, j);
      assert RemoveAt(st, root, index) == Effect(Detach(st, cs[j].id).value, Ok(cs[j].id));
    }
  }

  /**
   * removeChild(index) takes exactly the index-th element child out of the current node's child
   * list, keeps it with its subtree and leaves it without a parent; nodes apart from it are
   * unchanged.
   */
  lemma RemoveAtTakesOut(st: State, x: NodeId, index: nat)
    requires Valid(st) && Has(st, x) && index < |ElementsOf(st, x)|
    ensures var r := RemoveAt(st, Some(x), index);
      var E := ElementsOf(st, x); var cs := Kids(Get(st, x)); var j := ElementPos(cs, index);
      r.out == Ok(E[index].id) && Has(r.st, x) && Has(r.st, E[index].id) && Get(r.st, E[index].id) == E[index]
      && IsTop(r.st.nodes, E[index].id)
      && Get(r.st, x) == WithKids(Get(st, x), cs[..j] + cs[j + 1..])
      && Has(st, E[index].id) && forall y :: Has(st, y) && Apart(st, y, E[index].id) ==> Has(r.st, y) && Get(r.st, y) == Get(st, y)
  {
    var cs := Kids(Get(st, x));
    var j := ElementPos(cs, index);
    ElementAtPos(st, x, index);
    DetachKid(st, x, j);
    assert RemoveAt(st, Some(x), index) == Effect(Detach(st, cs[j].id).value, Ok(cs[j].id));
  }

  /** After removeChild(index) the element children are the old ones without the index-th. */
  lemma RemoveAtElements(st: State, x: NodeId, index: nat)
    requires Valid(st) && Has(st, x) && index < |ElementsOf(st, x)|
    ensures var r := RemoveAt(st, Some(x), index); var E := ElementsOf(st, x);
      Has(r.st, x) && ElementsOf(r.st, x) == E[..index] + E[index + 1..]
  {
    var cs := Kids(Get(st, x));
    var j := ElementPos(cs, index);
    RemoveAtTakesOut(st, x, index);
    var n := Get(RemoveAt(st, Some(x), index).st, x);
    assert Kids(n) == cs[..j] + cs[j + 1..];
    ElementKidsAround(cs, j, cs[j]);
  }

  /** Taking out the index-th element child shifts the later positions down by one. */
  lemma ElementAtShift(n: Node, n': Node, index: nat, i: int)
    requires index < |ElementKids(Kids(n))|
    requires ElementKids(Kids(n')) == ElementKids(Kids(n))[..index] + ElementKids(Kids(n))[index + 1..]
    ensures |ElementKids(Kids(n'))| == |ElementKids(Kids(n))| - 1
    ensures ElementAt(Some(n'), i) ==
      if 0 <= i < index then ElementAt(Some(n), i)
      else if index <= i < |ElementKids(Kids(n'))| then ElementAt(Some(n), i + 1)
      else Fail(Raise(X.INVALID_INDEX, BY_INDEX))
  {
    var E, E' := ElementKids(Kids(n)), ElementKids(Kids(n'));
    if 0 <= i < index {
      assert E'[i] == E[i];
    } else if index <= i < |E'| {
      assert E'[i] == E[i + 1];
    }
  }

  /**
   * After removeChild(index) there is one element child fewer, and the children after the
   * removed one move up a position.
   */
  lemma RemoveAtShifts(st: State, x: NodeId, index: int, i: int)
    requires Valid(st) && Has(st, x) && RemoveAt(st, Some(x), index).out.Ok?
    ensures Has(RemoveAt(st, Some(x), index).st, x)
    ensures var s := RemoveAt(st, Some(x), index).st;
      ChildrenCount(s, Some(x)).Ok? && ChildrenCount(s, Some(x)).value == ChildrenCount(st, Some(x)).value - 1
      && ElementAt(RootNode(s, Some(x)), i) ==
        if 0 <= i < index then ElementAt(RootNode(st, Some(x)), i)
        else if index <= i < ChildrenCount(s, Some(x)).value then ElementAt(RootNode(st, Some(x)), i + 1)
        else Fail(Raise(X.INVALID_INDEX, BY_INDEX))
  {
    RemoveAtSpec(st, Some(x), index);
    RemoveAtElements(st, x, index);
    var s := RemoveAt(st, Some(x), index).st;
    ElementAtShift(Get(st, x), Get(s, x), index, i);
  }

  // ---------------------------------------------------------------- replaceChild

  /**
   * parent.replaceChild(examineChild(newChild.getDocument(), newChild.getRootNode()), o),
   * then a handle on the old child o. The node to put in is examined first (the parent expression comes
   * before it, the call after it): its copy, when it needs one, is made even when the call then
   * fails. A CLONE_FAILED from examineChild is passed on; any other failure is GENERAL_ERROR.
   */
  function Exchange(st: State, parent: Option<NodeId>, o: NodeId, src: Source, debug: string): Effect<NodeId>
    requires Valid(st) && Has(st, o) && SourceIn(st, src) && (parent.Some? ==> Has(st, parent.value))
  {
    ExamineSpec(st, src);
    var ex := Examine(st, src);
    match ex.out
    case Fail(e) => Effect(ex.st, Fail(Rethrow(debug, e)))
    case Ok(n) =>
      if parent.None? || n.None? then Effect(ex.st, Fail(GeneralError(debug, NULL_POINTER)))
      else
        match ReplaceChild(ex.st, parent.value, n.value, o)
        case Fail(e) => Effect(ex.st, Fail(GeneralError(debug, e)))
        case Ok(s) => Effect(s, Ok(o))
  }

  /** Whatever the exchange does, it keeps the document valid and loses none of its nodes; a failed one changes none of them. */
  lemma ExchangeKeeps(st: State, parent: Option<NodeId>, o: NodeId, src: Source, debug: string)
    requires Valid(st) && Has(st, o) && SourceIn(st, src) && (parent.Some? ==> Has(st, parent.value))
    ensures var r := Exchange(st, parent, o, src, debug); Valid(r.st) && forall y :: Has(st, y) ==> Has(r.st, y)
    ensures var r := Exchange(st, parent, o, src, debug);
      r.out.Fail? ==> forall y :: Has(st, y) ==> Get(r.st, y) == Get(st, y)
    ensures var r := Exchange(st, parent, o, src, debug);
      r.out.Fail? ==> r.out.error == CLONE_FAILED_ERR || (r.out.error.Checked? && r.out.error.code == X.GENERAL_ERROR)
    ensures parent.None? ==> Exchange(st, parent, o, src, debug).out.Fail?
  {
    ExamineSpec(st, src);
    var ex := Examine(st, src);
    CloneFailedChecked();
    match ex.out
    case Fail(e) =>
      RaisedAreXmlChecked(X.GENERAL_ERROR, debug, e);
    case Ok(n) =>
      RaisedAreXmlChecked(X.GENERAL_ERROR, debug, NULL_POINTER);
      if parent.Some? && n.Some? {
        RaisedAreXmlChecked(X.GENERAL_ERROR, debug, HIERARCHY_REQUEST_ERR);
        RaisedAreXmlChecked(X.GENERAL_ERROR, debug, NOT_FOUND_ERR);
        if ReplaceChild(ex.st, parent.value, n.value, o).Ok? {
          ReplaceChildKeeps(ex.st, parent.value, n.value, o);
        }
      }
  }

  /** A successful replaceChild keeps the document valid and every node in it. */
  lemma ReplaceChildKeeps(st: State, p: NodeId, n: NodeId, o: NodeId)
    requires Valid(st) && Has(st, p) && Has(st, n) && Has(st, o) && ReplaceChild(st, p, n, o).Ok?
    ensures Valid(ReplaceChild(st, p, n, o).value) && forall y :: Has(st, y) ==> Has(ReplaceChild(st, p, n, o).value, y)
  {
    if n != o {
      SwapSpec(st, p, n, o);
    }
  }

  /**
   * Exchanging the i-th child o of p for a node of the same document not inside p: it succeeds
   * exactly when p takes that node and the node is not p or above it. The node then stands
   * where o stood, o keeps its subtree attached nowhere, and nodes apart from both are unchanged.
   */
  lemma ExchangeLocal(st: State, p: NodeId, i: nat, x: NodeId, debug: string)
    requires Valid(st) && Has(st, p) && i < |Kids(Get(st, p))| && Has(st, x)
    ensures Has(st, Kids(Get(st, p))[i].id)
    ensures var P := Get(st, p); var o := Kids(P)[i];
      Exchange(st, Some(p), o.id, Local(Some(x)), debug).out.Ok? <==>
        !(P.DocRoot? && FirstElement(P.children).Some? && !o.Element? && Get(st, x).Element?)
        && KindAccepts(P, Get(st, x)) && p !in Ids(Get(st, x))
    ensures var P := Get(st, p); var o := Kids(P)[i]; var r := Exchange(st, Some(p), o.id, Local(Some(x)), debug);
      r.out.Ok? && x !in Ids(P) ==>
        r.out.value == o.id && Valid(r.st) && (forall y :: Has(r.st, y) <==> Has(st, y))
        && Get(r.st, p) == WithKids(P, Kids(P)[..i] + [Get(st, x)] + Kids(P)[i + 1..])
        && Get(r.st, o.id) == o && IsTop(r.st.nodes, o.id) && Get(r.st, x) == Get(st, x)
        && forall y :: Has(st, y) && Apart(st, y, p) && Apart(st, y, x) ==> Get(r.st, y) == Get(st, y)
  {
    Placing.ReplaceKidAt(st, p, i, x);
  }

  /**
   * Exchanging the i-th child o of p for a node of another document: it succeeds exactly when
   * the node is not null, can be copied, is not a null text, and p takes its kind. The copy
   * then stands where o stood, o keeps its subtree attached nowhere, and every node apart from
   * p is unchanged.
   */
  lemma ExchangeForeign(st: State, p: NodeId, i: nat, t: Node, debug: string)
    requires Valid(st) && Has(st, p) && i < |Kids(Get(st, p))|
    ensures Has(st, Kids(Get(st, p))[i].id)
    ensures var P := Get(st, p); var o := Kids(P)[i];
      Exchange(st, Some(p), o.id, Foreign(Some(t)), debug).out.Ok? <==>
        Clonable(t) && !NullText(t) && KindAccepts(P, CopyOf(st, t))
        && !(P.DocRoot? && FirstElement(P.children).Some? && !o.Element? && CopyOf(st, t).Element?)
    ensures var P := Get(st, p); var o := Kids(P)[i]; var r := Exchange(st, Some(p), o.id, Foreign(Some(t)), debug);
      r.out.Ok? ==>
        r.out.value == o.id && Valid(r.st) && (forall y :: Has(st, y) ==> Has(r.st, y))
        && Get(r.st, p) == WithKids(P, Kids(P)[..i] + [CopyOf(st, t)] + Kids(P)[i + 1..])
        && Erase(CopyOf(st, t)) == Erase(Canonical(t))
        && Get(r.st, o.id) == o && IsTop(r.st.nodes, o.id)
        && forall y :: Has(st, y) && Apart(st, y, p) ==> Get(r.st, y) == Get(st, y)
  {
    var P := Get(st, p);
    Placing.KidInState(st, p, i);
    ExamineSpec(st, Foreign(Some(t)));
    var ex := Examine(st, Foreign(Some(t)));
    if ex.out.Ok? && ex.out.value.Some? {
      var n := ex.out.value.value;
      Creation.FreshAbsent(st, P, n);
      assert Get(ex.st, p) == P;
      RenumberFresh(Canonical(t), st.next);
      assert p !in Ids(Get(ex.st, n));
      Placing.ReplaceKidAt(ex.st, p, i, n);
      forall y | Has(st, y) && Apart(st, y, p)
        ensures Has(ex.st, y) && Apart(ex.st, y, p) && Apart(ex.st, y, n)
      {
        FindSubBag(st.nodes, y);
        Creation.FreshAbsent(st, Get(st, y), n);
      }
    }
  }

  /** The node replaceChild puts in, as the receiving document holds it: the node itself, or the copy of a node of another document. */
  function Incoming(st: State, src: Source): Option<Node>
    requires SourceIn(st, src)
  {
    match src
    case Local(None) => None
    case Local(Some(x)) => Some(Get(st, x))
    case Foreign(None) => None
    case Foreign(Some(t)) => if Clonable(t) && !NullText(t) then Some(CopyOf(st, t)) else None
  }

  /** The node to put in does not come from inside p. */
  predicate Outside(st: State, p: NodeId, src: Source)
    requires Has(st, p) && SourceIn(st, src)
  {
    src.Local? ==> src.id.Some? && src.id.value !in Ids(Get(st, p))
  }

  /**
   * Exchanging p's i-th child o: with no node to put in it fails. With a node from outside p it
   * succeeds exactly when p takes that node and the node is not p or above it (the document
   * node refusing a second element). That node then stands where o stood, o keeps its subtree
   * attached nowhere, and nodes apart from both are unchanged.
   */
  lemma ExchangeAt(st: State, p: NodeId, i: nat, src: Source, debug: string)
    requires Valid(st) && Has(st, p) && i < |Kids(Get(st, p))| && SourceIn(st, src)
    ensures Has(st, Kids(Get(st, p))[i].id)
    ensures Incoming(st, src).None? ==> Exchange(st, Some(p), Kids(Get(st, p))[i].id, src, debug).out.Fail?
    ensures var P := Get(st, p); var o := Kids(P)[i];
      Incoming(st, src).Some? && Outside(st, p, src) ==>
        var N := Incoming(st, src).value;
        (Exchange(st, Some(p), o.id, src, debug).out.Ok? <==>
          KindAccepts(P, N) && p !in Ids(N) && !(P.DocRoot? && FirstElement(P.children).Some? && !o.Element? && N.Element?))
    ensures var P := Get(st, p); var o := Kids(P)[i]; var r := Exchange(st, Some(p), o.id, src, debug);
      r.out.Ok? && Outside(st, p, src) ==>
        Incoming(st, src).Some? && r.out.value == o.id && Has(r.st, p) && Has(r.st, o.id)
        && Get(r.st, p) == WithKids(P, Kids(P)[..i] + [Incoming(st, src).value] + Kids(P)[i + 1..])
        && Get(r.st, o.id) == o && IsTop(r.st.nodes, o.id)
        && forall y :: Has(st, y) && Apart(st, y, p) && (src.Local? ==> Apart(st, y, src.id.value)) ==> Has(r.st, y) && Get(r.st, y) == Get(st, y)
  {
    var P := Get(st, p);
    var o := Kids(P)[i];
    Placing.KidInState(st, p, i);
    ExamineSpec(st, src);
    match src
    case Local(None) =>
    case Local(Some(x)) => ExchangeLocal(st, p, i, x, debug);
    case Foreign(None) =>
    case Foreign(Some(t)) =>
      ExchangeForeign(st, p, i, t, debug);
      if Clonable(t) && !NullText(t) {
        RenumberFresh(Canonical(t), st.next);
        FindIffIn(st.nodes, p);
        assert p < st.next;
      }
  }

  const REPLACE_AT: string := Debug(".replaceChild(int, IXmlElement)")
  const REPLACE_NAMED: string := Debug(".replaceChild(String, IXmlElement)")

  /**
   * replaceChild(index, newChild): the index-th element child gives way to newChild's node (a
   * copy of it when it belongs to another document). The exceptions of getElementChildByIndex
   * are passed on.
   */
  function ReplaceAt(st: State, root: Option<NodeId>, index: int, src: Source): Effect<NodeId>
    requires Valid(st) && RootIn(st, root) && SourceIn(st, src)
  {
    match ElementAt(RootNode(st, root), index)
    case Fail(e) => Effect(st, Fail(e))
    case Ok(c) =>
      ElementInState(st, root.value, index);
      Exchange(st, root, c.id, src, REPLACE_AT)
  }

  /**
   * replaceChild(index, newChild) keeps the document valid and all its nodes. It fails, changing
   * no node, when there is no index-th element child (with getElementChildByIndex's exception)
   * or nothing to put in.
   */
  lemma ReplaceAtSpec(st: State, root: Option<NodeId>, index: int, src: Source)
    requires Valid(st) && RootIn(st, root) && SourceIn(st, src)
    ensures var r := ReplaceAt(st, root, index, src); Valid(r.st) && forall y :: Has(st, y) ==> Has(r.st, y)
    ensures var r := ReplaceAt(st, root, index, src); r.out.Fail? ==> forall y :: Has(st, y) ==> Get(r.st, y) == Get(st, y)
    ensures ElementAt(RootNode(st, root), index).Fail? ==>
      ReplaceAt(st, root, index, src) == Effect(st, Fail(ElementAt(RootNode(st, root), index).error))
    ensures Incoming(st, src).None? ==> ReplaceAt(st, root, index, src).out.Fail?
  {
    if ElementAt(RootNode(st, root), index).Ok? {
      var x := root.value;
      var cs := Kids(Get(st, x));
      var j := ElementPos(cs, index);
      ElementInState(st, x, index);
      ExchangeKeeps(st, root, cs[j].id, src, REPLACE_AT);
      ExchangeAt(st, x, j, src, REPLACE_AT);
    }
  }

  /** replaceChild(index, newChild) of a position in range exchanges the child at ElementPos. */
  lemma ReplaceAtExchanges(st: State, x: NodeId, index: nat, src: Source)
    requires Valid(st) && Has(st, x) && SourceIn(st, src) && index < |ElementsOf(st, x)|
    ensures var cs := Kids(Get(st, x)); var j := ElementPos(cs, index);
      Has(st, cs[j].id) && ReplaceAt(st, Some(x), index, src) == Exchange(st, Some(x), cs[j].id, src, REPLACE_AT)
  {
    ElementAtPos(st, x, index);
    ElementInState(st, x, index);
  }

  /**
   * With a node from outside the current node, replaceChild(index, newChild) succeeds exactly
   * when there is an index-th element child, the current node takes the node, and it is not the
   * current node or above it.
   */
  lemma ReplaceAtAccepts(st: State, x: NodeId, index: int, src: Source)
    requires Valid(st) && Has(st, x) && SourceIn(st, src) && Incoming(st, src).Some? && Outside(st, x, src)
    ensures var N := Incoming(st, src).value;
      ReplaceAt(st, Some(x), index, src).out.Ok? <==>
        0 <= index < |ElementsOf(st, x)| && KindAccepts(Get(st, x), N) && x !in Ids(N)
  {
    if 0 <= index < |ElementsOf(st, x)| {
      var cs := Kids(Get(st, x));
      var j := ElementPos(cs, index);
      ReplaceAtExchanges(st, x, index, src);
      ExchangeAt(st, x, j, src, REPLACE_AT);
    }
  }

  /** A successful exchange of an element child for a node from outside puts that node's entry in its place among the element children. */
  lemma ExchangeElements(st: State, x: NodeId, j: nat, src: Source)
    requires Valid(st) && Has(st, x) && SourceIn(st, src) && Outside(st, x, src)
    requires j < |Kids(Get(st, x))| && Kids(Get(st, x))[j].Element? && Has(st, Kids(Get(st, x))[j].id)
    requires Exchange(st, Some(x), Kids(Get(st, x))[j].id, src, REPLACE_AT).out.Ok?
    ensures var cs := Kids(Get(st, x)); var r := Exchange(st, Some(x), cs[j].id, src, REPLACE_AT);
      var E := ElementsOf(st, x); var k := |ElementKids(cs[..j])|;
      Incoming(st, src).Some? && Has(r.st, x) && k < |E|
      && ElementsOf(r.st, x) == E[..k] + ElementKids([Incoming(st, src).value]) + E[k + 1..]
  {
    var cs := Kids(Get(st, x));
    ExchangeAt(st, x, j, src, REPLACE_AT);
    var n := Get(Exchange(st, Some(x), cs[j].id, src, REPLACE_AT).st, x);
    assert Kids(n) == cs[..j] + [Incoming(st, src).value] + cs[j + 1..];
    ElementKidsAround(cs, j, Incoming(st, src).value);
  }

  /**
   * A successful replaceChild(index, newChild) with a node from outside the current node puts
   * that node in the child's place among the element children; the child keeps its subtree,
   * attached nowhere, and is the one given back.
   */
  lemma ReplaceAtPlaces(st: State, x: NodeId, index: nat, src: Source)
    requires Valid(st) && Has(st, x) && SourceIn(st, src) && Outside(st, x, src)
    requires index < |ElementsOf(st, x)| && ReplaceAt(st, Some(x), index, src).out.Ok?
    ensures var r := ReplaceAt(st, Some(x), index, src); var E := ElementsOf(st, x);
      Incoming(st, src).Some? && r.out.value == E[index].id
      && Has(r.st, x) && Has(r.st, E[index].id) && Get(r.st, E[index].id) == E[index] && IsTop(r.st.nodes, E[index].id)
      && ElementsOf(r.st, x) == E[..index] + ElementKids([Incoming(st, src).value]) + E[index + 1..]
  {
    var cs := Kids(Get(st, x));
    var j := ElementPos(cs, index);
    ReplaceAtExchanges(st, x, index, src);
    ExchangeAt(st, x, j, src, REPLACE_AT);
    ExchangeElements(st, x, j, src);
  }

  /**
   * replaceChild(path, newChild): the node the path lookup finds gives way to newChild's node.
   * Its parent is looked up before newChild is examined, and a missing parent shows only after
   * (a NullPointerException). Nothing found is CHILD_NOT_FOUND, passed on; a lookup failure is
   * GENERAL_ERROR.
   */
  function ReplaceNamed(st: State, root: Option<NodeId>, path: string, src: Source): Effect<NodeId>
    requires Valid(st) && RootIn(st, root) && SourceIn(st, src)
  {
    match ChildByName(st, root, path)
    case Fail(e) => Effect(st, Fail(GeneralError(REPLACE_NAMED, e)))
    case Ok(None) => Effect(st, Fail(Raise(X.CHILD_NOT_FOUND, REPLACE_NAMED)))
    case Ok(Some(y)) =>
      ChildByNameSpec(st, root, path);
      ParentOfSpec(st, y);
      Exchange(st, ParentOf(st, y), y, src, REPLACE_NAMED)
  }

  /** A node the lookup finds is exchanged in its parent, looked up first. */
  lemma ReplaceNamedExchanges(st: State, root: Option<NodeId>, path: string, src: Source)
    requires Valid(st) && RootIn(st, root) && SourceIn(st, src)
    requires ChildByName(st, root, path).Ok? && ChildByName(st, root, path).value.Some?
    ensures var y := ChildByName(st, root, path).value.value;
      Has(st, y) && (ParentOf(st, y).Some? ==> Has(st, ParentOf(st, y).value))
      && ReplaceNamed(st, root, path, src) == Exchange(st, ParentOf(st, y), y, src, REPLACE_NAMED)
  {
    ChildByNameSpec(st, root, path);
    ParentOfSpec(st, ChildByName(st, root, path).value.value);
  }

  /**
   * replaceChild(path, newChild) keeps the document valid and all its nodes, and a failed one
   * changes none of them. Nothing found is CHILD_NOT_FOUND, a path from a null node a wrapped
   * NullPointerException, and with no parent or nothing to put in it fails.
   */
  lemma ReplaceNamedSpec(st: State, root: Option<NodeId>, path: string, src: Source)
    requires Valid(st) && RootIn(st, root) && SourceIn(st, src)
    ensures var r := ReplaceNamed(st, root, path, src); Valid(r.st) && forall y :: Has(st, y) ==> Has(r.st, y)
    ensures var r := ReplaceNamed(st, root, path, src); r.out.Fail? ==> forall y :: Has(st, y) ==> Get(r.st, y) == Get(st, y)
    ensures root.None? && Split(path) != [] ==>
      ReplaceNamed(st, root, path, src) == Effect(st, Fail(GeneralError(REPLACE_NAMED, NULL_POINTER)))
    ensures (root.None? && Split(path) == []) || (root.Some? && Resolve(Get(st, root.value), Split(path)).None?) ==>
      ReplaceNamed(st, root, path, src) == Effect(st, Fail(Raise(X.CHILD_NOT_FOUND, REPLACE_NAMED)))
    ensures root.Some? && Resolve(Get(st, root.value), Split(path)).Some? && IsTop(st.nodes, Resolve(Get(st, root.value), Split(path)).value.id) ==>
      ReplaceNamed(st, root, path, src).out.Fail?
    ensures Incoming(st, src).None? ==> ReplaceNamed(st, root, path, src).out.Fail?
  {
    ChildByNameSpec(st, root, path);
    if ChildByName(st, root, path).Ok? && ChildByName(st, root, path).value.Some? {
      var y := ChildByName(st, root, path).value.value;
      ReplaceNamedExchanges(st, root, path, src);
      ParentOfSpec(st, y);
      ExchangeKeeps(st, ParentOf(st, y), y, src, REPLACE_NAMED);
      if ParentOf(st, y).Some? {
        var p := ParentOf(st, y).value;
        var i :| 0 <= i < |KidIds(Get(st, p))| && KidIds(Get(st, p))[i] == y;
        ExchangeAt(st, p, i, src, REPLACE_NAMED);
      }
    }
  }

  /**
   * A successful replaceChild(path, newChild) gives back the node resolution finds, which had a
   * parent; with a node from outside that parent, the node found keeps its subtree and is
   * attached nowhere.
   */
  lemma ReplaceNamedFound(st: State, root: Option<NodeId>, path: string, src: Source)
    requires Valid(st) && RootIn(st, root) && SourceIn(st, src)
    requires ReplaceNamed(st, root, path, src).out.Ok?
    ensures var r := ReplaceNamed(st, root, path, src); var y := r.out.value;
      root.Some? && Has(st, y) && Resolve(Get(st, root.value), Split(path)) == Some(Get(st, y)) && !IsTop(st.nodes, y)
      && Has(r.st, y) && ParentOf(st, y).Some? && Has(st, ParentOf(st, y).value)
      && (Outside(st, ParentOf(st, y).value, src) ==> Get(r.st, y) == Get(st, y) && IsTop(r.st.nodes, y))
  {
    ChildByNameSpec(st, root, path);
    var y := ChildByName(st, root, path).value.value;
    ReplaceNamedExchanges(st, root, path, src);
    ParentOfSpec(st, y);
    ExchangeKeeps(st, ParentOf(st, y), y, src, REPLACE_NAMED);
    var p := ParentOf(st, y).value;
    var i :| 0 <= i < |KidIds(Get(st, p))| && KidIds(Get(st, p))[i] == y;
    assert Kids(Get(st, p))[i].id == y;
    Placing.KidInState(st, p, i);
    ExchangeAt(st, p, i, src, REPLACE_NAMED);
  }

  /**
   * With every lookup step succeeding and a node from outside the parent, the node put in stands
   * exactly where the node found stood in its parent's child list.
   */
  lemma ReplaceNamedPlaces(st: State, root: Option<NodeId>, path: string, src: Source)
    requires Valid(st) && RootIn(st, root) && SourceIn(st, src)
    requires ReplaceNamed(st, root, path, src).out.Ok?
    ensures Has(st, ReplaceNamed(st, root, path, src).out.value)
    ensures var y := ReplaceNamed(st, root, path, src).out.value; ParentOf(st, y).Some? && Has(st, ParentOf(st, y).value)
    ensures var r := ReplaceNamed(st, root, path, src); var y := r.out.value; var p := ParentOf(st, y).value;
      Outside(st, p, src) ==>
        var P := Get(st, p);
        Incoming(st, src).Some? && Has(r.st, p)
        && forall i :: 0 <= i < |Kids(P)| && Kids(P)[i].id == y ==>
          Get(r.st, p) == WithKids(P, Kids(P)[..i] + [Incoming(st, src).value] + Kids(P)[i + 1..])
  {
    ReplaceNamedFound(st, root, path, src);
    ChildByNameSpec(st, root, path);
    var y := ChildByName(st, root, path).value.value;
    ReplaceNamedExchanges(st, root, path, src);
    ParentOfSpec(st, y);
    var p := ParentOf(st, y).value;
    var P := Get(st, p);
    var i0 :| 0 <= i0 < |KidIds(P)| && KidIds(P)[i0] == y;
    ExchangeAt(st, p, i0, src, REPLACE_NAMED);
    UniqueHere(st, p);
    Placing.KidsApart(P, i0);
    forall i | 0 <= i < |Kids(P)| && Kids(P)[i].id == y
      ensures i == i0
    {
      IdsHead(Kids(P)[i]);
    }
  }

  // ---------------------------------------------------------------- getChildren, getChildrenByName

  const CHILDREN: string := Debug(".getChildren()")
  const CHILDREN_BY_NAME: string := Debug(".getChildrenByName")

  /** create(node) of each element in turn: all the copies, or CLONE_FAILED at the first element that cannot be copied. */
  function CopyEach(es: seq<Node>): Outcome<seq<State>>
  {
    if forall i :: 0 <= i < |es| ==> Clonable(es[i]) then Ok(seq(|es|, i requires 0 <= i < |es| => CopyDocument(es[i])))
    else Fail(CLONE_FAILED_ERR)
  }

  /** The loop of getChildren and getChildrenByName over a list of elements. */
  method CopyLoop(es: seq<Node>) returns (r: Outcome<seq<State>>)
    requires forall i :: 0 <= i < |es| ==> es[i].Element?
    ensures r == CopyEach(es)
  {
    var docs: seq<State> := [];
    var i := 0;
    while i < |es|
      invariant 0 <= i <= |es| && |docs| == i
      invariant forall k :: 0 <= k < i ==> Clonable(es[k]) && docs[k] == CopyDocument(es[k])
    {
      CopyElement(es[i]);
      match CopyOut(Some(es[i]))
      case Fail(e) =>
        return Fail(e);
      case Ok(d) =>
        docs := docs + [d];
      i := i + 1;
    }
    assert docs == seq(|es|, k requires 0 <= k < |es| => CopyDocument(es[k]));
    return Ok(docs);
  }

  /** The elements of a list with the given name, in their order. */
  function Named(es: seq<Node>, name: string): (r: seq<Node>)
    ensures |r| <= |es|
    ensures forall i :: 0 <= i < |r| ==> r[i] in es && NodeName(r[i]) == name
    ensures forall i :: 0 <= i < |es| && NodeName(es[i]) == name ==> es[i] in r
  {
    if es == [] then []
    else
      var rest := Named(es[1..], name);
      assert forall i :: 1 <= i < |es| ==> es[i] == es[1..][i - 1];
      if NodeName(es[0]) == name then [es[0]] + rest else rest
  }

  /**
   * getChildren(): create(node) of every element child, in order. A null current node is a
   * NullPointerException, wrapped; CLONE_FAILED is passed on.
   */
  function AllChildren(st: State, root: Option<NodeId>): Outcome<seq<State>>
    requires RootIn(st, root)
  {
    if root.None? then Fail(GeneralError(CHILDREN, NULL_POINTER))
    else match CopyEach(ElementsOf(st, root.value))
      case Fail(e) => Fail(Rethrow(CHILDREN, e))
      case Ok(docs) => Ok(docs)
  }

  /** getChildrenByName(name): create(node) of every element child with that name, in order. */
  function NamedChildren(st: State, root: Option<NodeId>, name: string): Outcome<seq<State>>
    requires RootIn(st, root)
  {
    if root.None? then Fail(GeneralError(CHILDREN_BY_NAME, NULL_POINTER))
    else match CopyEach(Named(ElementsOf(st, root.value), name))
      case Fail(e) => Fail(Rethrow(CHILDREN_BY_NAME, e))
      case Ok(docs) => Ok(docs)
  }

  /**
   * getChildren() answers, position by position, what getChild(index) answers: as many copies as
   * getChildrenCount counts, the i-th the copy getChild(i) gives. It fails exactly when some
   * element child cannot be copied (CLONE_FAILED), or for a null node.
   */
  lemma AllChildrenAsGetChild(st: State, root: Option<NodeId>)
    requires Valid(st) && RootIn(st, root)
    ensures AllChildren(st, root).Ok? <==>
      root.Some? && forall i :: 0 <= i < |ElementsOf(st, root.value)| ==> GetChildAt(st, root, i).Ok?
    ensures root.Some? && AllChildren(st, root).Fail? ==> AllChildren(st, root).error == CLONE_FAILED_ERR
    ensures AllChildren(st, root).Ok? ==>
      var docs := AllChildren(st, root).value;
      ChildrenCount(st, root) == Ok(|docs|)
      && forall i :: 0 <= i < |docs| ==> GetChildAt(st, root, i) == Ok(docs[i])
  {
    CloneFailedChecked();
    if root.Some? {
      var E := ElementsOf(st, root.value);
      forall i | 0 <= i < |E|
        ensures GetChildAt(st, root, i).Ok? <==> Clonable(E[i])
        ensures Clonable(E[i]) ==> GetChildAt(st, root, i) == Ok(CopyDocument(E[i]))
      {
        GetChildAtSpec(st, root, i);
      }
    }
  }

  /** getChildrenByName(name) answers copies of exactly the element children with that name. */
  lemma NamedChildrenSpec(st: State, root: Option<NodeId>, name: string)
    requires Valid(st) && RootIn(st, root)
    ensures NamedChildren(st, root, name).Ok? <==>
      root.Some? && forall i :: 0 <= i < |ElementsOf(st, root.value)| && NodeName(ElementsOf(st, root.value)[i]) == name ==>
        Clonable(ElementsOf(st, root.value)[i])
    ensures root.Some? && NamedChildren(st, root, name).Fail? ==> NamedChildren(st, root, name).error == CLONE_FAILED_ERR
    ensures NamedChildren(st, root, name).Ok? ==>
      var docs := NamedChildren(st, root, name).value;
      var named := Named(ElementsOf(st, root.value), name);
      |docs| == |named|
      && (forall i :: 0 <= i < |docs| ==> named[i] in ElementsOf(st, root.value) && NodeName(named[i]) == name && CopiedElement(docs[i], named[i]))
      && forall e :: e in ElementsOf(st, root.value) && NodeName(e) == name ==> e in named
  {
    CloneFailedChecked();
    if root.Some? {
      var E := ElementsOf(st, root.value);
      var named := Named(E, name);
      forall i | 0 <= i < |named|
        ensures named[i].Element? && Clonable(named[i]) ==> CopiedElement(CopyDocument(named[i]), named[i])
      {
        assert named[i].Element?;
        CopyElement(named[i]);
      }
    }
  }
}
