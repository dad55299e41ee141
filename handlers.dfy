/**
 * The facade's creating and attaching entry points over a handle (a document and its current
 * node): createNewChild and createChild, createChildren (through createChildByName and
 * prgCreateChildByName), addChild, appendChildByName and addToChild, clone(deep), getValue and
 * getRootElement, each with the exception wrapping of its own try/catch.
 */
module Handlers {
  import opened Wrappers
  import opened Throwables
  import opened DomTree
  import opened Dom
  import opened Outcomes
  import opened Transplant
  import opened Transfer
  import opened Lookup
  import opened Values
  import opened Paths
  import Creation
  import Placing
  import Indexed
  import X = XmlDocumentCheckedException

  const CREATE_NEW_CHILD: string := Debug(".createNewChild(String, String)")
  const CREATE_CHILD: string := Debug(".createChild(String, String)")
  const CREATE_CHILDREN: string := Debug(".createChildren(String)")
  const CREATE_CHILD_BY_NAME: string := Debug(".createChildByName(String)")
  const PRG_CREATE: string := Debug(".prgCreateChildByName(String)")
  const ADD_CHILD: string := Debug(".addChild(IXmlElement)")
  /** appendChildByName names addToChild in its debug string too. */
  const ADD_TO_CHILD: string := Debug(".addToChild(IXmlElement, String)")
  const CLONE: string := Debug(".clone(boolean)")
  const GET_VALUE: string := Debug(".getValue()")

  // ---------------------------------------------------------------- tree surgery below an ancestor

  /** Appending c, from outside y, to a node p inside y: y is found with p's new self put in its place. */
  lemma MoveAncestor(st: State, p: NodeId, c: NodeId, y: NodeId)
    requires Valid(st) && Has(st, p) && Has(st, c) && Has(st, y)
    requires p !in Ids(Get(st, c)) && HasChildList(Get(st, p)) && !Get(st, c).DocRoot?
    requires p in Ids(Get(st, y)) && Apart(st, y, c)
    ensures Has(Move(st, p, c), y) && Has(Move(st, p, c), p)
    ensures Get(Move(st, p, c), y) == ReplaceIn(Get(st, y), p, Get(Move(st, p, c), p))
  {
    MoveSpec(st, p, c);
    if c in Ids(Get(st, p)) {
      GetBelow(st, y, p);
      FoundInOccurs(Get(st, y), p);
      OccursInIdsSub(Get(st, y), Get(st, p), c);
    } else {
      MovePrep(st, p, c);
      var s1 := Prune(st.nodes, c);
      FindIffIn(st.nodes, y);
      FindIffIn(st.nodes, c);
      PruneFindOther(st.nodes, y, c);
      ReplaceFindAncestor(s1, y, p, WithKids(Get(st, p), Kids(Get(st, p)) + [Get(st, c)]));
    }
  }

  // ---------------------------------------------------------------- createNewChild, createChild

  /** StringUtils.isEmpty: null or "". */
  predicate IsEmpty(value: Option<string>)
  {
    value.None? || value.value == ""
  }

  /** The element createNewChild builds: the name, no attribute, and a text child holding a non-empty value. */
  function NewChild(id: NodeId, name: string, value: Option<string>): Node
  {
    Element(id, name, [], if IsEmpty(value) then [] else [Text(id + 1, value)])
  }

  /**
   * createNewChild(name, value): a new element appended to the current node, then a new text
   * child holding a non-empty value appended to it; the answer is a handle on the element. Every
   * exception, the NullPointerException of a null current node included, is wrapped as GENERAL_ERROR.
   */
  function CreateNewChild(st: State, root: Option<NodeId>, name: string, value: Option<string>): Effect<Option<NodeId>>
    requires Valid(st) && RootIn(st, root)
  {
    var e := Element(st.next, name, [], []);
    if root.None? then Effect(CreateElement(st, name), Fail(GeneralError(CREATE_NEW_CHILD, NULL_POINTER)))
    else
      Placing.AppendCreated(st, root.value, e);
      var r1 := AppendNew(st, root.value, e);
      if r1.out.Fail? then Effect(r1.st, Fail(GeneralError(CREATE_NEW_CHILD, r1.out.error)))
      else if IsEmpty(value) then Effect(r1.st, Ok(Some(e.id)))
      else
        var r2 := AppendNew(r1.st, e.id, Text(r1.st.next, value));
        if r2.out.Fail? then Effect(r2.st, Fail(GeneralError(CREATE_NEW_CHILD, r2.out.error)))
        else Effect(r2.st, Ok(Some(e.id)))
  }

  /** createChild(name, value): createNewChild, its exceptions re-wrapped as (debugString, e). */
  function CreateChild(st: State, root: Option<NodeId>, name: string, value: Option<string>): Effect<Option<NodeId>>
    requires Valid(st) && RootIn(st, root)
  {
    var r := CreateNewChild(st, root, name, value);
    match r.out
    case Fail(e) => Effect(r.st, Fail(RewrapChecked(CREATE_CHILD, e)))
    case Ok(h) => r
  }

  /** A node given a new last child holds that child's identifier. */
  lemma NewKidIds(n: Node, c: Node)
    requires HasChildList(n)
    ensures c.id in Ids(WithKids(n, Kids(n) + [c]))
  {
    IdsWithKids(n, Kids(n) + [c]);
    IdsOfConcat(Kids(n), [c]);
    IdsOfSingle(c);
    IdsHead(c);
  }

  /** A node of the document before a fresh single node was made is apart from that node. */
  lemma FreshApart(st: State, s1: State, y: NodeId, z: NodeId)
    requires Valid(st) && Has(st, y) && z >= st.next
    requires Has(s1, y) && Has(s1, z) && Get(s1, y) == Get(st, y) && Ids(Get(s1, z)) == [z]
    ensures Apart(s1, y, z)
  {
    Creation.FreshAbsent(st, Get(st, y), z);
  }

  /** The new element goes where appendChild puts it: the current node's last child. */
  lemma CreateFirstStep(st: State, x: NodeId, name: string)
    requires Valid(st) && Has(st, x) && KidAllowed(Get(st, x), Element(st.next, name, [], []))
    ensures var r1 := AppendNew(st, x, Element(st.next, name, [], []));
      r1.out.Ok? && Valid(r1.st) && r1.st.next == st.next + 1 && Has(r1.st, x) && Has(r1.st, st.next)
      && Get(r1.st, st.next) == Element(st.next, name, [], [])
      && Get(r1.st, x) == WithKids(Get(st, x), Kids(Get(st, x)) + [Element(st.next, name, [], [])])
      && (forall y :: Has(st, y) ==> Has(r1.st, y))
      && forall y :: Has(st, y) && Apart(st, y, x) ==> Get(r1.st, y) == Get(st, y)
  {
    var e := Element(st.next, name, [], []);
    Placing.AppendCreated(st, x, e);
    MoveSpec(Adopt(st, e, st.next + 1), x, e.id);
  }

  /** The text child goes into the new element, and the current node sees the element with it. */
  lemma CreateSecondStep(st: State, x: NodeId, name: string, value: Option<string>)
    requires Valid(st) && Has(st, x) && KidAllowed(Get(st, x), Element(st.next, name, [], [])) && !IsEmpty(value)
    ensures var r1 := AppendNew(st, x, Element(st.next, name, [], []));
      r1.out.Ok? && Valid(r1.st) && Has(r1.st, st.next)
    ensures var r1 := AppendNew(st, x, Element(st.next, name, [], []));
      var r2 := AppendNew(r1.st, st.next, Text(r1.st.next, value)); var X := Get(st, x);
      r2.out.Ok? && Valid(r2.st) && Has(r2.st, x) && Has(r2.st, st.next)
      && Get(r2.st, st.next) == NewChild(st.next, name, value)
      && Get(r2.st, x) == WithKids(X, Kids(X) + [NewChild(st.next, name, value)])
      && (forall y :: Has(st, y) ==> Has(r2.st, y))
      && forall y :: Has(st, y) && Apart(st, y, x) ==> Get(r2.st, y) == Get(st, y)
  {
    var e := Element(st.next, name, [], []);
    var X := Get(st, x);
    CreateFirstStep(st, x, name);
    var s1 := AppendNew(st, x, e).st;
    var t := Text(s1.next, value);
    AppendNewSpec(s1, st.next, t);
    forall y | Has(st, y) && Apart(st, y, x)
      ensures Get(AppendNew(s1, st.next, t).st, y) == Get(st, y)
    {
      FreshApart(st, s1, y, st.next);
    }
    CreateTextInside(st, s1, x, e, t);
  }

  /** A new text node appended to an empty element e inside x: x is found with e's new self in place of e. */
  lemma TextIntoNew(s1: State, x: NodeId, e: Node, t: Node)
    requires Valid(s1) && Has(s1, x) && Has(s1, e.id) && e.Element? && Kids(e) == [] && Get(s1, e.id) == e
    requires e.id in Ids(Get(s1, x)) && t.Text? && t.id == s1.next
    ensures var r2 := AppendNew(s1, e.id, t);
      r2.out.Ok? && Has(r2.st, x) && Get(r2.st, x) == ReplaceIn(Get(s1, x), e.id, WithKids(e, [t]))
  {
    Placing.AppendCreated(s1, e.id, t);
    var a := Adopt(s1, t, s1.next + 1);
    CreateSpec(s1, t);
    FreshApart(s1, a, x, t.id);
    IdsHead(t);
    MoveSpec(a, e.id, t.id);
    assert [] + [t] == [t];
    MoveAncestor(a, e.id, t.id, x);
  }

  /** The current node after the text child goes into the new element inside it. */
  lemma CreateTextInside(st: State, s1: State, x: NodeId, e: Node, t: Node)
    requires Valid(s1) && Has(s1, x) && Has(s1, e.id) && e.Element? && Kids(e) == [] && Get(s1, e.id) == e
    requires Has(st, x) && HasChildList(Get(st, x)) && Get(s1, x) == WithKids(Get(st, x), Kids(Get(st, x)) + [e])
    requires t.Text? && t.id == s1.next
    ensures var r2 := AppendNew(s1, e.id, t); var X := Get(st, x);
      r2.out.Ok? && Has(r2.st, x) && Get(r2.st, x) == WithKids(X, Kids(X) + [WithKids(e, [t])])
  {
    var X := Get(st, x);
    var X1 := Get(s1, x);
    NewKidIds(X, e);
    TextIntoNew(s1, x, e, t);
    FindIffIn(s1.nodes, x);
    FoundOccurs(s1.nodes, x);
    Creation.UniqueInside(s1.nodes, X1);
    var n := |Kids(X)|;
    Placing.ReplaceKid(X1, n, WithKids(e, [t]));
    assert (Kids(X) + [e])[..n] == Kids(X) && (Kids(X) + [e])[n + 1..] == [];
  }

  /**
   * createChild(name, value) fails exactly when the current node is null or takes no element
   * child, always with GENERAL_ERROR. Otherwise the answer is a handle on a new last child of the
   * current node, named as asked, whose text value reads back as the value (null as ""); nodes
   * apart from the current node are unchanged.
   */
  lemma CreateChildSpec(st: State, root: Option<NodeId>, name: string, value: Option<string>)
    requires Valid(st) && RootIn(st, root)
    ensures var r := CreateChild(st, root, name, value); Valid(r.st) && forall y :: Has(st, y) ==> Has(r.st, y)
    ensures var r := CreateChild(st, root, name, value);
      r.out.Fail? <==> root.None? || !KidAllowed(Get(st, root.value), Element(st.next, name, [], []))
    ensures var r := CreateChild(st, root, name, value);
      r.out.Fail? ==> IsXmlChecked(r.out.error) && r.out.error.code == X.GENERAL_ERROR
    ensures var r := CreateChild(st, root, name, value);
      r.out.Ok? ==>
        var x := root.value; var X := Get(st, x); var c := NewChild(st.next, name, value);
        r.out.value == Some(st.next) && Has(r.st, x) && Has(r.st, st.next) && Get(r.st, st.next) == c
        && NodeName(c) == name && TextValue(c) == Some(value.GetOr(""))
        && Get(r.st, x) == WithKids(X, Kids(X) + [c])
        && forall y :: Has(st, y) && Apart(st, y, x) ==> Get(r.st, y) == Get(st, y)
  {
    if root.Some? {
      var x := root.value;
      var e := Element(st.next, name, [], []);
      AppendNewSpec(st, x, e);
      CreateSpec(st, e);
      if KidAllowed(Get(st, x), e) {
        CreateFirstStep(st, x, name);
        if !IsEmpty(value) {
          CreateSecondStep(st, x, name, value);
        }
      } else {
        CreateChildRefused(st, x, name, value);
      }
    } else {
      CreateSpec(st, Element(st.next, name, [], []));
      RewrapIsGeneralError(CREATE_CHILD, GeneralError(CREATE_NEW_CHILD, NULL_POINTER));
    }
  }

  /** A current node that takes no element child: appendChild's exception, wrapped twice. */
  lemma CreateChildRefused(st: State, x: NodeId, name: string, value: Option<string>)
    requires Valid(st) && Has(st, x) && !KidAllowed(Get(st, x), Element(st.next, name, [], []))
    ensures CreateChild(st, Some(x), name, value).out
      == Fail(Rewrap(CREATE_CHILD, GeneralError(CREATE_NEW_CHILD, HIERARCHY_REQUEST_ERR)))
    ensures Rewrap(CREATE_CHILD, GeneralError(CREATE_NEW_CHILD, HIERARCHY_REQUEST_ERR)).code == X.GENERAL_ERROR
  {
    AppendNewSpec(st, x, Element(st.next, name, [], []));
    RewrapIsGeneralError(CREATE_CHILD, GeneralError(CREATE_NEW_CHILD, HIERARCHY_REQUEST_ERR));
  }

  // ---------------------------------------------------------------- createChildren

  /**
   * prgCreateChildByName(path): the node the path leads to, or else the empty-element
   * auto-creation; any exception is wrapped as GENERAL_ERROR. From a null current node an empty
   * path answers null, and any other path fails in the lookup.
   */
  function PrgCreateChildByName(st: State, root: Option<NodeId>, path: string): Effect<Option<NodeId>>
    requires Valid(st) && RootIn(st, root)
  {
    if root.None? then
      match ChildByName(st, None, path)
      case Fail(e) => Effect(st, Fail(GeneralError(PRG_CREATE, e)))
      case Ok(_) => Effect(st, Ok(None))
    else
      var c := Creation.CreateByName(st, root.value, path);
      match c.result
      case Fail(e) => Effect(c.st, Fail(GeneralError(PRG_CREATE, e)))
      case Ok(h) => Effect(c.st, Ok(h))
  }

  /** createChildByName(path): a handle on the node prgCreateChildByName answers with. */
  function CreateChildByName(st: State, root: Option<NodeId>, path: string): Effect<Option<NodeId>>
    requires Valid(st) && RootIn(st, root)
  {
    var r := PrgCreateChildByName(st, root, path);
    match r.out
    case Fail(e) => Effect(r.st, Fail(Rethrow(CREATE_CHILD_BY_NAME, e)))
    case Ok(h) => r
  }

  /** createChildren(path): createChildByName, its exceptions re-wrapped as (debugString, e). */
  function CreateChildren(st: State, root: Option<NodeId>, path: string): Effect<Option<NodeId>>
    requires Valid(st) && RootIn(st, root)
  {
    var r := CreateChildByName(st, root, path);
    match r.out
    case Fail(e) => Effect(r.st, Fail(RewrapChecked(CREATE_CHILDREN, e)))
    case Ok(h) => r
  }

  /** The auto-creation keeps the document valid and every node in it, whether or not it succeeds. */
  lemma CreateByNameKeeps(st: State, x: NodeId, path: string)
    requires Valid(st) && Has(st, x)
    ensures var r := Creation.CreateByName(st, x, path).st;
      Valid(r) && Has(r, x) && forall y :: Has(st, y) ==> Has(r, y)
  {
    var c := Creation.CreateByName(st, x, path);
    if Resolve(Get(st, x), Split(path)).None? {
      if c.result.Ok? {
        CreateGrownKeeps(st, x, path);
      } else {
        CreateRefusedKeeps(st, x, path);
      }
    }
  }

  /** A successful auto-creation only adds identifiers. */
  lemma CreateGrownKeeps(st: State, x: NodeId, path: string)
    requires Valid(st) && Has(st, x) && Resolve(Get(st, x), Split(path)).None?
    requires Creation.CreateByName(st, x, path).result.Ok?
    ensures var r := Creation.CreateByName(st, x, path).st;
      Valid(r) && forall y :: Has(st, y) ==> Has(r, y)
  {
    var tags := Split(path);
    var w := Walk(Get(st, x), tags);
    var r := Creation.CreateByName(st, x, path).st;
    assert w.1 < |tags| && HasChildList(w.0) && Has(st, w.0.id) && Get(st, w.0.id) == w.0
      && r == Creation.Graft(st, w.0, Creation.Chain(tags[w.1..], st.next), |tags| - w.1) by {
      Creation.CreateShape(st, x, tags);
    }
    assert Valid(r) && forall y :: Has(st, y) ==> Has(r, y) by {
      Creation.GraftChainKeeps(st, w.0, tags, w.1);
    }
  }

  /** A refused auto-creation leaves the one element it made attached nowhere. */
  lemma CreateRefusedKeeps(st: State, x: NodeId, path: string)
    requires Valid(st) && Has(st, x) && Resolve(Get(st, x), Split(path)).None?
    requires Creation.CreateByName(st, x, path).result.Fail?
    ensures var r := Creation.CreateByName(st, x, path).st;
      Valid(r) && forall y :: Has(st, y) ==> Has(r, y)
  {
    var tags := Split(path);
    var w := Walk(Get(st, x), tags);
    assert w.1 < |tags| by {
      if w.1 == |tags| {
        WalkComplete(Get(st, x), tags);
      }
    }
    CreateSpec(st, Element(st.next, tags[w.1], [], []));
  }

  /**
   * createChildren(path) from a current node is the auto-creation: the node the path leads to
   * with the document unchanged when there is one, the deepest new element otherwise. It fails
   * only when an element cannot be appended, or from a null current node with a non-empty path,
   * and then with GENERAL_ERROR. The document stays valid and keeps every node it had.
   */
  lemma CreateChildrenSpec(st: State, root: Option<NodeId>, path: string)
    requires Valid(st) && RootIn(st, root)
    ensures var r := CreateChildren(st, root, path); Valid(r.st) && forall y :: Has(st, y) ==> Has(r.st, y)
    ensures root.None? ==>
      CreateChildren(st, root, path).st == st
      && (CreateChildren(st, root, path).out.Ok? <==> Split(path) == [])
      && (Split(path) == [] ==> CreateChildren(st, root, path).out == Ok(None))
    ensures root.Some? ==>
      var r := CreateChildren(st, root, path); var c := Creation.CreateByName(st, root.value, path);
      r.st == c.st && (r.out.Ok? <==> c.result.Ok?) && (r.out.Ok? ==> r.out == c.result)
    ensures root.Some? && Resolve(Get(st, root.value), Split(path)).Some? ==>
      CreateChildren(st, root, path) == Effect(st, Ok(Some(Resolve(Get(st, root.value), Split(path)).value.id)))
    ensures var r := CreateChildren(st, root, path);
      r.out.Fail? ==> IsXmlChecked(r.out.error) && r.out.error.code == X.GENERAL_ERROR
  {
    if root.Some? {
      CreateByNameKeeps(st, root.value, path);
      var c := Creation.CreateByName(st, root.value, path);
      if c.result.Fail? {
        RewrapIsGeneralError(CREATE_CHILDREN, GeneralError(PRG_CREATE, c.result.error));
      }
    } else {
      RewrapIsGeneralError(CREATE_CHILDREN, GeneralError(PRG_CREATE, NULL_POINTER));
    }
  }

  /** A second identical createChildren finds what the first answered and creates nothing. */
  lemma CreateChildrenIdempotent(st: State, root: Option<NodeId>, path: string)
    requires Valid(st) && RootIn(st, root) && CreateChildren(st, root, path).out.Ok?
    ensures var r := CreateChildren(st, root, path);
      Valid(r.st) && RootIn(r.st, root) && CreateChildren(r.st, root, path) == r
  {
    CreateChildrenSpec(st, root, path);
    if root.Some? {
      Creation.CreateIdempotent(st, root.value, Split(path));
      CreateChildrenSpec(CreateChildren(st, root, path).st, root, path);
    }
  }

  // ---------------------------------------------------------------- addChild, appendChildByName, addToChild

  /** A foreign node that can be copied is attached exactly when the receiving node takes its copy. */
  lemma AttachForeign(st: State, p: NodeId, n: Node)
    requires Valid(st) && Has(st, p) && Clonable(n) && !NullText(n)
    ensures AttachTo(st, p, Foreign(Some(n))).out.Ok? <==> KidAllowed(Get(st, p), CopyOf(st, n))
    ensures AttachTo(st, p, Foreign(Some(n))).out.Fail? ==> AttachTo(st, p, Foreign(Some(n))).out.error == HIERARCHY_REQUEST_ERR
  {
    ExamineSpec(st, Foreign(Some(n)));
    RenumberFresh(Canonical(n), st.next);
    FindIffIn(st.nodes, p);
  }

  /**
   * addChild(child): the child's node, examined, appended to the current node. A null current
   * node raises NULL_ROOT_ELEMENT; only the facade's own exceptions are re-wrapped, as
   * (debugString, e), and the DOM's pass through as they are.
   */
  function AddChild(st: State, root: Option<NodeId>, child: Source): Effect<()>
    requires Valid(st) && RootIn(st, root) && SourceIn(st, child)
  {
    if root.None? then Effect(st, Fail(Rewrap(ADD_CHILD, Raise(X.NULL_ROOT_ELEMENT, ADD_CHILD))))
    else
      var r := AttachTo(st, root.value, child);
      match r.out
      case Fail(e) => Effect(r.st, Fail(RewrapChecked(ADD_CHILD, e)))
      case Ok(_) => r
  }

  /**
   * addChild: a null current node fails with GENERAL_ERROR caused by NULL_ROOT_ELEMENT and the
   * document untouched. A node of this document is moved (HIERARCHY_REQUEST_ERR, unwrapped, when
   * the current node cannot take it); a node of another document is copied, the copy appended,
   * with GENERAL_ERROR caused by CLONE_FAILED for a node that cannot be copied; a null node is a
   * NullPointerException.
   */
  lemma AddChildSpec(st: State, root: Option<NodeId>, child: Source)
    requires Valid(st) && RootIn(st, root) && SourceIn(st, child)
    ensures var r := AddChild(st, root, child); Valid(r.st) && forall y :: Has(st, y) ==> Has(r.st, y)
    ensures root.None? ==>
      var r := AddChild(st, root, child);
      r.st == st && r.out.Fail? && IsXmlChecked(r.out.error) && r.out.error.code == X.GENERAL_ERROR
      && r.out.error.rootCause == Some(Raise(X.NULL_ROOT_ELEMENT, ADD_CHILD))
    ensures root.Some? && (child == Local(None) || child == Foreign(None)) ==>
      AddChild(st, root, child).out == Fail(NULL_POINTER)
    ensures root.Some? && child.Local? && child.id.Some? ==>
      var x := root.value; var c := child.id.value; var r := AddChild(st, root, child);
      (r.out.Ok? <==> KidAllowed(Get(st, x), Get(st, c)) && x !in Ids(Get(st, c)))
      && (r.out.Fail? ==> r.out.error == HIERARCHY_REQUEST_ERR)
    ensures root.Some? && child.Local? && AddChild(st, root, child).out.Ok? ==>
      var x := root.value; var c := child.id.value; var r := AddChild(st, root, child).st;
      Get(r, c) == Get(st, c) && !IsTop(r.nodes, c) && HasChildList(Get(st, x))
      && (c !in Ids(Get(st, x)) ==> Get(r, x) == WithKids(Get(st, x), Kids(Get(st, x)) + [Get(st, c)]))
  {
    RewrapIsGeneralError(ADD_CHILD, Raise(X.NULL_ROOT_ELEMENT, ADD_CHILD));
    assert X.CODES[4] == X.NULL_ROOT_ELEMENT;
    if root.Some? {
      AttachSpec(st, root.value, child);
      ExamineSpec(st, child);
    }
  }

  /**
   * addChild of a node of another document: GENERAL_ERROR caused by CLONE_FAILED for a node that
   * cannot be copied; otherwise its copy is appended exactly when the current node takes it.
   */
  lemma AddChildForeign(st: State, x: NodeId, n: Node)
    requires Valid(st) && Has(st, x)
    ensures !Clonable(n) ==>
      var r := AddChild(st, Some(x), Foreign(Some(n)));
      r.out.Fail? && IsXmlChecked(r.out.error) && r.out.error.code == X.GENERAL_ERROR
      && r.out.error.rootCause == Some(CLONE_FAILED_ERR)
    ensures Clonable(n) && !NullText(n) ==>
      (AddChild(st, Some(x), Foreign(Some(n))).out.Ok? <==> KidAllowed(Get(st, x), CopyOf(st, n)))
    ensures Clonable(n) && NullText(n) ==> AddChild(st, Some(x), Foreign(Some(n))).out == Fail(NULL_POINTER)
    ensures AddChild(st, Some(x), Foreign(Some(n))).out.Ok? ==>
      var r := AddChild(st, Some(x), Foreign(Some(n))).st; var t := CopyOf(st, n);
      Has(r, x) && HasChildList(Get(st, x)) && Get(r, x) == WithKids(Get(st, x), Kids(Get(st, x)) + [t])
      && Erase(t) == Erase(Canonical(n))
  {
    var src := Foreign(Some(n));
    AttachSpec(st, x, src);
    ExamineSpec(st, src);
    if !Clonable(n) {
      Indexed.CloneFailedChecked();
      RewrapIsGeneralError(ADD_CHILD, CLONE_FAILED_ERR);
    } else if !NullText(n) {
      AttachForeign(st, x, n);
    }
  }

  /** Attaching fails only with a NullPointerException, HIERARCHY_REQUEST_ERR, or CLONE_FAILED for an uncopiable node. */
  lemma AttachErrors(st: State, p: NodeId, src: Source)
    requires Valid(st) && Has(st, p) && SourceIn(st, src)
    ensures AttachTo(st, p, src).out.Fail? ==>
      AttachTo(st, p, src).out.error in {NULL_POINTER, HIERARCHY_REQUEST_ERR, CLONE_FAILED_ERR}
  {
    ExamineSpec(st, src);
  }

  /**
   * appendChildByName(parent, child): the child's node, examined, appended to the node the path
   * leads to from the current node. NULL_ROOT_ELEMENT and PARENT_NOT_FOUND are thrown as they
   * are, as is every exception of the facade's own class; any other is re-wrapped as (debugString, e).
   */
  function AppendChildByName(st: State, root: Option<NodeId>, parent: string, child: Source): Effect<()>
    requires Valid(st) && RootIn(st, root) && SourceIn(st, child)
  {
    if root.None? then Effect(st, Fail(Raise(X.NULL_ROOT_ELEMENT, ADD_TO_CHILD)))
    else
      ChildByNameSpec(st, root, parent);
      match ChildByName(st, root, parent)
      case Fail(e) => Effect(st, Fail(RethrowWrapped(ADD_TO_CHILD, e)))
      case Ok(None) => Effect(st, Fail(Raise(X.PARENT_NOT_FOUND, ADD_TO_CHILD)))
      case Ok(Some(p)) =>
        var r := AttachTo(st, p, child);
        match r.out
        case Fail(e) => Effect(r.st, Fail(RethrowWrapped(ADD_TO_CHILD, e)))
        case Ok(_) => r
  }

  /**
   * appendChildByName: a null current node raises NULL_ROOT_ELEMENT and a path leading nowhere
   * PARENT_NOT_FOUND, the document untouched in both. Otherwise the node the path leads to
   * receives the child as addChild would, but CLONE_FAILED reaches the caller as it is and the
   * DOM's exceptions come wrapped as GENERAL_ERROR.
   */
  lemma AppendChildByNameSpec(st: State, root: Option<NodeId>, parent: string, child: Source)
    requires Valid(st) && RootIn(st, root) && SourceIn(st, child)
    ensures var r := AppendChildByName(st, root, parent, child); Valid(r.st) && forall y :: Has(st, y) ==> Has(r.st, y)
    ensures root.None? ==> AppendChildByName(st, root, parent, child) == Effect(st, Fail(Raise(X.NULL_ROOT_ELEMENT, ADD_TO_CHILD)))
    ensures Raise(X.NULL_ROOT_ELEMENT, ADD_TO_CHILD).code == X.NULL_ROOT_ELEMENT
    ensures root.Some? && Resolve(Get(st, root.value), Split(parent)).None? ==>
      AppendChildByName(st, root, parent, child) == Effect(st, Fail(Raise(X.PARENT_NOT_FOUND, ADD_TO_CHILD)))
      && Raise(X.PARENT_NOT_FOUND, ADD_TO_CHILD).code == X.PARENT_NOT_FOUND
    ensures root.Some? && Resolve(Get(st, root.value), Split(parent)).Some? ==>
      var p := Resolve(Get(st, root.value), Split(parent)).value.id;
      var r := AppendChildByName(st, root, parent, child);
      Has(st, p) && p in Ids(Get(st, root.value))
      && (var a := AttachTo(st, p, child);
          r.st == a.st && (r.out.Ok? <==> a.out.Ok?)
          && (a.out.Fail? && IsXmlChecked(a.out.error) ==> r.out == a.out)
          && (a.out.Fail? && !IsXmlChecked(a.out.error) ==>
                r.out.Fail? && r.out.error.code == X.GENERAL_ERROR && r.out.error.rootCause == Some(a.out.error)))
    ensures (root.Some? && child.Foreign? && child.tree.Some? && !Clonable(child.tree.value)
      && Resolve(Get(st, root.value), Split(parent)).Some?) ==>
      AppendChildByName(st, root, parent, child).out == Fail(CLONE_FAILED_ERR)
    ensures AppendChildByName(st, root, parent, child).out.Fail? ==>
      IsXmlChecked(AppendChildByName(st, root, parent, child).out.error)
      && AppendChildByName(st, root, parent, child).out.error.code in X.CODES
  {
    Indexed.CloneFailedChecked();
    assert X.CODES[0] == X.GENERAL_ERROR && X.CODES[4] == X.NULL_ROOT_ELEMENT;
    assert X.CODES[6] == X.CLONE_FAILED && X.CODES[9] == X.PARENT_NOT_FOUND;
    if root.Some? {
      ChildByNameSpec(st, root, parent);
      var found := Resolve(Get(st, root.value), Split(parent));
      if found.Some? {
        var p := found.value.id;
        AttachSpec(st, p, child);
        ExamineSpec(st, child);
        var a := AttachTo(st, p, child);
        AttachErrors(st, p, child);
        if a.out.Fail? && !IsXmlChecked(a.out.error) {
          RewrapIsGeneralError(ADD_TO_CHILD, a.out.error);
        }
      }
    }
  }

  /** The document whose getRootElement addToChild hands on: this one, or another one. */
  datatype Donor = Here | Elsewhere(doc: State)

  predicate DonorIn(d: Donor)
  {
    d.Elsewhere? ==> |d.doc.nodes| > 0
  }

  /** The node addToChild appends: always the donor document's element, whatever node the handle was on. */
  function DonorSource(st: State, d: Donor): Source
    requires |st.nodes| > 0 && DonorIn(d)
  {
    match d
    case Here => Local(DocElement(st))
    case Elsewhere(doc) => Foreign(FirstElement(Kids(doc.nodes[0])))
  }

  /** The document element of a valid document belongs to it: the first element child of the document node. */
  lemma DocElementIn(st: State)
    requires Valid(st)
    ensures DocElement(st).Some? ==>
      Has(st, DocElement(st).value) && Get(st, DocElement(st).value) == FirstElement(Kids(st.nodes[0])).value
      && Get(st, DocElement(st).value).Element?
  {
    var d := st.nodes[0];
    var cs := Kids(d);
    if FirstElement(cs).Some? {
      var i :| 0 <= i < |cs| && cs[i] == FirstElement(cs).value;
      IdsHead(d);
      assert Find(st.nodes, d.id) == FindIn(d, d.id);
      Placing.KidInState(st, d.id, i);
    }
  }

  /**
   * addToChild(child, parent): appendChildByName(parent, ...) with the element of the child's
   * document, its exceptions (all of the facade's class) re-wrapped as (debugString, e).
   */
  function AddToChild(st: State, root: Option<NodeId>, parent: string, donor: Donor): Effect<()>
    requires Valid(st) && RootIn(st, root) && DonorIn(donor)
  {
    DocElementIn(st);
    var r := AppendChildByName(st, root, parent, DonorSource(st, donor));
    match r.out
    case Fail(e) => Effect(r.st, Fail(RewrapChecked(ADD_TO_CHILD, e)))
    case Ok(_) => r
  }

  /**
   * addToChild is appendChildByName with the donor's document element: the same document and
   * success, the facade's exceptions turned into GENERAL_ERROR caused by them.
   */
  lemma AddToChildSpec(st: State, root: Option<NodeId>, parent: string, donor: Donor)
    requires Valid(st) && RootIn(st, root) && DonorIn(donor)
    ensures SourceIn(st, DonorSource(st, donor))
    ensures var r := AddToChild(st, root, parent, donor); var a := AppendChildByName(st, root, parent, DonorSource(st, donor));
      Valid(r.st) && r.st == a.st && (r.out.Ok? <==> a.out.Ok?) && (forall y :: Has(st, y) ==> Has(r.st, y))
      && (a.out.Fail? ==>
            IsXmlChecked(r.out.error) && r.out.error.code == X.GENERAL_ERROR && r.out.error.rootCause == Some(a.out.error))
    ensures root.None? ==> AddToChild(st, root, parent, donor).out.Fail?
  {
    DocElementIn(st);
    var src := DonorSource(st, donor);
    AppendChildByNameSpec(st, root, parent, src);
    var a := AppendChildByName(st, root, parent, src);
    RewrapIsGeneralError(ADD_TO_CHILD, Raise(X.NULL_ROOT_ELEMENT, ADD_TO_CHILD));
    if a.out.Fail? {
      RewrapIsGeneralError(ADD_TO_CHILD, a.out.error);
    }
  }

  // ---------------------------------------------------------------- clone, getValue

  /**
   * clone(deep): mRootNode.cloneNode(deep) handed on in a handle on the same document; the clone
   * is attached nowhere. Any exception, a null current node's included, becomes GENERAL_ERROR.
   */
  function Clone(st: State, root: Option<NodeId>, deep: bool): Effect<Option<NodeId>>
    requires RootIn(st, root) && (root.Some? ==> !Get(st, root.value).DocRoot?)
  {
    if root.None? then Effect(st, Fail(GeneralError(CLONE, NULL_POINTER)))
    else Effect(CloneInPlace(st, root.value, deep), Ok(Some(st.next)))
  }

  /**
   * clone: the handle it returns is on a new node of the same document, attached nowhere, equal to
   * the current node up to identifiers (without its children when not deep); every node the
   * document had is kept unchanged. A null current node gives GENERAL_ERROR caused by a
   * NullPointerException and leaves the document as it was.
   */
  lemma CloneSpec(st: State, root: Option<NodeId>, deep: bool)
    requires Valid(st) && RootIn(st, root) && (root.Some? ==> !Get(st, root.value).DocRoot?)
    ensures var r := Clone(st, root, deep); Valid(r.st) && forall y :: Has(st, y) ==> Has(r.st, y) && Get(r.st, y) == Get(st, y)
    ensures Clone(st, root, deep).out.Fail? <==> root.None?
    ensures root.None? ==>
      var r := Clone(st, root, deep);
      r.st == st && IsXmlChecked(r.out.error) && r.out.error.code == X.GENERAL_ERROR && r.out.error.rootCause == Some(NULL_POINTER)
    ensures root.Some? ==>
      var r := Clone(st, root, deep); var c := r.out.value;
      c == Some(st.next) && !Has(st, st.next) && Has(r.st, st.next) && IsTop(r.st.nodes, st.next)
      && Erase(Get(r.st, st.next)) == Erase(CloneSource(Get(st, root.value), deep))
    ensures root.Some? && deep ==> Erase(Get(Clone(st, root, deep).st, st.next)) == Erase(Get(st, root.value))
    ensures root.Some? && !deep && HasChildList(Get(st, root.value)) ==>
      Kids(Get(Clone(st, root, deep).st, st.next)) == [] && NodeName(Get(Clone(st, root, deep).st, st.next)) == NodeName(Get(st, root.value))
  {
    assert X.CODES[0] == X.GENERAL_ERROR;
    RaisedAreXmlChecked(X.GENERAL_ERROR, CLONE, NULL_POINTER);
    if root.Some? {
      CloneInPlaceSpec(st, root.value, deep);
      Creation.FreshNotIn(st, st.next);
      var x := root.value;
      if !deep && HasChildList(Get(st, x)) {
        var c := Get(CloneInPlace(st, x, deep), st.next);
        assert NodeName(Erase(c)) == NodeName(c) && NodeName(Erase(Get(st, x))) == NodeName(Get(st, x));
        assert NodeName(CloneSource(Get(st, x), deep)) == NodeName(Get(st, x));
      }
    }
  }

  /** getValue(): the current node's text value; a null current node gives GENERAL_ERROR. */
  function GetValue(st: State, root: Option<NodeId>): Outcome<Option<string>>
    requires RootIn(st, root)
  {
    if root.None? then Fail(GeneralError(GET_VALUE, NULL_POINTER))
    else Ok(TextValue(Get(st, root.value)))
  }

  /**
   * getValue reads back what setValue wrote: after a successful setValue(v) the current node's
   * value is v (null counting as ""). From a null current node neither succeeds.
   */
  lemma SetValueThenGetValue(st: State, root: Option<NodeId>, value: Option<string>)
    requires Valid(st) && RootIn(st, root)
    ensures SetText(st, root, value).out.Ok? ==>
      RootIn(SetText(st, root, value).st, root)
      && GetValue(SetText(st, root, value).st, root) == Ok(Some(value.GetOr("")))
    ensures root.None? ==>
      SetText(st, root, value).out.Fail? && GetValue(st, root).Fail?
      && IsXmlChecked(GetValue(st, root).error) && GetValue(st, root).error.code == X.GENERAL_ERROR
  {
    SetThenGetText(st, root, value);
    assert X.CODES[0] == X.GENERAL_ERROR;
    RaisedAreXmlChecked(X.GENERAL_ERROR, GET_VALUE, NULL_POINTER);
  }
}
