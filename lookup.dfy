/**
 * The facade's path lookups over a handle (a document and its current node): prvGetChildByName
 * and the operations built on it that read or detach the node it finds (getChild(String),
 * getNodeValue, getCDATAValue, getChildValue, getCDATASection, removeChild(String)).
 */
module Lookup {
  import opened Wrappers
  import opened Throwables
  import opened DomTree
  import opened Dom
  import opened Paths
  import opened Outcomes
  import opened Values
  import opened Transplant
  import opened Transfer
  import X = XmlDocumentCheckedException
  import Creation

  /** The handle's current node, when it has one, belongs to the document. */
  predicate RootIn(st: State, root: Option<NodeId>)
  {
    root.Some? ==> Has(st, root.value)
  }

  /**
   * prvGetChildByName(path): the path's segments are resolved from the current node. An empty
   * path gives the current node itself (null for a null node); any other path from a null node
   * is a NullPointerException.
   */
  function ChildByName(st: State, root: Option<NodeId>, path: string): Outcome<Option<NodeId>>
    requires RootIn(st, root)
  {
    var tags := Split(path);
    if root.None? then (if tags == [] then Ok(None) else Fail(NULL_POINTER))
    else match Resolve(Get(st, root.value), tags)
      case None => Ok(None)
      case Some(m) => Ok(Some(m.id))
  }

  /** The node a resolution finds is in the document as resolution saw it, inside the start, and strictly below it for a non-empty path. */
  lemma ResolvedInState(st: State, x: NodeId, tags: seq<string>)
    requires Valid(st) && Has(st, x) && Resolve(Get(st, x), tags).Some?
    ensures var m := Resolve(Get(st, x), tags).value;
      Has(st, m.id) && Get(st, m.id) == m && m.id in Ids(Get(st, x))
      && (tags != [] ==> m.id != x && NodeName(m) == tags[|tags| - 1])
  {
    var start := Get(st, x);
    var m := Resolve(start, tags).value;
    ResolveSound(start, tags);
    FindIffIn(st.nodes, x);
    FoundOccurs(st.nodes, x);
    OccursTrans(st.nodes, start, m);
    OccursHasId(st.nodes, m);
    FindOccurring(st.nodes, m);
    IdsHead(m);
    OccursInIdsSub(start, m, m.id);
    if tags != [] {
      Creation.UniqueInside(st.nodes, start);
      UniqueKids(start);
      OccursHasId(Kids(start), m);
    }
  }

  /**
   * Lookup answers with the node resolution finds from the current node, which lies in the
   * document below it; an empty path answers with the current node; only a null current node
   * with a non-empty path fails, with a NullPointerException.
   */
  lemma ChildByNameSpec(st: State, root: Option<NodeId>, path: string)
    requires Valid(st) && RootIn(st, root)
    ensures ChildByName(st, root, path).Fail? <==> root.None? && Split(path) != []
    ensures ChildByName(st, root, path).Fail? ==> ChildByName(st, root, path).error == NULL_POINTER
    ensures Split(path) == [] ==> ChildByName(st, root, path) == Ok(root)
    ensures root.Some? ==> (ChildByName(st, root, path) == Ok(None) <==> Resolve(Get(st, root.value), Split(path)).None?)
    ensures ChildByName(st, root, path).Ok? && ChildByName(st, root, path).value.Some? ==>
      var y := ChildByName(st, root, path).value.value;
      root.Some? && Has(st, y) && Resolve(Get(st, root.value), Split(path)) == Some(Get(st, y))
      && y in Ids(Get(st, root.value))
      && (Split(path) != [] ==> y != root.value && NodeName(Get(st, y)) == Split(path)[|Split(path)| - 1])
  {
    if root.Some? && Resolve(Get(st, root.value), Split(path)).Some? {
      ResolvedInState(st, root.value, Split(path));
    }
  }

  /** Doubled, leading and trailing separators do not change what a lookup finds. */
  lemma ChildByNameSeparators(st: State, root: Option<NodeId>, a: string, b: string)
    requires RootIn(st, root)
    ensures ChildByName(st, root, a + "//" + b) == ChildByName(st, root, a + "/" + b)
    ensures ChildByName(st, root, "/" + a + "/") == ChildByName(st, root, a)
  {
    SplitIgnoresEmptySegments(a, b);
    SplitIgnoresEmptySegments(a + "/", "");
    SplitIgnoresEmptySegments(a, "");
    assert "/" + a + "/" == "/" + (a + "/");
  }

  // ---------------------------------------------------------------- getChild(String)

  const GET_CHILD_NAMED: string := Debug(".getChild(String)")

  /**
   * getChild(path): NULL_ROOT_ELEMENT, wrapped, for a null current node; null when nothing is
   * found; otherwise create(node), a copy of the node found in a new document.
   */
  function GetChildNamed(st: State, root: Option<NodeId>, path: string): Outcome<Option<State>>
    requires RootIn(st, root)
  {
    if root.None? then Fail(GeneralError(GET_CHILD_NAMED, Raise(X.NULL_ROOT_ELEMENT, GET_CHILD_NAMED)))
    else match ChildByName(st, root, path)
      case Fail(e) => Fail(GeneralError(GET_CHILD_NAMED, e))
      case Ok(None) => Ok(None)
      case Ok(Some(y)) =>
        if Has(st, y) then
          match CopyOut(Some(Get(st, y)))
          case Fail(e) => Fail(e)
          case Ok(doc) => Ok(Some(doc))
        else Fail(NULL_POINTER)
  }

  /**
   * getChild(path) answers with a document of its own holding a copy of the node the lookup
   * finds (the node up to identifiers), and null exactly when the lookup finds nothing. The
   * receiving document is not touched, so changing the copy cannot change it.
   */
  lemma GetChildNamedSpec(st: State, root: Option<NodeId>, path: string)
    requires Valid(st) && RootIn(st, root) && root.Some?
    ensures GetChildNamed(st, root, path) == Ok(None) <==> Resolve(Get(st, root.value), Split(path)).None?
    ensures GetChildNamed(st, root, path).Ok? && GetChildNamed(st, root, path).value.Some? ==>
      var m := Resolve(Get(st, root.value), Split(path)).value; var doc := GetChildNamed(st, root, path).value.value;
      doc == CopyDocument(m) && Valid(doc) && Has(doc, 1)
      && DocElement(doc) == (if m.Element? then Some(1) else None)
      && Erase(Get(doc, 1)) == Erase(Canonical(m))
      && (DomShaped(m) ==> Erase(Get(doc, 1)) == Erase(m))
    ensures GetChildNamed(st, root, path).Fail? ==>
      var m := Resolve(Get(st, root.value), Split(path)).value;
      !Clonable(m) || NullText(m) || m.Text? || m.CData?
  {
    ChildByNameSpec(st, root, path);
    var r := Resolve(Get(st, root.value), Split(path));
    if r.Some? {
      CopyOutSpec(r.value);
    }
  }

  // ---------------------------------------------------------------- values below the current node

  const NODE_VALUE: string := Debug(".getNodeValue(String)")
  const CDATA_VALUE: string := Debug(".getCDATAValue(String)")

  /** getNodeValue(path): the text value of the node found, "" when nothing is found. */
  function NodeValue(st: State, root: Option<NodeId>, path: string): Outcome<Option<string>>
    requires RootIn(st, root)
  {
    match ChildByName(st, root, path)
    case Fail(e) => Fail(GeneralError(NODE_VALUE, e))
    case Ok(None) => Ok(Some(""))
    case Ok(Some(y)) => if Has(st, y) then Ok(TextValue(Get(st, y))) else Fail(GeneralError(NODE_VALUE, NULL_POINTER))
  }

  /** getCDATAValue(path): the CDATA value of the node found, "" when nothing is found. */
  function CDataAt(st: State, root: Option<NodeId>, path: string): Outcome<string>
    requires RootIn(st, root)
  {
    match ChildByName(st, root, path)
    case Fail(e) => Fail(GeneralError(CDATA_VALUE, e))
    case Ok(None) => Ok("")
    case Ok(Some(y)) => if Has(st, y) then Ok(CDataValue(Get(st, y))) else Fail(GeneralError(CDATA_VALUE, NULL_POINTER))
  }

  /** Both value lookups read the node resolution finds, and fail only for a null node with a non-empty path. */
  lemma ValueLookupSpec(st: State, root: Option<NodeId>, path: string)
    requires Valid(st) && RootIn(st, root)
    ensures NodeValue(st, root, path).Fail? <==> root.None? && Split(path) != []
    ensures CDataAt(st, root, path).Fail? <==> root.None? && Split(path) != []
    ensures NodeValue(st, root, path).Fail? ==> NodeValue(st, root, path).error == GeneralError(NODE_VALUE, NULL_POINTER)
    ensures root.Some? ==>
      var r := Resolve(Get(st, root.value), Split(path));
      NodeValue(st, root, path) == Ok(if r.None? then Some("") else TextValue(r.value))
      && CDataAt(st, root, path) == Ok(if r.None? then "" else CDataValue(r.value))
  {
    ChildByNameSpec(st, root, path);
  }

  /** A value set on the current node with setValue reads back through getNodeValue of the empty path. */
  lemma SetValueThenNodeValue(st: State, root: Option<NodeId>, value: Option<string>)
    requires Valid(st) && RootIn(st, root)
    requires SetText(st, root, value).out.Ok?
    ensures RootIn(SetText(st, root, value).st, root)
    ensures NodeValue(SetText(st, root, value).st, root, "") == Ok(Some(value.GetOr("")))
  {
    SetThenGetText(st, root, value);
    var s := SetText(st, root, value).st;
    assert Split("") == [];
    ChildByNameSpec(s, root, "");
  }

  const CHILD_VALUE: string := Debug(".getChildValue(String)")
  const CDATA_SECTION: string := Debug(".getCDATASection(String)")

  /** getChildValue(path): getNodeValue, its exception re-wrapped as (debugString, e). */
  function ChildValue(st: State, root: Option<NodeId>, path: string): Outcome<Option<string>>
    requires RootIn(st, root)
  {
    match NodeValue(st, root, path)
    case Ok(v) => Ok(v)
    case Fail(e) => Fail(RewrapChecked(CHILD_VALUE, e))
  }

  /** getCDATASection(path): getCDATAValue, its exception re-wrapped as (debugString, e). */
  function CDataSection(st: State, root: Option<NodeId>, path: string): Outcome<string>
    requires RootIn(st, root)
  {
    match CDataAt(st, root, path)
    case Ok(v) => Ok(v)
    case Fail(e) => Fail(RewrapChecked(CDATA_SECTION, e))
  }

  /**
   * The two wrappers answer what the lookups they call answer. They fail exactly when those do,
   * for a null node with a non-empty path, and then with GENERAL_ERROR caused by the lookup's
   * own GENERAL_ERROR: the table's codes map to nothing, so re-wrapping never keeps a code.
   */
  lemma ChildValueSpec(st: State, root: Option<NodeId>, path: string)
    requires Valid(st) && RootIn(st, root)
    ensures ChildValue(st, root, path).Ok? <==> NodeValue(st, root, path).Ok?
    ensures ChildValue(st, root, path).Ok? ==> ChildValue(st, root, path).value == NodeValue(st, root, path).value
    ensures CDataSection(st, root, path).Ok? <==> CDataAt(st, root, path).Ok?
    ensures CDataSection(st, root, path).Ok? ==> CDataSection(st, root, path).value == CDataAt(st, root, path).value
    ensures ChildValue(st, root, path).Fail? <==> root.None? && Split(path) != []
    ensures ChildValue(st, root, path).Fail? ==>
      ChildValue(st, root, path).error.code == X.GENERAL_ERROR
      && ChildValue(st, root, path).error.rootCause == Some(GeneralError(NODE_VALUE, NULL_POINTER))
    ensures CDataSection(st, root, path).Fail? ==>
      CDataSection(st, root, path).error.code == X.GENERAL_ERROR
      && CDataSection(st, root, path).error.rootCause == Some(GeneralError(CDATA_VALUE, NULL_POINTER))
  {
    ValueLookupSpec(st, root, path);
    var e1 := GeneralError(NODE_VALUE, NULL_POINTER);
    var e2 := GeneralError(CDATA_VALUE, NULL_POINTER);
    X.CodeTable();
    RaisedAreXmlChecked(X.GENERAL_ERROR, NODE_VALUE, NULL_POINTER);
    RaisedAreXmlChecked(X.GENERAL_ERROR, CDATA_VALUE, NULL_POINTER);
    RewrapIsGeneralError(CHILD_VALUE, e1);
    RewrapIsGeneralError(CDATA_SECTION, e2);
  }

  // ---------------------------------------------------------------- removeChild(String)

  const REMOVE_NAMED: string := Debug(".removeChild(String)")

  /**
   * removeChild(path): the node found is detached from its parent and a handle on it returned.
   * Every failure is wrapped as GENERAL_ERROR: a lookup failure, nothing found (CHILD_NOT_FOUND),
   * or a node found without a parent (the current node itself, for an empty path).
   */
  function RemoveNamed(st: State, root: Option<NodeId>, path: string): Effect<NodeId>
    requires RootIn(st, root)
  {
    match ChildByName(st, root, path)
    case Fail(e) => Effect(st, Fail(GeneralError(REMOVE_NAMED, e)))
    case Ok(None) => Effect(st, Fail(GeneralError(REMOVE_NAMED, Raise(X.CHILD_NOT_FOUND, REMOVE_NAMED))))
    case Ok(Some(y)) =>
      if !Has(st, y) then Effect(st, Fail(GeneralError(REMOVE_NAMED, NULL_POINTER)))
      else match Detach(st, y)
        case Fail(e) => Effect(st, Fail(GeneralError(REMOVE_NAMED, e)))
        case Ok(s) => Effect(s, Ok(y))
  }

  /** A node inside another is, in the document, the same node as inside it. */
  lemma GetBelow(st: State, x: NodeId, y: NodeId)
    requires Valid(st) && Has(st, x) && y in Ids(Get(st, x))
    ensures Has(st, y) && FindIn(Get(st, x), y) == Some(Get(st, y))
  {
    var t := Get(st, x);
    FindInIffIn(t, y);
    FoundInOccurs(t, y);
    FindIffIn(st.nodes, x);
    FoundOccurs(st.nodes, x);
    OccursTrans(st.nodes, t, FindIn(t, y).value);
    OccursHasId(st.nodes, FindIn(t, y).value);
    FindOccurring(st.nodes, FindIn(t, y).value);
  }

  /** Detaching c gives no node a subtree it did not have, and leaves c inside no other node's subtree. */
  lemma DetachBelow(st: State, c: NodeId, y: NodeId)
    requires Valid(st) && Has(st, c) && !IsTop(st.nodes, c) && Has(st, y)
    ensures Has(Detach(st, c).value, y)
    ensures forall z :: z in Ids(Get(Detach(st, c).value, y)) ==> z in Ids(Get(st, y))
    ensures y != c ==> c !in Ids(Get(Detach(st, c).value, y))
  {
    DetachSpec(st, c);
    var s := Detach(st, c).value;
    var Y := Get(st, y);
    if y == c {
    } else if c in Ids(Y) {
      FindIffIn(st.nodes, y);
      FoundOccurs(st.nodes, y);
      Creation.UniqueInside(st.nodes, Y);
      UniqueKids(Y);
      IdsHead(Y);
      PruneInBag(Y, c);
      FindInIffIn(Y, c);
      IdsHead(FindIn(Y, c).value);
      assert multiset(Ids(Y))[c] <= 1;
      forall z | z in Ids(PruneIn(Y, c))
        ensures z in Ids(Y)
      {
        assert z in multiset(Ids(PruneIn(Y, c)));
        assert z in multiset(Ids(Y));
      }
    } else if y in Ids(Get(st, c)) {
      GetBelow(st, c, y);
      GetBelow(s, c, y);
    }
  }

  /**
   * removeChild(path) detaches exactly the node resolution finds, when it has a parent: the node
   * keeps its subtree, has no parent any more, and nodes apart from it are unchanged. Nothing
   * changes when it fails, and it fails with GENERAL_ERROR.
   */
  lemma RemoveNamedSpec(st: State, root: Option<NodeId>, path: string)
    requires Valid(st) && RootIn(st, root)
    ensures var r := RemoveNamed(st, root, path); Valid(r.st) && forall y :: Has(st, y) <==> Has(r.st, y)
    ensures var r := RemoveNamed(st, root, path); r.out.Fail? ==> r.st == st && r.out.error.code == X.GENERAL_ERROR
    ensures root.Some? ==>
      (RemoveNamed(st, root, path).out.Ok? <==>
        var m := Resolve(Get(st, root.value), Split(path)); m.Some? && !IsTop(st.nodes, m.value.id))
    ensures var r := RemoveNamed(st, root, path); r.out.Ok? ==>
      var y := r.out.value;
      root.Some? && Resolve(Get(st, root.value), Split(path)) == Some(Get(st, y))
      && Get(r.st, y) == Get(st, y) && IsTop(r.st.nodes, y)
      && forall z :: Has(st, z) && Apart(st, z, y) ==> Get(r.st, z) == Get(st, z)
  {
    ChildByNameSpec(st, root, path);
    X.CodeTable();
    match ChildByName(st, root, path)
    case Fail(e) =>
    case Ok(None) =>
    case Ok(Some(y)) =>
      if !IsTop(st.nodes, y) {
        DetachSpec(st, y);
      }
  }

  /** After removeChild(path) of a non-empty path, the same lookup can no longer find the removed node. */
  lemma RemovedNotFoundAgain(st: State, root: Option<NodeId>, path: string)
    requires Valid(st) && RootIn(st, root) && Split(path) != []
    requires RemoveNamed(st, root, path).out.Ok?
    ensures RootIn(RemoveNamed(st, root, path).st, root)
    ensures ChildByName(RemoveNamed(st, root, path).st, root, path) != Ok(Some(RemoveNamed(st, root, path).out.value))
  {
    RemoveNamedSpec(st, root, path);
    ChildByNameSpec(st, root, path);
    var x := root.value;
    var y := RemoveNamed(st, root, path).out.value;
    DetachBelow(st, y, x);
    var s := RemoveNamed(st, root, path).st;
    ChildByNameSpec(s, root, path);
  }

  /** The document of the removal test: <r><a/><b/></r>, the handle on r. */
  const EXAMPLE: State := State([DocRoot(0, [Element(1, "r", [], [Element(2, "a", [], []), Element(3, "b", [], [])])])], 4)

  /** The example after b is removed: r keeps a, and b is a detached root. */
  const REMOVED: State := State([DocRoot(0, [Element(1, "r", [], [Element(2, "a", [], [])])]), Element(3, "b", [], [])], 4)

  /** removeChild("b") on it detaches b, and a second getChild("b") gives null. */
  lemma RemoveThenGetChildExample()
    ensures Has(EXAMPLE, 1) && RemoveNamed(EXAMPLE, Some(1), "b").out == Ok(3)
    ensures Has(RemoveNamed(EXAMPLE, Some(1), "b").st, 1) && GetChildNamed(RemoveNamed(EXAMPLE, Some(1), "b").st, Some(1), "b") == Ok(None)
  {
    RemoveNamedExample();
    GetChildRemovedExample();
  }

  /** The removal itself: b is found under r, pruned from it and left as a detached root. */
  lemma RemoveNamedExample()
    ensures Has(EXAMPLE, 1) && RemoveNamed(EXAMPLE, Some(1), "b").out == Ok(3) && RemoveNamed(EXAMPLE, Some(1), "b").st == REMOVED
  {
    SplitSegment("b");
    var r := Element(1, "r", [], [Element(2, "a", [], []), Element(3, "b", [], [])]);
    assert Get(EXAMPLE, 1) == r;
    assert Resolve(r, ["b"]) == Some(Element(3, "b", [], []));
    assert Get(EXAMPLE, 3) == Element(3, "b", [], []);
    assert !IsTop(EXAMPLE.nodes, 3);
    var a, b := Element(2, "a", [], []), Element(3, "b", [], []);
    IdsHead(a);
    assert Ids(a) == [2];
    assert Prune([b], 3) == [];
    assert Prune([a, b], 3) == [a] by {
      assert [a, b][1..] == [b];
    }
    assert PruneIn(r, 3) == Element(1, "r", [], [a]);
    assert Prune([r], 3) == [Element(1, "r", [], [a])];
    assert Prune(EXAMPLE.nodes, 3) == [DocRoot(0, [Element(1, "r", [], [a])])];
    assert Detach(EXAMPLE, 3).value == REMOVED;
  }

  /** In the document after the removal, r has no child b. */
  lemma GetChildRemovedExample()
    ensures Has(REMOVED, 1) && GetChildNamed(REMOVED, Some(1), "b") == Ok(None)
  {
    SplitSegment("b");
    assert Get(REMOVED, 1) == Element(1, "r", [], [Element(2, "a", [], [])]);
  }
}
