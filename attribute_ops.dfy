/**
 * The facade's attribute operations: on the current node (getAttributeByName, getAttribute,
 * setAttribute, removeAttribute, getAttributeCount, getAttributeNameByIndex, getAttributeNames,
 * getAttributeValues) and on a node found by path (getChildAttribute, removeChildAttribute).
 * Only elements have attributes: getAttributes() of any other node, or of a null node, fails
 * with a NullPointerException.
 */
module AttributeOps {
  import opened Wrappers
  import opened Throwables
  import opened DomTree
  import opened Dom
  import opened Attributes
  import opened Paths
  import opened Outcomes
  import opened Lookup
  import X = XmlDocumentCheckedException

  /** getAttributes() of the current node: an element's attributes; null for any other node. */
  function AttrsOf(st: State, root: Option<NodeId>): (r: Option<seq<Attr>>)
    requires RootIn(st, root)
    ensures r.Some? <==> root.Some? && Get(st, root.value).Element?
  {
    if root.Some? && Get(st, root.value).Element? then Some(Get(st, root.value).attrs) else None
  }

  /** The element x with its attributes replaced, in place. */
  function WithAttrs(st: State, x: NodeId, attrs: seq<Attr>): State
    requires Has(st, x) && Get(st, x).Element?
  {
    var n := Get(st, x);
    SetNode(st, x, Element(x, n.tag, attrs, n.children))
  }

  /** Replacing an element's attributes keeps the document valid and changes nothing else: the element keeps its name and children, and nodes apart from it are untouched. */
  lemma WithAttrsSpec(st: State, x: NodeId, attrs: seq<Attr>)
    requires Valid(st) && Has(st, x) && Get(st, x).Element?
    ensures var s := WithAttrs(st, x, attrs);
      Valid(s) && (forall y :: Has(s, y) <==> Has(st, y))
      && Get(s, x) == Element(x, Get(st, x).tag, attrs, Get(st, x).children)
      && forall y :: Has(st, y) && Apart(st, y, x) ==> Get(s, y) == Get(st, y)
  {
    var n := Get(st, x);
    var m := Element(x, n.tag, attrs, n.children);
    assert Ids(m) == Ids(n);
    SetNodeSpec(st, x, m);
  }

  // ---------------------------------------------------------------- on the current node

  /** getAttributeByName(name), and getAttribute(name), which only re-wraps checked exceptions: an absent attribute reads as "". */
  function AttributeValue(st: State, root: Option<NodeId>, name: string): Outcome<string>
    requires RootIn(st, root)
  {
    match AttrsOf(st, root)
    case None => Fail(NULL_POINTER)
    case Some(attrs) => Ok(GetAttr(attrs, name).GetOr(""))
  }

  /** setAttribute(name, value): the attribute's value is updated, or a new attribute added last. */
  function SetAttribute(st: State, root: Option<NodeId>, name: string, value: string): Effect<()>
    requires RootIn(st, root)
  {
    match AttrsOf(st, root)
    case None => Effect(st, Fail(NULL_POINTER))
    case Some(attrs) => Effect(WithAttrs(st, root.value, SetAttr(attrs, name, value)), Ok(()))
  }

  const REMOVE_ATTRIBUTE: string := Debug(".removeAttribute(String)")

  /** removeAttribute(name): removeNamedItem, whose NOT_FOUND_ERR for an absent name is wrapped as GENERAL_ERROR. */
  function RemoveAttribute(st: State, root: Option<NodeId>, name: string): Effect<()>
    requires RootIn(st, root)
  {
    match AttrsOf(st, root)
    case None => Effect(st, Fail(GeneralError(REMOVE_ATTRIBUTE, NULL_POINTER)))
    case Some(attrs) =>
      match RemoveAttr(attrs, name)
      case None => Effect(st, Fail(GeneralError(REMOVE_ATTRIBUTE, NOT_FOUND_ERR)))
      case Some(rest) => Effect(WithAttrs(st, root.value, rest), Ok(()))
  }

  /** getAttributeCount() */
  function AttributeCount(st: State, root: Option<NodeId>): Outcome<nat>
    requires RootIn(st, root)
  {
    match AttrsOf(st, root)
    case None => Fail(NULL_POINTER)
    case Some(attrs) => Ok(|attrs|)
  }

  const NAME_BY_INDEX: string := Debug(".getAttributeNameByIndex(int)")

  /**
   * getAttributeNameByIndex(index): INVALID_INDEX outside 0 .. count-1. A negative index is
   * refused before the attributes are asked for, so it gives INVALID_INDEX even for a node
   * without attributes.
   */
  function AttributeNameAt(st: State, root: Option<NodeId>, index: int): Outcome<string>
    requires RootIn(st, root)
  {
    if index < 0 then Fail(Raise(X.INVALID_INDEX, NAME_BY_INDEX))
    else match AttrsOf(st, root)
      case None => Fail(GeneralError(NAME_BY_INDEX, NULL_POINTER))
      case Some(attrs) =>
        if index >= |attrs| then Fail(Raise(X.INVALID_INDEX, NAME_BY_INDEX)) else Ok(attrs[index].name)
  }

  /** setAttribute reads back through getAttribute, changes no other attribute, and touches nothing else in the document. */
  lemma SetThenGetAttribute(st: State, root: Option<NodeId>, name: string, value: string, other: string)
    requires Valid(st) && RootIn(st, root) && other != name
    ensures var r := SetAttribute(st, root, name, value);
      Valid(r.st) && RootIn(r.st, root) && forall y :: Has(st, y) <==> Has(r.st, y)
    ensures SetAttribute(st, root, name, value).out.Ok? <==> AttrsOf(st, root).Some?
    ensures SetAttribute(st, root, name, value).out.Fail? ==>
      SetAttribute(st, root, name, value) == Effect(st, Fail(NULL_POINTER))
    ensures var r := SetAttribute(st, root, name, value); r.out.Ok? ==>
      AttributeValue(r.st, root, name) == Ok(value)
      && AttributeValue(r.st, root, other) == AttributeValue(st, root, other)
      && Kids(Get(r.st, root.value)) == Kids(Get(st, root.value))
      && NodeName(Get(r.st, root.value)) == NodeName(Get(st, root.value))
      && forall y :: Has(st, y) && Apart(st, y, root.value) ==> Get(r.st, y) == Get(st, y)
  {
    if AttrsOf(st, root).Some? {
      var attrs := AttrsOf(st, root).value;
      WithAttrsSpec(st, root.value, SetAttr(attrs, name, value));
      GetAfterSet(attrs, name, value);
      GetAfterSetOther(attrs, name, value, other);
    }
  }

  /** setAttribute adds one attribute exactly when the name was absent, and keeps names unique. */
  lemma SetAttributeCount(st: State, root: Option<NodeId>, name: string, value: string)
    requires Valid(st) && RootIn(st, root) && AttrsOf(st, root).Some?
    ensures var r := SetAttribute(st, root, name, value);
      RootIn(r.st, root) && AttributeCount(r.st, root) == Ok(|AttrsOf(st, root).value| + if name in Names(AttrsOf(st, root).value) then 0 else 1)
    ensures NamesUnique(AttrsOf(st, root).value) ==>
      NamesUnique(AttrsOf(SetAttribute(st, root, name, value).st, root).value)
  {
    var attrs := AttrsOf(st, root).value;
    WithAttrsSpec(st, root.value, SetAttr(attrs, name, value));
    SetAttrNames(attrs, name, value);
    if NamesUnique(attrs) {
      SetAttrUnique(attrs, name, value);
    }
  }

  /**
   * removeAttribute succeeds exactly on an element that has the attribute; afterwards the
   * attribute reads as "", the other attributes read as before, and nothing else changes.
   */
  lemma RemoveThenGetAttribute(st: State, root: Option<NodeId>, name: string, other: string)
    requires Valid(st) && RootIn(st, root) && other != name
    requires AttrsOf(st, root).Some? ==> NamesUnique(AttrsOf(st, root).value)
    ensures var r := RemoveAttribute(st, root, name);
      Valid(r.st) && RootIn(r.st, root) && forall y :: Has(st, y) <==> Has(r.st, y)
    ensures RemoveAttribute(st, root, name).out.Ok? <==>
      AttrsOf(st, root).Some? && name in Names(AttrsOf(st, root).value)
    ensures var r := RemoveAttribute(st, root, name); r.out.Fail? ==>
      r.st == st && r.out.error.code == X.GENERAL_ERROR
    ensures var r := RemoveAttribute(st, root, name); r.out.Ok? ==>
      AttributeValue(r.st, root, name) == Ok("")
      && AttributeValue(r.st, root, other) == AttributeValue(st, root, other)
      && Kids(Get(r.st, root.value)) == Kids(Get(st, root.value))
      && forall y :: Has(st, y) && Apart(st, y, root.value) ==> Get(r.st, y) == Get(st, y)
  {
    X.CodeTable();
    if AttrsOf(st, root).Some? {
      var attrs := AttrsOf(st, root).value;
      RemoveAttrSpec(attrs, name, other);
      if RemoveAttr(attrs, name).Some? {
        WithAttrsSpec(st, root.value, RemoveAttr(attrs, name).value);
      }
    }
  }

  /** getAttributeNameByIndex lists the attribute names in index order, and refuses every other index. */
  lemma AttributeNameAtSpec(st: State, root: Option<NodeId>, index: int)
    requires RootIn(st, root)
    ensures AttributeNameAt(st, root, index).Ok? <==>
      AttrsOf(st, root).Some? && 0 <= index < |AttrsOf(st, root).value|
    ensures AttributeNameAt(st, root, index).Ok? ==>
      AttributeNameAt(st, root, index).value == Names(AttrsOf(st, root).value)[index]
    ensures AttributeNameAt(st, root, index).Fail? && (index < 0 || AttrsOf(st, root).Some?) ==>
      AttributeNameAt(st, root, index).error == Raise(X.INVALID_INDEX, NAME_BY_INDEX)
  {
  }

  /** The names, in index order, of getAttributeNames: an entry per index accepted by getAttributeNameByIndex. */
  function AttributeNames(st: State, root: Option<NodeId>): Outcome<seq<string>>
    requires RootIn(st, root)
  {
    match AttrsOf(st, root)
    case None => Fail(NULL_POINTER)
    case Some(attrs) => Ok(Names(attrs))
  }

  /** The values of getAttributeValues: the value getAttributeByName gives each name of getAttributeNames. */
  function AttributeValues(st: State, root: Option<NodeId>): Outcome<seq<string>>
    requires RootIn(st, root)
  {
    match AttrsOf(st, root)
    case None => Fail(NULL_POINTER)
    case Some(attrs) =>
      var names := Names(attrs);
      Ok(seq(|names|, i requires 0 <= i < |names| => GetAttr(attrs, names[i]).GetOr("")))
  }

  /**
   * getAttributeNames and getAttributeValues are paired by position: as many values as names,
   * the i-th value being what getAttribute gives for the i-th name and, with names unique, the
   * i-th attribute's own value. Both list getAttributeCount entries.
   */
  lemma AttributeListsSpec(st: State, root: Option<NodeId>)
    requires RootIn(st, root)
    ensures AttributeNames(st, root).Ok? <==> AttrsOf(st, root).Some?
    ensures AttributeValues(st, root).Ok? <==> AttrsOf(st, root).Some?
    ensures AttributeNames(st, root).Ok? ==>
      var names := AttributeNames(st, root).value; var values := AttributeValues(st, root).value;
      AttributeCount(st, root) == Ok(|names|) && |values| == |names|
      && (forall i :: 0 <= i < |names| ==> AttributeNameAt(st, root, i) == Ok(names[i]))
      && (forall i :: 0 <= i < |names| ==> AttributeValue(st, root, names[i]) == Ok(values[i]))
      && (NamesUnique(AttrsOf(st, root).value) ==>
            forall i :: 0 <= i < |names| ==> values[i] == AttrsOf(st, root).value[i].value)
  {
    if AttrsOf(st, root).Some? {
      var attrs := AttrsOf(st, root).value;
      if NamesUnique(attrs) {
        forall i | 0 <= i < |attrs|
          ensures GetAttr(attrs, attrs[i].name) == Some(attrs[i].value)
        {
          GetUniqueAt(attrs, i);
        }
      }
    }
  }

  /** With unique names, the attribute at a position is the one a lookup of its name finds. */
  lemma {:induction false} GetUniqueAt(attrs: seq<Attr>, i: nat)
    requires NamesUnique(attrs) && i < |attrs|
    ensures GetAttr(attrs, attrs[i].name) == Some(attrs[i].value)
    decreases i
  {
    if i > 0 {
      assert attrs[0].name != attrs[i].name by {
        assert Names(attrs)[0] == attrs[0].name && Names(attrs)[i] == attrs[i].name;
      }
      assert NamesUnique(attrs[1..]) by {
        forall a, b | 0 <= a < b < |attrs[1..]|
          ensures Names(attrs[1..])[a] != Names(attrs[1..])[b]
        {
          assert Names(attrs)[a + 1] != Names(attrs)[b + 1];
        }
      }
      assert attrs[1..][i - 1] == attrs[i];
      GetUniqueAt(attrs[1..], i - 1);
    }
  }

  // ---------------------------------------------------------------- on a node found by path

  const CHILD_ATTRIBUTE: string := Debug(".getChildAttribute(String, String)")

  /**
   * getChildAttribute(path, name) as written: CHILD_NOT_FOUND when nothing is found; the
   * null test is on the name parameter instead of the attribute node, so an absent attribute
   * is a NullPointerException, wrapped as GENERAL_ERROR.
   */
  function ChildAttributeAsWritten(st: State, root: Option<NodeId>, path: string, name: string): Outcome<string>
    requires RootIn(st, root)
  {
    match ChildByName(st, root, path)
    case Fail(e) => Fail(GeneralError(CHILD_ATTRIBUTE, e))
    case Ok(None) => Fail(Raise(X.CHILD_NOT_FOUND, CHILD_ATTRIBUTE))
    case Ok(Some(y)) =>
      if !Has(st, y) || !Get(st, y).Element? then Fail(GeneralError(CHILD_ATTRIBUTE, NULL_POINTER))
      else match GetAttr(Get(st, y).attrs, name)
        case None => Fail(GeneralError(CHILD_ATTRIBUTE, NULL_POINTER))
        case Some(v) => Ok(v)
  }

  /** getChildAttribute(path, name) as its documentation promises: an absent attribute reads as "". */
  function ChildAttribute(st: State, root: Option<NodeId>, path: string, name: string): Outcome<string>
    requires RootIn(st, root)
  {
    match ChildByName(st, root, path)
    case Fail(e) => Fail(GeneralError(CHILD_ATTRIBUTE, e))
    case Ok(None) => Fail(Raise(X.CHILD_NOT_FOUND, CHILD_ATTRIBUTE))
    case Ok(Some(y)) =>
      if !Has(st, y) || !Get(st, y).Element? then Fail(GeneralError(CHILD_ATTRIBUTE, NULL_POINTER))
      else Ok(GetAttr(Get(st, y).attrs, name).GetOr(""))
  }

  /** The code as written: an element found by the path but lacking the attribute gives GENERAL_ERROR, not "". */
  lemma ChildAttributeMissingFails()
    ensures ChildAttributeAsWritten(EXAMPLE, Some(1), "a", "id") == Fail(GeneralError(CHILD_ATTRIBUTE, NULL_POINTER))
    ensures ChildAttribute(EXAMPLE, Some(1), "a", "id") == Ok("")
  {
    SplitSegment("a");
    var r := Element(1, "r", [], [Element(2, "a", [], []), Element(3, "b", [], [])]);
    assert Get(EXAMPLE, 1) == r;
    assert Resolve(r, ["a"]) == Some(Element(2, "a", [], []));
    assert Get(EXAMPLE, 2) == Element(2, "a", [], []);
  }

  /**
   * getChildAttribute reads the attribute of the node the lookup finds, as getAttribute would on
   * a handle on that node: "" when absent; CHILD_NOT_FOUND when nothing is found; GENERAL_ERROR
   * for a node without attributes or a failed lookup. It agrees with the code as written
   * whenever the attribute is present.
   */
  lemma ChildAttributeSpec(st: State, root: Option<NodeId>, path: string, name: string)
    requires Valid(st) && RootIn(st, root)
    ensures ChildByName(st, root, path) == Ok(None) ==>
      ChildAttribute(st, root, path, name) == Fail(Raise(X.CHILD_NOT_FOUND, CHILD_ATTRIBUTE))
    ensures ChildByName(st, root, path).Ok? && ChildByName(st, root, path).value.Some? ==>
      var y := ChildByName(st, root, path).value.value;
      RootIn(st, Some(y)) && ChildAttribute(st, root, path, name) ==
        match AttributeValue(st, Some(y), name)
        case Ok(v) => Ok(v)
        case Fail(e) => Fail(GeneralError(CHILD_ATTRIBUTE, e))
    ensures ChildAttribute(st, root, path, name).Fail? ==>
      ChildAttribute(st, root, path, name).error.code in {X.GENERAL_ERROR, X.CHILD_NOT_FOUND}
    ensures ChildAttributeAsWritten(st, root, path, name).Ok? ==>
      ChildAttribute(st, root, path, name) == ChildAttributeAsWritten(st, root, path, name)
  {
    ChildByNameSpec(st, root, path);
    X.CodeTable();
  }

  const REMOVE_CHILD_ATTRIBUTE: string := Debug(".removeChildAttribute(String, String)")

  /**
   * removeChildAttribute(path, name): removeNamedItem on the node found. Every failure is
   * wrapped as GENERAL_ERROR: nothing found (CHILD_NOT_FOUND), a node without attributes, an
   * absent attribute (NOT_FOUND_ERR).
   */
  function RemoveChildAttribute(st: State, root: Option<NodeId>, path: string, name: string): Effect<()>
    requires RootIn(st, root)
  {
    match ChildByName(st, root, path)
    case Fail(e) => Effect(st, Fail(GeneralError(REMOVE_CHILD_ATTRIBUTE, e)))
    case Ok(None) =>
      Effect(st, Fail(GeneralError(REMOVE_CHILD_ATTRIBUTE, Raise(X.CHILD_NOT_FOUND, REMOVE_CHILD_ATTRIBUTE))))
    case Ok(Some(y)) =>
      if !Has(st, y) || !Get(st, y).Element? then Effect(st, Fail(GeneralError(REMOVE_CHILD_ATTRIBUTE, NULL_POINTER)))
      else match RemoveAttr(Get(st, y).attrs, name)
        case None => Effect(st, Fail(GeneralError(REMOVE_CHILD_ATTRIBUTE, NOT_FOUND_ERR)))
        case Some(rest) => Effect(WithAttrs(st, y, rest), Ok(()))
  }

  /**
   * removeChildAttribute succeeds exactly when the lookup finds an element with the attribute;
   * the attribute then reads as "" through getChildAttribute, and the document is otherwise as
   * removeAttribute on a handle on that element would leave it.
   */
  lemma RemoveChildAttributeSpec(st: State, root: Option<NodeId>, path: string, name: string)
    requires Valid(st) && RootIn(st, root)
    requires forall y :: Has(st, y) && Get(st, y).Element? ==> NamesUnique(Get(st, y).attrs)
    ensures var r := RemoveChildAttribute(st, root, path, name); Valid(r.st) && RootIn(r.st, root)
    ensures var r := RemoveChildAttribute(st, root, path, name); r.out.Fail? ==>
      r.st == st && r.out.error.code == X.GENERAL_ERROR
    ensures RemoveChildAttribute(st, root, path, name).out.Ok? <==>
      ChildByName(st, root, path).Ok? && ChildByName(st, root, path).value.Some?
      && var y := ChildByName(st, root, path).value.value;
        Has(st, y) && Get(st, y).Element? && name in Names(Get(st, y).attrs)
    ensures var r := RemoveChildAttribute(st, root, path, name); r.out.Ok? ==>
      var y := ChildByName(st, root, path).value.value;
      RootIn(st, Some(y)) && r == RemoveAttribute(st, Some(y), name)
  {
    ChildByNameSpec(st, root, path);
    X.CodeTable();
    match ChildByName(st, root, path)
    case Fail(_) =>
    case Ok(None) =>
    case Ok(Some(y)) =>
      if Get(st, y).Element? {
        var attrs := Get(st, y).attrs;
        RemoveAttrSpec(attrs, name, name);
        if RemoveAttr(attrs, name).Some? {
          WithAttrsSpec(st, y, RemoveAttr(attrs, name).value);
        }
      }
  }

  /** Both attribute edits keep the document valid, with the same nodes, whether or not they succeed. */
  lemma AttributeEditsKeep(st: State, root: Option<NodeId>, name: string, value: string)
    requires Valid(st) && RootIn(st, root)
    ensures var r := SetAttribute(st, root, name, value); Valid(r.st) && forall y :: Has(st, y) <==> Has(r.st, y)
    ensures var r := RemoveAttribute(st, root, name); Valid(r.st) && forall y :: Has(st, y) <==> Has(r.st, y)
  {
    if AttrsOf(st, root).Some? {
      var attrs := AttrsOf(st, root).value;
      WithAttrsSpec(st, root.value, SetAttr(attrs, name, value));
      if RemoveAttr(attrs, name).Some? {
        WithAttrsSpec(st, root.value, RemoveAttr(attrs, name).value);
      }
    }
  }

  /** removeChildAttribute keeps the document valid, with the same nodes, whether or not it succeeds. */
  lemma RemoveChildAttributeKeeps(st: State, root: Option<NodeId>, path: string, name: string)
    requires Valid(st) && RootIn(st, root)
    ensures var r := RemoveChildAttribute(st, root, path, name); Valid(r.st) && forall y :: Has(st, y) <==> Has(r.st, y)
  {
    match ChildByName(st, root, path)
    case Fail(_) =>
    case Ok(None) =>
    case Ok(Some(y)) =>
      if Has(st, y) && Get(st, y).Element? && RemoveAttr(Get(st, y).attrs, name).Some? {
        WithAttrsSpec(st, y, RemoveAttr(Get(st, y).attrs, name).value);
      }
  }
}
