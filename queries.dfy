/**
 * The XPath query adapter: selectChildren, selectChild, removeChildrenWithXpath and
 * removeChildWithXpath. The XPath evaluator itself is not modelled: each operation takes the
 * evaluator's answer for the current node (its ordered list of matching nodes, or the exception
 * it threw) as a parameter. The matches are handles into the same document, that is node identifiers.
 */
module Queries {
  import opened Wrappers
  import opened Throwables
  import opened DomTree
  import opened Dom
  import opened Outcomes
  import opened Lookup
  import Transfer
  import X = XmlDocumentCheckedException

  const NO_ROOT: string := "No ROOT element found"
  const XPATH_FAILED: string := "Error executing xPath query"
  const MULTIPLE: string := "Multiple records when 1 is expected."
  const REMOVE_MATCHES: string := Debug(".removeChildrenWithXpath(String)")
  const REMOVE_MATCH: string := Debug(".removeChildWithXpath(String)")

  /** What the evaluator answers is nodes of the document, each once (an XPath node-set). */
  predicate AnswerIn(st: State, answer: Outcome<seq<NodeId>>)
  {
    answer.Ok? ==>
      (forall i :: 0 <= i < |answer.value| ==> Has(st, answer.value[i]))
      && forall i, j :: 0 <= i < j < |answer.value| ==> answer.value[i] != answer.value[j]
  }

  /** selectNodesViaXPath(query, mRootNode): NULL_ROOT_ELEMENT for a null node; an evaluator failure is wrapped. */
  function SelectNodes(root: Option<NodeId>, answer: Outcome<seq<NodeId>>): (r: Outcome<seq<NodeId>>)
    ensures root.Some? && answer.Ok? ==> r == answer
  {
    if root.None? then Fail(Raise(X.NULL_ROOT_ELEMENT, NO_ROOT))
    else match answer
      case Fail(e) => Fail(GeneralError(XPATH_FAILED, e))
      case Ok(hits) => Ok(hits)
  }

  /** selectChildren(query): a handle on every match, in the evaluator's order; its exceptions pass through. */
  function SelectChildren(root: Option<NodeId>, answer: Outcome<seq<NodeId>>): Outcome<seq<NodeId>>
  {
    SelectNodes(root, answer)
  }

  /** selectChild(query): null for no match, the match for one, GENERAL_ERROR for more. */
  function SelectChild(root: Option<NodeId>, answer: Outcome<seq<NodeId>>): Outcome<Option<NodeId>>
  {
    match SelectChildren(root, answer)
    case Fail(e) => Fail(e)
    case Ok(hits) =>
      if |hits| > 1 then Fail(Raise(X.GENERAL_ERROR, MULTIPLE))
      else if hits == [] then Ok(None)
      else Ok(Some(hits[0]))
  }

  /**
   * selectChild answers the single match exactly when there is one, null exactly when there is
   * none, and GENERAL_ERROR when there are several; a null current node is NULL_ROOT_ELEMENT and a
   * failing evaluator GENERAL_ERROR.
   */
  lemma SelectChildSpec(root: Option<NodeId>, answer: Outcome<seq<NodeId>>)
    ensures root.None? ==> SelectChild(root, answer) == Fail(Raise(X.NULL_ROOT_ELEMENT, NO_ROOT))
    ensures root.Some? && answer.Fail? ==>
      SelectChild(root, answer).Fail? && SelectChild(root, answer).error.Checked?
      && SelectChild(root, answer).error.code == X.GENERAL_ERROR
    ensures root.Some? && answer.Ok? ==>
      (SelectChild(root, answer) == Ok(None) <==> answer.value == [])
      && (|answer.value| == 1 <==> SelectChild(root, answer).Ok? && SelectChild(root, answer).value.Some?)
      && (|answer.value| == 1 ==> SelectChild(root, answer) == Ok(Some(answer.value[0])))
      && (|answer.value| > 1 <==> SelectChild(root, answer).Fail?)
      && (|answer.value| > 1 ==> SelectChild(root, answer).error.code == X.GENERAL_ERROR)
  {
    X.CodeTable();
  }

  // ---------------------------------------------------------------- detaching the matches

  /** childNode.getParentNode().removeChild(childNode) for each match in turn; a match without a parent is a NullPointerException. */
  function DetachAll(st: State, hits: seq<NodeId>): Effect<()>
    requires Valid(st) && forall i :: 0 <= i < |hits| ==> Has(st, hits[i])
    decreases |hits|
  {
    if hits == [] then Effect(st, Ok(()))
    else if IsTop(st.nodes, hits[0]) then Effect(st, Fail(NULL_POINTER))
    else
      DetachSpec(st, hits[0]);
      DetachAll(Detach(st, hits[0]).value, hits[1..])
  }

  /**
   * removeChildrenWithXpath(query): every match detached from its parent, in the evaluator's
   * order, and a handle on each; null when nothing matches. Every failure is wrapped as
   * GENERAL_ERROR (NULL_ROOT_ELEMENT included), and the matches already detached stay detached.
   */
  function RemoveMatches(st: State, root: Option<NodeId>, answer: Outcome<seq<NodeId>>): Effect<Option<seq<NodeId>>>
    requires Valid(st) && AnswerIn(st, answer)
  {
    match SelectNodes(root, answer)
    case Fail(e) => Effect(st, Fail(GeneralError(REMOVE_MATCHES, e)))
    case Ok(hits) =>
      if hits == [] then Effect(st, Ok(None))
      else
        var r := DetachAll(st, hits);
        match r.out
        case Fail(e) => Effect(r.st, Fail(GeneralError(REMOVE_MATCHES, e)))
        case Ok(_) => Effect(r.st, Ok(Some(hits)))
  }

  /**
   * removeChildWithXpath(query): the first match removed by removeChildrenWithXpath. With no
   * match that answer is null, and asking it whether it is empty is a NullPointerException;
   * everything is wrapped as GENERAL_ERROR.
   */
  function RemoveMatch(st: State, root: Option<NodeId>, answer: Outcome<seq<NodeId>>): Effect<NodeId>
    requires Valid(st) && AnswerIn(st, answer)
  {
    var r := RemoveMatches(st, root, answer);
    match r.out
    case Fail(e) => Effect(r.st, Fail(GeneralError(REMOVE_MATCH, e)))
    case Ok(None) => Effect(r.st, Fail(GeneralError(REMOVE_MATCH, NULL_POINTER)))
    case Ok(Some(hits)) =>
      assert hits != [];
      Effect(r.st, Ok(hits[0]))
  }

  /** The nodes of the document tree proper: the document node and everything below it. */
  function Attached(st: State): seq<NodeId>
    requires |st.nodes| > 0
  {
    Ids(st.nodes[0])
  }

  /** The identifiers at the top of a forest are exactly its detached roots. */
  lemma {:induction false} IsTopIff(s: seq<Node>, x: NodeId)
    requires Unique(s)
    ensures IsTop(s, x) <==> x in TopIds(s)
    decreases s
  {
    if s != [] && s[0].id != x {
      UniqueParts(s);
      IsTopIff(s[1..], x);
      assert TopIds(s) == [s[0].id] + TopIds(s[1..]);
      if x in TopIds(s[1..]) {
        TopInIds(s[1..], x);
      }
    }
  }

  /** Pruning a node with a parent keeps the roots of the forest. */
  lemma {:induction false} PruneTopIds(s: seq<Node>, c: NodeId)
    requires c in IdsOf(s) && !IsTop(s, c)
    ensures |Prune(s, c)| == |s| && forall i :: 0 <= i < |s| ==> Prune(s, c)[i].id == s[i].id
    decreases s
  {
    assert s != [];
    if c in Ids(s[0]) {
      assert Prune(s, c) == [PruneIn(s[0], c)] + s[1..];
      assert PruneIn(s[0], c).id == s[0].id;
    } else {
      assert Prune(s, c) == [s[0]] + Prune(s[1..], c);
      assert c in IdsOf(s[1..]);
      PruneTopIds(s[1..], c);
    }
  }

  /** The roots of a forest after a node with a parent is pruned and pushed to the end. */
  lemma PruneTopIdsAppend(s: seq<Node>, c: NodeId, C: Node)
    requires c in IdsOf(s) && !IsTop(s, c) && C.id == c
    ensures TopIds(Prune(s, c) + [C]) == TopIds(s) + [c]
  {
    PruneTopIds(s, c);
  }

  /** Two bags adding up to one without duplicates: one holds what the other lacks. */
  lemma BagSplitIn(a: multiset<NodeId>, b: multiset<NodeId>, c: multiset<NodeId>)
    requires a + b == c && NoDup(c)
    ensures forall y :: y in a <==> y in c && y !in b
  {
    forall y
      ensures y in a <==> y in c && y !in b
    {
      assert c[y] == a[y] + b[y];
    }
  }

  /** A node attached nowhere shares nothing with the document tree. */
  lemma DetachedOutside(st: State, c: NodeId)
    requires Valid(st) && Has(st, c) && c !in Ids(st.nodes[0])
    ensures forall y :: y in Ids(Get(st, c)) ==> y !in Ids(st.nodes[0])
  {
    var s := st.nodes;
    UniqueParts(s);
    FindInIffIn(s[0], c);
    assert Find(s, c) == Find(s[1..], c);
    assert c in IdsOf(s[1..]);
    FindSubBag(s[1..], c);
    forall y | y in Ids(Get(st, c))
      ensures y !in Ids(s[0])
    {
      assert y in multiset(Ids(Get(st, c)));
      assert y in Bag(s[1..]);
    }
  }

  /** One removeChild of a node with a parent makes it a detached root; no other root appears or goes. */
  lemma DetachTops(st: State, c: NodeId)
    requires Valid(st) && Has(st, c) && !IsTop(st.nodes, c)
    ensures Detach(st, c).Ok? && Valid(Detach(st, c).value)
    ensures forall y :: IsTop(Detach(st, c).value.nodes, y) <==> IsTop(st.nodes, y) || y == c
  {
    DetachSpec(st, c);
    var s := Detach(st, c).value;
    PruneTopIdsAppend(st.nodes, c, Get(st, c));
    forall y
      ensures IsTop(s.nodes, y) <==> IsTop(st.nodes, y) || y == c
    {
      IsTopIff(s.nodes, y);
      IsTopIff(st.nodes, y);
    }
  }

  /** One removeChild changes no node's own content (name, attributes, payload): only child lists. */
  lemma DetachContent(st: State, c: NodeId)
    requires Valid(st) && Has(st, c) && !IsTop(st.nodes, c)
    ensures Detach(st, c).Ok? && forall y :: Has(Detach(st, c).value, y) <==> Has(st, y)
    ensures forall y :: Has(st, y) ==>
      Transfer.CloneSource(Get(Detach(st, c).value, y), false) == Transfer.CloneSource(Get(st, y), false)
  {
    DetachSpec(st, c);
    var s := Detach(st, c).value;
    forall y | Has(st, y)
      ensures Transfer.CloneSource(Get(s, y), false) == Transfer.CloneSource(Get(st, y), false)
    {
      if y != c && y in Ids(Get(st, c)) {
        GetBelow(st, c, y);
        GetBelow(s, c, y);
      } else if y != c && c in Ids(Get(st, y)) {
        IdsHead(Get(st, y));
      }
    }
  }

  /** One removeChild takes exactly the node's subtree out of the document tree. */
  lemma DetachAttached(st: State, c: NodeId)
    requires Valid(st) && Has(st, c) && !IsTop(st.nodes, c)
    ensures Detach(st, c).Ok?
    ensures forall y :: y in Attached(Detach(st, c).value) <==> y in Attached(st) && y !in Ids(Get(st, c))
  {
    DetachSpec(st, c);
    var d := st.nodes[0];
    assert d.id != c;
    PruneHead(st.nodes, c);
    assert Detach(st, c).value.nodes[0] == Prune(st.nodes, c)[0];
    if c in Ids(d) {
      PrunedTree(st, c);
    } else {
      DetachedOutside(st, c);
    }
  }

  /** The document tree without a node inside it holds the rest of the tree. */
  lemma PrunedTree(st: State, c: NodeId)
    requires Valid(st) && Has(st, c) && c in Ids(st.nodes[0]) && st.nodes[0].id != c
    ensures forall y :: y in Ids(PruneIn(st.nodes[0], c)) <==> y in Ids(st.nodes[0]) && y !in Ids(Get(st, c))
  {
    var d := st.nodes[0];
    UniqueParts(st.nodes);
    assert UniqueNode(d);
    FindInIffIn(d, c);
    assert Find(st.nodes, c) == FindIn(d, c);
    var C := Get(st, c);
    assert FindIn(d, c) == Some(C);
    PruneInBag(d, c);
    var a, b := multiset(Ids(PruneIn(d, c))), multiset(Ids(C));
    assert a + b == multiset(Ids(d));
    BagSplitIn(a, b, multiset(Ids(d)));
    forall y
      ensures y in Ids(PruneIn(d, c)) <==> y in Ids(d) && y !in Ids(C)
    {
      assert y in Ids(PruneIn(d, c)) <==> y in a;
      assert y in Ids(d) <==> y in multiset(Ids(d));
      assert y in Ids(C) <==> y in b;
    }
  }

  /** The roots of a forest, as a set. */
  function Tops(st: State): set<NodeId>
  {
    set y | y in IdsOf(st.nodes) && IsTop(st.nodes, y)
  }

  /**
   * Detaching the matches, one after the other, keeps the document valid and its nodes. It
   * succeeds exactly when every match has a parent at the start; then the matches, and nothing
   * else, become new detached roots, every node keeps its own content, and no match stays in
   * the document tree, which only loses nodes.
   */
  lemma {:induction false} DetachAllSpec(st: State, hits: seq<NodeId>)
    requires Valid(st) && forall i :: 0 <= i < |hits| ==> Has(st, hits[i])
    requires forall i, j :: 0 <= i < j < |hits| ==> hits[i] != hits[j]
    ensures var r := DetachAll(st, hits); Valid(r.st) && forall y :: Has(r.st, y) <==> Has(st, y)
    ensures DetachAll(st, hits).out.Ok? <==> forall i :: 0 <= i < |hits| ==> !IsTop(st.nodes, hits[i])
    ensures DetachAll(st, hits).out.Fail? ==> DetachAll(st, hits).out.error == NULL_POINTER
    ensures DetachAll(st, hits).out.Ok? ==>
      var r := DetachAll(st, hits).st;
      (forall y :: IsTop(r.nodes, y) <==> IsTop(st.nodes, y) || y in hits)
      && (forall y :: Has(st, y) ==> Transfer.CloneSource(Get(r, y), false) == Transfer.CloneSource(Get(st, y), false))
      && (forall y :: y in Attached(r) ==> y in Attached(st) && y !in hits)
    decreases |hits|
  {
    DetachAllKeeps(st, hits);
    DetachAllOutcome(st, hits);
    DetachAllTops(st, hits);
    DetachAllContent(st, hits);
    DetachAllAttached(st, hits);
  }

  /** The loop keeps the document valid, with the same nodes. */
  lemma {:induction false} DetachAllKeeps(st: State, hits: seq<NodeId>)
    requires Valid(st) && forall i :: 0 <= i < |hits| ==> Has(st, hits[i])
    ensures var r := DetachAll(st, hits); Valid(r.st) && forall y :: Has(r.st, y) <==> Has(st, y)
    decreases |hits|
  {
    if hits != [] && !IsTop(st.nodes, hits[0]) {
      var s := Detach(st, hits[0]).value;
      assert Valid(s) && forall y :: Has(s, y) <==> Has(st, y) by {
        DetachContent(st, hits[0]);
        DetachTops(st, hits[0]);
      }
      DetachAllKeeps(s, hits[1..]);
    }
  }

  /** The first match that is already a detached root stops the loop with a NullPointerException. */
  lemma {:induction false} DetachAllOutcome(st: State, hits: seq<NodeId>)
    requires Valid(st) && forall i :: 0 <= i < |hits| ==> Has(st, hits[i])
    requires forall i, j :: 0 <= i < j < |hits| ==> hits[i] != hits[j]
    ensures DetachAll(st, hits).out.Ok? <==> forall i :: 0 <= i < |hits| ==> !IsTop(st.nodes, hits[i])
    ensures DetachAll(st, hits).out.Fail? ==> DetachAll(st, hits).out.error == NULL_POINTER
    decreases |hits|
  {
    if hits != [] && !IsTop(st.nodes, hits[0]) {
      var s := Detach(st, hits[0]).value;
      var rest := hits[1..];
      assert Valid(s) && forall y :: Has(s, y) <==> Has(st, y) by {
        DetachContent(st, hits[0]);
        DetachTops(st, hits[0]);
      }
      assert forall y :: IsTop(s.nodes, y) <==> IsTop(st.nodes, y) || y == hits[0] by {
        DetachTops(st, hits[0]);
      }
      DetachAllOutcome(s, rest);
      forall i | 1 <= i < |hits|
        ensures rest[i - 1] == hits[i] && (IsTop(s.nodes, hits[i]) <==> IsTop(st.nodes, hits[i]))
      {
      }
    }
  }

  /** On success the detached roots are the former ones and the matches. */
  lemma {:induction false} DetachAllTops(st: State, hits: seq<NodeId>)
    requires Valid(st) && forall i :: 0 <= i < |hits| ==> Has(st, hits[i])
    ensures DetachAll(st, hits).out.Ok? ==>
      forall y :: IsTop(DetachAll(st, hits).st.nodes, y) <==> IsTop(st.nodes, y) || y in hits
    decreases |hits|
  {
    if hits != [] && !IsTop(st.nodes, hits[0]) {
      var s := Detach(st, hits[0]).value;
      var rest := hits[1..];
      assert Valid(s) && forall y :: Has(s, y) <==> Has(st, y) by {
        DetachContent(st, hits[0]);
        DetachTops(st, hits[0]);
      }
      assert forall y :: IsTop(s.nodes, y) <==> IsTop(st.nodes, y) || y == hits[0] by {
        DetachTops(st, hits[0]);
      }
      DetachAllTops(s, rest);
      assert forall y :: y in hits <==> y == hits[0] || y in rest;
    }
  }

  /** Every node keeps the subtree a clone of it would copy. */
  lemma {:induction false} DetachAllContent(st: State, hits: seq<NodeId>)
    requires Valid(st) && forall i :: 0 <= i < |hits| ==> Has(st, hits[i])
    ensures var r := DetachAll(st, hits).st;
      Valid(r) && (forall y :: Has(st, y) ==> Has(r, y))
      && forall y :: Has(st, y) ==> Transfer.CloneSource(Get(r, y), false) == Transfer.CloneSource(Get(st, y), false)
    decreases |hits|
  {
    DetachAllKeeps(st, hits);
    if hits != [] && !IsTop(st.nodes, hits[0]) {
      var s := Detach(st, hits[0]).value;
      assert Valid(s) && (forall y :: Has(s, y) <==> Has(st, y))
        && forall y :: Has(st, y) ==> Transfer.CloneSource(Get(s, y), false) == Transfer.CloneSource(Get(st, y), false) by {
        DetachContent(st, hits[0]);
        DetachTops(st, hits[0]);
      }
      DetachAllContent(s, hits[1..]);
    }
  }

  /** On success no match is attached to the document tree any more, and nothing joined it. */
  lemma {:induction false} DetachAllAttached(st: State, hits: seq<NodeId>)
    requires Valid(st) && forall i :: 0 <= i < |hits| ==> Has(st, hits[i])
    ensures Valid(DetachAll(st, hits).st) && (DetachAll(st, hits).out.Ok? ==>
      forall y :: y in Attached(DetachAll(st, hits).st) ==> y in Attached(st) && y !in hits)
    decreases |hits|
  {
    DetachAllKeeps(st, hits);
    if hits != [] && !IsTop(st.nodes, hits[0]) {
      var s := Detach(st, hits[0]).value;
      var rest := hits[1..];
      assert Valid(s) && forall y :: Has(s, y) <==> Has(st, y) by {
        DetachContent(st, hits[0]);
        DetachTops(st, hits[0]);
      }
      assert forall y :: y in Attached(s) <==> y in Attached(st) && y !in Ids(Get(st, hits[0])) by {
        DetachAttached(st, hits[0]);
      }
      assert hits[0] in Ids(Get(st, hits[0])) by {
        IdsHead(Get(st, hits[0]));
      }
      DetachAllAttached(s, rest);
      assert forall y :: y in hits <==> y == hits[0] || y in rest;
    }
  }

  /**
   * removeChildrenWithXpath fails exactly when the node is null, the evaluator fails, or some
   * match has no parent (each wrapped as GENERAL_ERROR). With no match it changes nothing and
   * answers null; otherwise it answers the matches, in the evaluator's order, each now detached.
   */
  lemma RemoveMatchesSpec(st: State, root: Option<NodeId>, answer: Outcome<seq<NodeId>>)
    requires Valid(st) && AnswerIn(st, answer)
    ensures var r := RemoveMatches(st, root, answer); Valid(r.st) && forall y :: Has(r.st, y) <==> Has(st, y)
    ensures RemoveMatches(st, root, answer).out.Fail? <==>
      root.None? || answer.Fail? || exists i :: 0 <= i < |answer.value| && IsTop(st.nodes, answer.value[i])
    ensures RemoveMatches(st, root, answer).out.Fail? ==>
      RemoveMatches(st, root, answer).out.error.Checked?
      && RemoveMatches(st, root, answer).out.error.code == X.GENERAL_ERROR
    ensures root.Some? && answer == Ok([]) ==> RemoveMatches(st, root, answer) == Effect(st, Ok(None))
    ensures RemoveMatches(st, root, answer).out.Ok? && RemoveMatches(st, root, answer).out.value.Some? ==>
      var r := RemoveMatches(st, root, answer);
      answer.Ok? && r.out.value.value == answer.value && answer.value != []
      && forall i :: 0 <= i < |answer.value| ==> IsTop(r.st.nodes, answer.value[i]) && answer.value[i] !in Attached(r.st)
  {
    X.CodeTable();
    if root.Some? && answer.Ok? {
      DetachAllSpec(st, answer.value);
    }
  }

  /**
   * removeChildWithXpath: with no match a GENERAL_ERROR (the null answer's NullPointerException,
   * wrapped) and nothing changed; otherwise the first match, when removeChildrenWithXpath succeeds.
   */
  lemma RemoveMatchSpec(st: State, root: Option<NodeId>, answer: Outcome<seq<NodeId>>)
    requires Valid(st) && AnswerIn(st, answer)
    ensures Valid(RemoveMatch(st, root, answer).st)
    ensures RemoveMatch(st, root, answer).out.Ok? <==>
      RemoveMatches(st, root, answer).out.Ok? && RemoveMatches(st, root, answer).out.value.Some?
    ensures RemoveMatch(st, root, answer).out.Fail? ==>
      RemoveMatch(st, root, answer).out.error.Checked? && RemoveMatch(st, root, answer).out.error.code == X.GENERAL_ERROR
    ensures root.Some? && answer == Ok([]) ==>
      RemoveMatch(st, root, answer) == Effect(st, Fail(GeneralError(REMOVE_MATCH, NULL_POINTER)))
    ensures RemoveMatch(st, root, answer).out.Ok? ==>
      answer.Ok? && RemoveMatch(st, root, answer).out.value == answer.value[0]
      && RemoveMatch(st, root, answer).st == RemoveMatches(st, root, answer).st
  {
    X.CodeTable();
    RemoveMatchesSpec(st, root, answer);
  }

  // ---------------------------------------------------------------- selecting again after removal

  /**
   * The answer of a query that looks for nodes of the document tree by their own content (a
   * name and attribute test such as //element[@id='2']), as a set.
   */
  function Matches(st: State, test: Node -> bool): set<NodeId>
    requires Valid(st)
  {
    set y | y in Attached(st) && Has(st, y) && test(Transfer.CloneSource(Get(st, y), false))
  }

  /**
   * After removeChildrenWithXpath of such a query succeeds, the same query finds nothing: every
   * match left the document tree, and no remaining node changed its own content.
   */
  lemma RemovedNotSelectedAgain(st: State, root: NodeId, test: Node -> bool, hits: seq<NodeId>)
    requires Valid(st) && AnswerIn(st, Ok(hits)) && Has(st, root)
    requires forall y :: y in Matches(st, test) <==> y in hits
    requires RemoveMatches(st, Some(root), Ok(hits)).out.Ok?
    ensures Valid(RemoveMatches(st, Some(root), Ok(hits)).st)
    ensures Matches(RemoveMatches(st, Some(root), Ok(hits)).st, test) == {}
  {
    RemoveMatchesSpec(st, Some(root), Ok(hits));
    var r := RemoveMatches(st, Some(root), Ok(hits)).st;
    if hits != [] {
      DetachAllSpec(st, hits);
      assert r == DetachAll(st, hits).st;
      forall y | y in Attached(r) && Has(r, y)
        ensures !test(Transfer.CloneSource(Get(r, y), false))
      {
        assert y in Attached(st) && y !in hits;
      }
    }
  }

  /** One turn of the detaching loop: the first match removed from its parent, or the NullPointerException of a match without one. */
  lemma DetachAllTurn(st: State, hits: seq<NodeId>)
    requires Valid(st) && (forall i :: 0 <= i < |hits| ==> Has(st, hits[i])) && hits != []
    ensures IsTop(st.nodes, hits[0]) ==> DetachAll(st, hits).st == st && DetachAll(st, hits).out == Fail(NULL_POINTER)
    ensures !IsTop(st.nodes, hits[0]) ==>
      Detach(st, hits[0]).Ok?
      && var s := Detach(st, hits[0]).value;
        Valid(s) && (forall y :: Has(s, y) <==> Has(st, y))
        && DetachAll(st, hits).st == DetachAll(s, hits[1..]).st && DetachAll(st, hits).out == DetachAll(s, hits[1..]).out
  {
    if !IsTop(st.nodes, hits[0]) {
      DetachSpec(st, hits[0]);
    }
  }
}
