/**
 * A W3C DOM Level 2 Core document, as Xerces implements the calls the facade makes on it.
 *
 * The state is a forest: its first tree is the document node with everything attached to it;
 * the other trees are nodes the document has created, or that were removed or replaced, and
 * that are attached nowhere (section 1.1.1 of DOM Level 2 Core: every node belongs to the
 * document that created it, attached or not). Identifiers are unique across the forest and
 * below `next`, the identifier the next created node takes.
 */
module Dom {
  import opened Wrappers
  import opened Throwables
  import opened DomTree

  datatype State = State(nodes: seq<Node>, next: nat)

  /** DOMException with code HIERARCHY_REQUEST_ERR (section 1.2 of DOM Level 2 Core). */
  const HIERARCHY_REQUEST_ERR: Throwable := JavaRuntime("org.w3c.dom.DOMException: HIERARCHY_REQUEST_ERR")

  /** DOMException with code NOT_FOUND_ERR. */
  const NOT_FOUND_ERR: Throwable := JavaRuntime("org.w3c.dom.DOMException: NOT_FOUND_ERR")

  /** A new document (DocumentBuilder.newDocument(), new DocumentImpl()): the document node alone. */
  const EMPTY: State := State([DocRoot(0, [])], 1)

  /** The document node comes first, no identifier occurs twice, and all are below `next`. */
  ghost predicate Valid(st: State)
  {
    |st.nodes| > 0 && st.nodes[0].DocRoot? && Unique(st.nodes)
    && forall y :: y in IdsOf(st.nodes) ==> y < st.next
  }

  /** The node x belongs to the document. */
  predicate Has(st: State, x: NodeId)
  {
    x in IdsOf(st.nodes)
  }

  /** The node x, with its subtree. */
  function Get(st: State, x: NodeId): (r: Node)
    requires Has(st, x)
    ensures r.id == x
  {
    FindIffIn(st.nodes, x);
    Find(st.nodes, x).value
  }

  /** Neither node lies inside the other's subtree. */
  predicate Apart(st: State, x: NodeId, y: NodeId)
    requires Has(st, x) && Has(st, y)
  {
    x !in Ids(Get(st, y)) && y !in Ids(Get(st, x))
  }

  /** The first element of a child list: for a document node, getDocumentElement(). */
  function FirstElement(cs: seq<Node>): (r: Option<Node>)
    ensures r.Some? ==> r.value.Element? && r.value in cs
    ensures r.None? ==> forall i :: 0 <= i < |cs| ==> !cs[i].Element?
    decreases cs
  {
    if cs == [] then None
    else if cs[0].Element? then Some(cs[0])
    else FirstElement(cs[1..])
  }

  /** The element child of the document node, if any. */
  function DocElement(st: State): Option<NodeId>
    requires |st.nodes| > 0
  {
    match FirstElement(Kids(st.nodes[0]))
    case None => None
    case Some(e) => Some(e.id)
  }

  lemma EmptyValid()
    ensures Valid(EMPTY) && DocElement(EMPTY).None?
  {
    assert IdsOf(EMPTY.nodes) == [0] by {
      IdsOfSingle(DocRoot(0, []));
    }
  }

  // ---------------------------------------------------------------- creating nodes

  /** A subtree the document has just made, attached nowhere; `next` moves past its identifiers. */
  function Adopt(st: State, t: Node, next: nat): State
  {
    State(st.nodes + [t], next)
  }

  /** createElement(tag): a new element, attached nowhere, with identifier st.next. */
  function CreateElement(st: State, tag: string): State
  {
    Adopt(st, Element(st.next, tag, [], []), st.next + 1)
  }

  /** createTextNode(value) */
  function CreateText(st: State, value: string): State
  {
    Adopt(st, Text(st.next, Some(value)), st.next + 1)
  }

  /** createCDATASection(value) */
  function CreateCData(st: State, value: string): State
  {
    Adopt(st, CData(st.next, value), st.next + 1)
  }

  /** Adopting a subtree with fresh identifiers keeps the document valid, finds the subtree and changes no other node. */
  lemma AdoptSpec(st: State, t: Node, next: nat)
    requires Valid(st) && UniqueNode(t)
    requires forall y :: y in Ids(t) ==> st.next <= y < next
    ensures Valid(Adopt(st, t, next)) && Adopt(st, t, next).next >= st.next
    ensures Has(Adopt(st, t, next), t.id) && Get(Adopt(st, t, next), t.id) == t
    ensures IsTop(Adopt(st, t, next).nodes, t.id)
    ensures forall y :: Has(st, y) ==> Has(Adopt(st, t, next), y) && Get(Adopt(st, t, next), y) == Get(st, y)
    ensures Bag(Adopt(st, t, next).nodes) == Bag(st.nodes) + multiset(Ids(t))
  {
    var r := Adopt(st, t, next);
    IdsHead(t);
    IdsOfConcat(st.nodes, [t]);
    IdsOfSingle(t);
    UniqueAppend(st.nodes, t);
    assert (r.nodes)[0] == st.nodes[0];
    FindAppend(st.nodes, t, t.id);
    FindInIffIn(t, t.id);
    IsTopAppend(st.nodes, t);
    forall y | Has(st, y)
      ensures Has(r, y) && Get(r, y) == Get(st, y)
    {
      FindAppend(st.nodes, t, y);
    }
  }

  /** A node made by createElement, createTextNode or createCDATASection is fresh: the adoption rules apply. */
  lemma CreateSpec(st: State, t: Node)
    requires Valid(st) && t.id == st.next && Ids(t) == [st.next]
    ensures Valid(Adopt(st, t, st.next + 1))
    ensures Has(Adopt(st, t, st.next + 1), t.id) && Get(Adopt(st, t, st.next + 1), t.id) == t
    ensures IsTop(Adopt(st, t, st.next + 1).nodes, t.id)
    ensures forall y :: Has(st, y) ==> Has(Adopt(st, t, st.next + 1), y) && Get(Adopt(st, t, st.next + 1), y) == Get(st, y)
  {
    assert NoDup(multiset(Ids(t))) by {
      assert multiset(Ids(t)) == multiset{st.next};
    }
    AdoptSpec(st, t, st.next + 1);
  }

  // ---------------------------------------------------------------- attached or not

  /** The node x is the root of one of the forest's trees: it has no parent. */
  predicate IsTop(s: seq<Node>, x: NodeId)
    decreases s
  {
    s != [] && (s[0].id == x || (x !in Ids(s[0]) && IsTop(s[1..], x)))
  }

  lemma {:induction false} IsTopAppend(s: seq<Node>, t: Node)
    requires t.id !in IdsOf(s)
    ensures IsTop(s + [t], t.id)
    decreases s
  {
    if s == [] {
      assert (s + [t])[0] == t;
    } else {
      assert (s + [t])[0] == s[0] && (s + [t])[1..] == s[1..] + [t];
      IdsHead(s[0]);
      IsTopAppend(s[1..], t);
    }
  }

  /** getParentNode().removeChild(c): the parent loses c, which stays in the document attached nowhere; a node with no parent gives a NullPointerException. */
  function Detach(st: State, c: NodeId): Outcome<State>
    requires Has(st, c)
  {
    if IsTop(st.nodes, c) then Fail(NULL_POINTER)
    else Ok(State(Prune(st.nodes, c) + [Get(st, c)], st.next))
  }

  // ---------------------------------------------------------------- appendChild

  /** Which child a node accepts (Xerces' isKidOK, and the document's rule of one element child). */
  predicate KidAllowed(p: Node, c: Node)
  {
    match p
    case DocRoot(_, cs) => (c.Element? && FirstElement(cs).None?) || c.Comment? || c.Instruction?
    case Element(_, _, _, _) => !c.DocRoot?
    case _ => false
  }

  /**
   * p.appendChild(c): c leaves its place, if it has one, and becomes p's last child.
   * HIERARCHY_REQUEST_ERR when p does not accept c or c is p or one of its ancestors.
   */
  function AppendChild(st: State, p: NodeId, c: NodeId): Outcome<State>
    requires Valid(st) && Has(st, p) && Has(st, c)
  {
    if KidAllowed(Get(st, p), Get(st, c)) && p !in Ids(Get(st, c)) then Ok(Move(st, p, c))
    else Fail(HIERARCHY_REQUEST_ERR)
  }

  /** The tree surgery of a successful appendChild. */
  function Move(st: State, p: NodeId, c: NodeId): State
    requires Valid(st) && Has(st, p) && Has(st, c)
    requires p !in Ids(Get(st, c)) && HasChildList(Get(st, p)) && !Get(st, c).DocRoot?
  {
    MovePrep(st, p, c);
    var s1 := Prune(st.nodes, c);
    var p1 := Find(s1, p).value;
    State(Replace(s1, p, WithKids(p1, Kids(p1) + [Get(st, c)])), st.next)
  }

  /** The multiset of the identifiers of a found subtree lies within the forest's. */
  lemma FindSubBag(s: seq<Node>, x: NodeId)
    requires x in IdsOf(s)
    ensures Find(s, x).Some? && multiset(Ids(Find(s, x).value)) <= Bag(s)
  {
    PruneBag(s, x);
  }

  lemma MovePrep(st: State, p: NodeId, c: NodeId)
    requires Valid(st) && Has(st, p) && Has(st, c)
    requires p !in Ids(Get(st, c)) && HasChildList(Get(st, p)) && !Get(st, c).DocRoot?
    ensures Unique(Prune(st.nodes, c)) && c !in IdsOf(Prune(st.nodes, c))
    ensures Find(Prune(st.nodes, c), p).Some?
    ensures HasChildList(Find(Prune(st.nodes, c), p).value) && Find(Prune(st.nodes, c), p).value.id == p
    ensures c !in Ids(Get(st, p)) ==> Find(Prune(st.nodes, c), p).value == Get(st, p)
    ensures c in Ids(Get(st, p)) ==> Find(Prune(st.nodes, c), p).value == PruneIn(Get(st, p), c)
  {
    var s1 := Prune(st.nodes, c);
    FindIffIn(st.nodes, p);
    FindIffIn(st.nodes, c);
    PruneUnique(st.nodes, c);
    FindIffIn(s1, p);
    IdsHead(Get(st, c));
    if c in Ids(Get(st, p)) {
      PruneFindAncestor(st.nodes, p, c);
    } else {
      PruneFindOther(st.nodes, p, c);
    }
  }

  /** The identifiers of a node given one more last child. */
  lemma IdsAppendKid(p: Node, c: Node)
    requires HasChildList(p)
    ensures multiset(Ids(WithKids(p, Kids(p) + [c]))) == multiset(Ids(p)) + multiset(Ids(c))
    ensures c.id in Ids(WithKids(p, Kids(p) + [c]))
  {
    IdsWithKids(p, Kids(p) + [c]);
    IdsOfConcat(Kids(p), [c]);
    IdsOfSingle(c);
    IdsHead(c);
  }

  /** A move keeps the multiset of identifiers: nothing is lost and nothing is made. */
  lemma MoveBag(st: State, p: NodeId, c: NodeId)
    requires Valid(st) && Has(st, p) && Has(st, c)
    requires p !in Ids(Get(st, c)) && HasChildList(Get(st, p)) && !Get(st, c).DocRoot?
    ensures Bag(Move(st, p, c).nodes) == Bag(st.nodes)
  {
    MovePrep(st, p, c);
    var C := Get(st, c);
    var s1 := Prune(st.nodes, c);
    var p1 := Find(s1, p).value;
    var p2 := WithKids(p1, Kids(p1) + [C]);
    var s2 := Replace(s1, p, p2);
    FindIffIn(s1, p);
    FindIffIn(st.nodes, c);
    PruneBag(st.nodes, c);
    ReplaceBag(s1, p, p2);
    IdsAppendKid(p1, C);
    var b2, b1, bp, bc := Bag(s2), Bag(s1), multiset(Ids(p1)), multiset(Ids(C));
    assert b2 + bp == b1 + (bp + bc);
    assert b2 + bp == (b1 + bc) + bp;
    CancelRight(b2, bp, b1 + bc);
  }

  /** A move keeps the document valid, and the document node stays first. */
  lemma MoveValid(st: State, p: NodeId, c: NodeId)
    requires Valid(st) && Has(st, p) && Has(st, c)
    requires p !in Ids(Get(st, c)) && HasChildList(Get(st, p)) && !Get(st, c).DocRoot?
    ensures Valid(Move(st, p, c)) && Move(st, p, c).next == st.next
    ensures forall y :: Has(Move(st, p, c), y) <==> Has(st, y)
  {
    MovePrep(st, p, c);
    MoveBag(st, p, c);
    var C := Get(st, c);
    var s1 := Prune(st.nodes, c);
    var p1 := Find(s1, p).value;
    var p2 := WithKids(p1, Kids(p1) + [C]);
    var s2 := Replace(s1, p, p2);
    FindIffIn(st.nodes, c);
    assert c != st.nodes[0].id by {
      assert FindIn(st.nodes[0], st.nodes[0].id) == Some(st.nodes[0]);
    }
    PruneHead(st.nodes, c);
    ReplaceHead(s1, p, p2);
    if p in Ids(s1[0]) && s1[0].id == p {
      assert FindIn(s1[0], p) == Some(s1[0]);
    }
    forall y
      ensures y in IdsOf(s2) <==> y in IdsOf(st.nodes)
    {
      assert y in IdsOf(s2) <==> y in Bag(s2);
      assert y in IdsOf(st.nodes) <==> y in Bag(st.nodes);
    }
  }

  /** After a move, the moved subtree is intact and is the parent's last child. */
  lemma MovePlaces(st: State, p: NodeId, c: NodeId)
    requires Valid(st) && Has(st, p) && Has(st, c)
    requires p !in Ids(Get(st, c)) && HasChildList(Get(st, p)) && !Get(st, c).DocRoot?
    ensures Valid(Move(st, p, c))
    ensures Has(Move(st, p, c), c) && Get(Move(st, p, c), c) == Get(st, c)
    ensures !IsTop(Move(st, p, c).nodes, c)
    ensures Has(Move(st, p, c), p) && HasChildList(Get(Move(st, p, c), p))
    ensures Kids(Get(Move(st, p, c), p)) != [] && Kids(Get(Move(st, p, c), p))[|Kids(Get(Move(st, p, c), p))| - 1] == Get(st, c)
    ensures c !in Ids(Get(st, p)) ==> Get(Move(st, p, c), p) == WithKids(Get(st, p), Kids(Get(st, p)) + [Get(st, c)])
  {
    MovePrep(st, p, c);
    MoveValid(st, p, c);
    var C := Get(st, c);
    var s1 := Prune(st.nodes, c);
    var p1 := Find(s1, p).value;
    var p2 := WithKids(p1, Kids(p1) + [C]);
    var s2 := Replace(s1, p, p2);
    FindIffIn(s1, p);
    ReplaceFindSelf(s1, p, p2);
    FoundOccurs(s2, p);
    assert Kids(p2)[|Kids(p1)|] == C;
    ChildOccurs(p2, |Kids(p1)|);
    OccursTrans(s2, p2, C);
    FindOccurring(s2, C);
    IdsHead(C);
    IdsAppendKid(p1, C);
    assert c != p;
    NotTopInside(s2, p2, c);
  }

  /** A move leaves alone every node apart from both the parent and the moved node. */
  lemma MoveOthers(st: State, p: NodeId, c: NodeId, y: NodeId)
    requires Valid(st) && Has(st, p) && Has(st, c)
    requires p !in Ids(Get(st, c)) && HasChildList(Get(st, p)) && !Get(st, c).DocRoot?
    requires Has(st, y) && Apart(st, y, p) && Apart(st, y, c)
    ensures Has(Move(st, p, c), y) && Get(Move(st, p, c), y) == Get(st, y)
  {
    MovePrep(st, p, c);
    MoveValid(st, p, c);
    var C := Get(st, c);
    var s1 := Prune(st.nodes, c);
    var p1 := Find(s1, p).value;
    var p2 := WithKids(p1, Kids(p1) + [C]);
    FindIffIn(st.nodes, y);
    FindIffIn(st.nodes, c);
    FindIffIn(s1, p);
    PruneFindOther(st.nodes, y, c);
    IdsAppendKid(p1, C);
    assert y !in multiset(Ids(p1)) by {
      if c in Ids(Get(st, p)) {
        IdsHead(Get(st, p));
        PruneInBag(Get(st, p), c);
        assert y !in multiset(Ids(Get(st, p)));
      }
    }
    assert y !in multiset(Ids(p2));
    ReplaceFindOther(s1, y, p, p2);
  }

  /**
   * A move keeps the document valid and keeps its identifiers. The moved subtree is intact and
   * is the parent's last child, and a node apart from both is untouched.
   */
  lemma MoveSpec(st: State, p: NodeId, c: NodeId)
    requires Valid(st) && Has(st, p) && Has(st, c)
    requires p !in Ids(Get(st, c)) && HasChildList(Get(st, p)) && !Get(st, c).DocRoot?
    ensures Valid(Move(st, p, c)) && Move(st, p, c).next == st.next
    ensures Bag(Move(st, p, c).nodes) == Bag(st.nodes)
    ensures forall y :: Has(Move(st, p, c), y) <==> Has(st, y)
    ensures Get(Move(st, p, c), c) == Get(st, c) && !IsTop(Move(st, p, c).nodes, c)
    ensures HasChildList(Get(Move(st, p, c), p)) && Kids(Get(Move(st, p, c), p)) != []
    ensures Kids(Get(Move(st, p, c), p))[|Kids(Get(Move(st, p, c), p))| - 1] == Get(st, c)
    ensures c !in Ids(Get(st, p)) ==> Get(Move(st, p, c), p) == WithKids(Get(st, p), Kids(Get(st, p)) + [Get(st, c)])
    ensures forall y :: Has(st, y) && Apart(st, y, p) && Apart(st, y, c) ==> Get(Move(st, p, c), y) == Get(st, y)
  {
    MoveBag(st, p, c);
    MoveValid(st, p, c);
    MovePlaces(st, p, c);
    forall y | Has(st, y) && Apart(st, y, p) && Apart(st, y, c)
      ensures Get(Move(st, p, c), y) == Get(st, y)
    {
      MoveOthers(st, p, c, y);
    }
  }

  /** A node strictly inside a tree of a unique forest is not a root of the forest. */
  lemma {:induction false} NotTopInside(s: seq<Node>, t: Node, x: NodeId)
    requires Unique(s) && Occurs(s, t) && x in Ids(t) && x != t.id
    ensures !IsTop(s, x)
    decreases s
  {
    UniqueParts(s);
    if OccursIn(s[0], t) {
      if s[0] != t {
        assert Occurs(Kids(s[0]), t);
        OccursIdsSub(Kids(s[0]), t, x);
        UniqueKids(s[0]);
      }
    } else {
      OccursIdsSub(s[1..], t, x);
      NotTopInside(s[1..], t, x);
    }
  }

  lemma PruneHead(s: seq<Node>, x: NodeId)
    requires s != [] && s[0].id != x
    ensures Prune(s, x) != [] && Prune(s, x)[0] == if x in Ids(s[0]) then PruneIn(s[0], x) else s[0]
  {
  }

  // ---------------------------------------------------------------- removeChild

  /** The identifiers of a child list: the roots, in order. */
  function TopIds(cs: seq<Node>): (r: seq<NodeId>)
    ensures |r| == |cs|
    ensures forall i :: 0 <= i < |cs| ==> r[i] == cs[i].id
  {
    seq(|cs|, i requires 0 <= i < |cs| => cs[i].id)
  }

  /** Detaching keeps the document valid and its identifiers; the subtree is intact and has no parent any more. */
  lemma DetachSpec(st: State, c: NodeId)
    requires Valid(st) && Has(st, c) && !IsTop(st.nodes, c)
    ensures Detach(st, c).Ok?
    ensures Valid(Detach(st, c).value) && Detach(st, c).value.next == st.next
    ensures Bag(Detach(st, c).value.nodes) == Bag(st.nodes)
    ensures forall y :: Has(Detach(st, c).value, y) <==> Has(st, y)
    ensures Get(Detach(st, c).value, c) == Get(st, c) && IsTop(Detach(st, c).value.nodes, c)
    ensures forall y :: Has(st, y) && Apart(st, y, c) ==> Get(Detach(st, c).value, y) == Get(st, y)
    ensures forall y :: Has(st, y) && y != c && c in Ids(Get(st, y)) ==> Get(Detach(st, c).value, y) == PruneIn(Get(st, y), c)
  {
    var C := Get(st, c);
    var s1 := Prune(st.nodes, c);
    var r := s1 + [C];
    FindIffIn(st.nodes, c);
    PruneUnique(st.nodes, c);
    PruneBag(st.nodes, c);
    IdsOfConcat(s1, [C]);
    IdsOfSingle(C);
    assert Bag(r) == Bag(s1) + multiset(Ids(C));
    PruneHead(st.nodes, c);
    assert r[0] == s1[0];
    forall y
      ensures y in IdsOf(r) <==> y in IdsOf(st.nodes)
    {
      assert y in IdsOf(r) <==> y in Bag(r);
      assert y in IdsOf(st.nodes) <==> y in Bag(st.nodes);
    }
    FindAppend(s1, C, c);
    IsTopAppend(s1, C);
    forall y | Has(st, y) && Apart(st, y, c)
      ensures Get(Detach(st, c).value, y) == Get(st, y)
    {
      FindIffIn(st.nodes, y);
      IdsHead(Get(st, y));
      PruneFindOther(st.nodes, y, c);
      FindAppend(s1, C, y);
    }
    forall y | Has(st, y) && y != c && c in Ids(Get(st, y))
      ensures Get(Detach(st, c).value, y) == PruneIn(Get(st, y), c)
    {
      FindIffIn(st.nodes, y);
      PruneFindAncestor(st.nodes, y, c);
      FindIffIn(s1, y);
      FindAppend(s1, C, y);
    }
  }

  /** Pruning a root of a child list takes exactly that entry out. */
  lemma {:induction false} PruneTop(cs: seq<Node>, c: NodeId, i: nat)
    requires i < |cs| && cs[i].id == c
    requires forall j :: 0 <= j < i ==> c !in Ids(cs[j])
    ensures Prune(cs, c) == cs[..i] + cs[i + 1..]
    decreases cs
  {
    if i == 0 {
      assert Prune(cs, c) == cs[1..];
    } else {
      var t := cs[1..];
      IdsHead(cs[0]);
      assert c !in Ids(cs[0]);
      assert Prune(cs, c) == [cs[0]] + Prune(t, c);
      forall j | 0 <= j < i - 1
        ensures c !in Ids(t[j])
      {
        assert t[j] == cs[j + 1];
      }
      PruneTop(t, c, i - 1);
      assert cs[..i] == [cs[0]] + t[..i - 1];
      assert cs[i + 1..] == t[i..];
    }
  }

  /** The roots of a forest are among its identifiers. */
  lemma TopInIds(cs: seq<Node>, c: NodeId)
    requires c in TopIds(cs)
    ensures c in IdsOf(cs)
  {
    var i :| 0 <= i < |cs| && TopIds(cs)[i] == c;
    OccursAt(cs, i);
    IdsHead(cs[i]);
    OccursIdsSub(cs, cs[i], c);
  }

  // ---------------------------------------------------------------- getParentNode

  /** The parent of c in a tree: the first node whose child list holds c. */
  function ParentIn(n: Node, c: NodeId): Option<Node>
    decreases n
  {
    match n
    case Element(_, _, _, cs) => if c in TopIds(cs) then Some(n) else ParentAmong(cs, c)
    case DocRoot(_, cs) => if c in TopIds(cs) then Some(n) else ParentAmong(cs, c)
    case _ => None
  }

  function ParentAmong(s: seq<Node>, c: NodeId): Option<Node>
    decreases s
  {
    if s == [] then None
    else match ParentIn(s[0], c)
      case Some(p) => Some(p)
      case None => ParentAmong(s[1..], c)
  }

  /** getParentNode(): the identifier of the node whose child c is, or None for a node attached nowhere. */
  function ParentOf(st: State, c: NodeId): Option<NodeId>
  {
    match ParentAmong(st.nodes, c)
    case None => None
    case Some(p) => Some(p.id)
  }

  lemma {:induction false} ParentInSound(n: Node, c: NodeId)
    requires ParentIn(n, c).Some?
    ensures OccursIn(n, ParentIn(n, c).value) && c in KidIds(ParentIn(n, c).value)
    ensures c in Ids(n) && (c != n.id || !UniqueNode(n))
    decreases n
  {
    match n
    case Element(_, _, _, cs) =>
      if c !in TopIds(cs) {
        ParentAmongSound(cs, c);
      }
      ParentAmongInside(n, cs, c);
    case DocRoot(_, cs) =>
      if c !in TopIds(cs) {
        ParentAmongSound(cs, c);
      }
      ParentAmongInside(n, cs, c);
  }

  lemma ParentAmongInside(n: Node, cs: seq<Node>, c: NodeId)
    requires HasChildList(n) && cs == Kids(n)
    requires c in TopIds(cs) || c in IdsOf(cs)
    ensures c in Ids(n) && (c != n.id || !UniqueNode(n))
  {
    if c in TopIds(cs) {
      var i :| 0 <= i < |cs| && TopIds(cs)[i] == c;
      OccursAt(cs, i);
      IdsHead(cs[i]);
      OccursIdsSub(cs, cs[i], c);
    }
    IdsWithKids(n, cs);
    if UniqueNode(n) {
      UniqueKids(n);
    }
  }

  lemma {:induction false} ParentAmongSound(s: seq<Node>, c: NodeId)
    requires ParentAmong(s, c).Some?
    ensures Occurs(s, ParentAmong(s, c).value) && c in KidIds(ParentAmong(s, c).value)
    ensures c in IdsOf(s)
    decreases s
  {
    if ParentIn(s[0], c).Some? {
      ParentInSound(s[0], c);
      var p := ParentIn(s[0], c).value;
      IdsHead(p);
      assert c in Ids(p) by {
        var i :| 0 <= i < |KidIds(p)| && KidIds(p)[i] == c;
        ChildOccurs(p, i);
        IdsHead(Kids(p)[i]);
        OccursInIdsSub(p, Kids(p)[i], c);
      }
      OccursInIdsSub(s[0], p, c);
    } else {
      ParentAmongSound(s[1..], c);
    }
  }

  /** In a unique tree, a node other than the root has a parent. */
  lemma {:induction false} ParentInComplete(n: Node, c: NodeId)
    requires UniqueNode(n) && c in Ids(n)
    ensures ParentIn(n, c).None? <==> n.id == c
    decreases n
  {
    UniqueKids(n);
    IdsHead(n);
    match n
    case Element(_, _, _, cs) =>
      ParentAmongComplete(cs, c);
      ParentKidTop(cs, c);
      if c in TopIds(cs) {
        TopInIds(cs, c);
      }
    case DocRoot(_, cs) =>
      ParentAmongComplete(cs, c);
      ParentKidTop(cs, c);
      if c in TopIds(cs) {
        TopInIds(cs, c);
      }
    case _ =>
  }

  /** In a child list, a node is a root exactly when its identifier is one of the roots'. */
  lemma {:induction false} ParentKidTop(cs: seq<Node>, c: NodeId)
    ensures IsTop(cs, c) ==> c in TopIds(cs)
    decreases cs
  {
    if cs != [] && cs[0].id != c && IsTop(cs, c) {
      ParentKidTop(cs[1..], c);
      var i :| 0 <= i < |cs[1..]| && TopIds(cs[1..])[i] == c;
      assert TopIds(cs)[i + 1] == c;
    }
  }

  /** In a unique forest, a node has no parent exactly when it is a root of the forest. */
  lemma {:induction false} ParentAmongComplete(s: seq<Node>, c: NodeId)
    requires Unique(s)
    ensures c in IdsOf(s) ==> (ParentAmong(s, c).None? <==> IsTop(s, c))
    ensures c !in IdsOf(s) ==> ParentAmong(s, c).None?
    decreases s
  {
    if s != [] {
      UniqueParts(s);
      if ParentIn(s[0], c).Some? {
        ParentInSound(s[0], c);
      }
      if ParentAmong(s[1..], c).Some? {
        ParentAmongSound(s[1..], c);
      }
      ParentAmongComplete(s[1..], c);
      if c in Ids(s[0]) {
        ParentInComplete(s[0], c);
      }
    }
  }

  /** getParentNode() finds the node whose child c is, and finds none exactly for a node attached nowhere. */
  lemma ParentOfSpec(st: State, c: NodeId)
    requires Valid(st) && Has(st, c)
    ensures ParentOf(st, c).None? <==> IsTop(st.nodes, c)
    ensures ParentOf(st, c).Some? ==> Has(st, ParentOf(st, c).value) && c in KidIds(Get(st, ParentOf(st, c).value))
  {
    ParentAmongComplete(st.nodes, c);
    if ParentAmong(st.nodes, c).Some? {
      ParentAmongSound(st.nodes, c);
      var p := ParentAmong(st.nodes, c).value;
      OccursHasId(st.nodes, p);
      FindOccurring(st.nodes, p);
    }
  }

  // ---------------------------------------------------------------- replaceChild

  /** The kinds of child a node takes (Xerces' isKidOK). */
  predicate KindAccepts(p: Node, c: Node)
  {
    match p
    case DocRoot(_, _) => c.Element? || c.Comment? || c.Instruction?
    case Element(_, _, _, _) => !c.DocRoot?
    case _ => false
  }

  /** The position of the first root with identifier c. */
  function Position(cs: seq<Node>, c: NodeId): (i: nat)
    requires c in TopIds(cs)
    ensures i < |cs| && cs[i].id == c
    ensures forall j :: 0 <= j < i ==> cs[j].id != c
    decreases cs
  {
    if cs[0].id == c then 0
    else
      assert c in TopIds(cs[1..]) by {
        var k :| 0 <= k < |cs| && TopIds(cs)[k] == c;
        assert TopIds(cs[1..])[k - 1] == c;
      }
      1 + Position(cs[1..], c)
  }

  /**
   * p.replaceChild(n, o): n leaves its place and takes o's, and o stays in the document attached
   * nowhere. HIERARCHY_REQUEST_ERR when n would be a second element of the document node, when p
   * does not take n's kind, or when n is p or one of its ancestors; NOT_FOUND_ERR when o is not a
   * child of p; nothing changes when n is o.
   */
  function ReplaceChild(st: State, p: NodeId, n: NodeId, o: NodeId): Outcome<State>
    requires Valid(st) && Has(st, p) && Has(st, n) && Has(st, o)
  {
    var P, N, O := Get(st, p), Get(st, n), Get(st, o);
    if P.DocRoot? && FirstElement(P.children).Some? && !O.Element? && N.Element? then Fail(HIERARCHY_REQUEST_ERR)
    else if !KindAccepts(P, N) then Fail(HIERARCHY_REQUEST_ERR)
    else if o !in KidIds(P) then Fail(NOT_FOUND_ERR)
    else if p in Ids(N) then Fail(HIERARCHY_REQUEST_ERR)
    else if n == o then Ok(st)
    else Ok(Swap(st, p, n, o))
  }

  /** The tree surgery of a successful replaceChild with two different nodes. */
  function Swap(st: State, p: NodeId, n: NodeId, o: NodeId): State
    requires Valid(st) && Has(st, p) && Has(st, n) && Has(st, o)
    requires p !in Ids(Get(st, n)) && o in KidIds(Get(st, p)) && n != o && !Get(st, n).DocRoot?
  {
    SwapPrep(st, p, n, o);
    var s1 := Prune(st.nodes, n);
    var p1 := Find(s1, p).value;
    var i := Position(Kids(p1), o);
    State(Replace(s1, p, WithKids(p1, Kids(p1)[..i] + [Get(st, n)] + Kids(p1)[i + 1..])) + [Kids(p1)[i]], st.next)
  }

  lemma SwapPrep(st: State, p: NodeId, n: NodeId, o: NodeId)
    requires Valid(st) && Has(st, p) && Has(st, n) && Has(st, o)
    requires p !in Ids(Get(st, n)) && o in KidIds(Get(st, p)) && n != o && !Get(st, n).DocRoot?
    ensures Unique(Prune(st.nodes, n)) && n !in IdsOf(Prune(st.nodes, n))
    ensures Find(Prune(st.nodes, n), p).Some?
    ensures HasChildList(Find(Prune(st.nodes, n), p).value) && Find(Prune(st.nodes, n), p).value.id == p
    ensures o in TopIds(Kids(Find(Prune(st.nodes, n), p).value))
    ensures n !in Ids(Get(st, p)) ==> Find(Prune(st.nodes, n), p).value == Get(st, p)
  {
    var s1 := Prune(st.nodes, n);
    FindIffIn(st.nodes, p);
    FindIffIn(st.nodes, n);
    PruneUnique(st.nodes, n);
    FindIffIn(s1, p);
    IdsHead(Get(st, n));
    var P := Get(st, p);
    assert HasChildList(P);
    if n in Ids(P) {
      PruneFindAncestor(st.nodes, p, n);
      PruneKeepsTop(Kids(P), n, o);
    } else {
      PruneFindOther(st.nodes, p, n);
    }
  }

  lemma {:induction false} PruneKeepsTop(cs: seq<Node>, n: NodeId, o: NodeId)
    requires o in TopIds(cs) && o != n
    ensures o in TopIds(Prune(cs, n))
    decreases cs
  {
    if cs[0].id == o {
      assert Prune(cs, n)[0].id == o;
    } else {
      assert o in TopIds(cs[1..]) by {
        var k :| 0 <= k < |cs| && TopIds(cs)[k] == o;
        assert TopIds(cs[1..])[k - 1] == o;
      }
      if cs[0].id == n {
        assert Prune(cs, n) == cs[1..];
      } else if n in Ids(cs[0]) {
        assert Prune(cs, n)[1..] == cs[1..];
        var k :| 0 <= k < |cs[1..]| && TopIds(cs[1..])[k] == o;
        assert TopIds(Prune(cs, n))[k + 1] == o;
      } else {
        PruneKeepsTop(cs[1..], n, o);
        var k :| 0 <= k < |Prune(cs[1..], n)| && TopIds(Prune(cs[1..], n))[k] == o;
        assert TopIds(Prune(cs, n))[k + 1] == o;
      }
    }
  }

  /** The identifiers of a child list with one entry exchanged. */
  lemma IdsExchange(p: Node, i: nat, m: Node)
    requires HasChildList(p) && i < |Kids(p)|
    ensures multiset(Ids(WithKids(p, Kids(p)[..i] + [m] + Kids(p)[i + 1..]))) + multiset(Ids(Kids(p)[i]))
         == multiset(Ids(p)) + multiset(Ids(m))
    ensures m.id in Ids(WithKids(p, Kids(p)[..i] + [m] + Kids(p)[i + 1..]))
  {
    var cs := Kids(p);
    var a, b := cs[..i], cs[i + 1..];
    assert cs == a + [cs[i]] + b;
    IdsWithKids(p, a + [m] + b);
    IdsOfConcat(a + [m], b);
    IdsOfConcat(a, [m]);
    IdsOfSingle(m);
    IdsOfConcat(a + [cs[i]], b);
    IdsOfConcat(a, [cs[i]]);
    IdsOfSingle(cs[i]);
    IdsHead(m);
  }

  /** Bag arithmetic of an exchange. */
  lemma Balance(r: multiset<NodeId>, rr: multiset<NodeId>, o1: multiset<NodeId>, p1: multiset<NodeId>,
                s1: multiset<NodeId>, p2: multiset<NodeId>, n: multiset<NodeId>, all: multiset<NodeId>)
    requires r == rr + o1 && rr + p1 == s1 + p2 && p2 + o1 == p1 + n && s1 + n == all
    ensures r == all
  {
    forall z
      ensures r[z] == all[z]
    {
      assert r[z] == rr[z] + o1[z];
      assert (rr + p1)[z] == rr[z] + p1[z] && (s1 + p2)[z] == s1[z] + p2[z];
      assert (p2 + o1)[z] == p2[z] + o1[z] && (p1 + n)[z] == p1[z] + n[z];
      assert (s1 + n)[z] == s1[z] + n[z];
    }
  }

  /** The bag of a swap. */
  lemma SwapBag(st: State, p: NodeId, n: NodeId, o: NodeId)
    requires Valid(st) && Has(st, p) && Has(st, n) && Has(st, o)
    requires p !in Ids(Get(st, n)) && o in KidIds(Get(st, p)) && n != o && !Get(st, n).DocRoot?
    ensures Bag(Swap(st, p, n, o).nodes) == Bag(st.nodes)
  {
    SwapPrep(st, p, n, o);
    var N := Get(st, n);
    var s1 := Prune(st.nodes, n);
    var p1 := Find(s1, p).value;
    var i := Position(Kids(p1), o);
    var p2 := WithKids(p1, Kids(p1)[..i] + [N] + Kids(p1)[i + 1..]);
    var rr := Replace(s1, p, p2);
    assert Swap(st, p, n, o).nodes == rr + [Kids(p1)[i]];
    FindIffIn(st.nodes, n);
    FindIffIn(s1, p);
    var bn, bp1, bp2, bo1 := multiset(Ids(N)), multiset(Ids(p1)), multiset(Ids(p2)), multiset(Ids(Kids(p1)[i]));
    assert Bag(s1) + bn == Bag(st.nodes) by {
      PruneBag(st.nodes, n);
    }
    assert Bag(rr) + bp1 == Bag(s1) + bp2 by {
      ReplaceBag(s1, p, p2);
    }
    assert bp2 + bo1 == bp1 + bn by {
      IdsExchange(p1, i, N);
    }
    assert Bag(rr + [Kids(p1)[i]]) == Bag(rr) + bo1 by {
      IdsOfConcat(rr, [Kids(p1)[i]]);
      IdsOfSingle(Kids(p1)[i]);
    }
    Balance(Bag(rr + [Kids(p1)[i]]), Bag(rr), bo1, bp1, Bag(s1), bp2, bn, Bag(st.nodes));
  }

  /** A swap keeps the document valid, its identifiers, and the document node first. */
  lemma SwapValid(st: State, p: NodeId, n: NodeId, o: NodeId)
    requires Valid(st) && Has(st, p) && Has(st, n) && Has(st, o)
    requires p !in Ids(Get(st, n)) && o in KidIds(Get(st, p)) && n != o && !Get(st, n).DocRoot?
    ensures Valid(Swap(st, p, n, o)) && Swap(st, p, n, o).next == st.next
    ensures forall y :: Has(Swap(st, p, n, o), y) <==> Has(st, y)
  {
    SwapPrep(st, p, n, o);
    SwapBag(st, p, n, o);
    var N := Get(st, n);
    var s1 := Prune(st.nodes, n);
    var p1 := Find(s1, p).value;
    var i := Position(Kids(p1), o);
    var p2 := WithKids(p1, Kids(p1)[..i] + [N] + Kids(p1)[i + 1..]);
    var rr := Replace(s1, p, p2);
    var r := Swap(st, p, n, o);
    FindIffIn(st.nodes, n);
    assert n != st.nodes[0].id by {
      assert FindIn(st.nodes[0], st.nodes[0].id) == Some(st.nodes[0]);
    }
    PruneHead(st.nodes, n);
    ReplaceHead(s1, p, p2);
    if p in Ids(s1[0]) && s1[0].id == p {
      assert FindIn(s1[0], p) == Some(s1[0]);
    }
    assert r.nodes[0] == rr[0];
    forall y
      ensures y in IdsOf(r.nodes) <==> y in IdsOf(st.nodes)
    {
      assert y in IdsOf(r.nodes) <==> y in Bag(r.nodes);
      assert y in IdsOf(st.nodes) <==> y in Bag(st.nodes);
    }
  }

  /** After a swap, n's subtree is intact and attached, and o's subtree is attached nowhere. */
  lemma SwapPlaces(st: State, p: NodeId, n: NodeId, o: NodeId)
    requires Valid(st) && Has(st, p) && Has(st, n) && Has(st, o)
    requires p !in Ids(Get(st, n)) && o in KidIds(Get(st, p)) && n != o && !Get(st, n).DocRoot?
    ensures Valid(Swap(st, p, n, o))
    ensures forall y :: Has(Swap(st, p, n, o), y) <==> Has(st, y)
    ensures Get(Swap(st, p, n, o), n) == Get(st, n)
    ensures IsTop(Swap(st, p, n, o).nodes, o)
    ensures HasChildList(Get(Swap(st, p, n, o), p))
    ensures o !in KidIds(Get(Swap(st, p, n, o), p)) && n in KidIds(Get(Swap(st, p, n, o), p))
  {
    SwapPrep(st, p, n, o);
    SwapValid(st, p, n, o);
    var N := Get(st, n);
    var s1 := Prune(st.nodes, n);
    var p1 := Find(s1, p).value;
    var i := Position(Kids(p1), o);
    var o1 := Kids(p1)[i];
    var p2 := WithKids(p1, Kids(p1)[..i] + [N] + Kids(p1)[i + 1..]);
    var rr := Replace(s1, p, p2);
    assert Swap(st, p, n, o).nodes == rr + [o1];
    FindIffIn(s1, p);
    UniqueAppend(rr, o1);
    IdsHead(o1);
    IsTopAppend(rr, o1);
    ReplaceFindSelf(s1, p, p2);
    FoundOccurs(rr, p);
    assert Kids(p2)[i] == N;
    assert KidIds(p2)[i] == n;
    ChildOccurs(p2, i);
    OccursTrans(rr, p2, N);
    FindOccurring(rr, N);
    OccursHasId(rr, N);
    FindAppend(rr, o1, n);
    FindIffIn(rr, p);
    FindAppend(rr, o1, p);
    assert o !in KidIds(p2) by {
      forall j | 0 <= j < |Kids(p2)|
        ensures Kids(p2)[j].id != o
      {
        ChildOccurs(p2, j);
        OccursTrans(rr, p2, Kids(p2)[j]);
        OccursHasId(rr, Kids(p2)[j]);
      }
    }
  }

  /** When n came from outside p, p's child list is the old one with n in o's place, and o's subtree is as it was. */
  lemma SwapParent(st: State, p: NodeId, n: NodeId, o: NodeId)
    requires Valid(st) && Has(st, p) && Has(st, n) && Has(st, o)
    requires p !in Ids(Get(st, n)) && o in KidIds(Get(st, p)) && n != o && !Get(st, n).DocRoot?
    requires n !in Ids(Get(st, p))
    ensures Has(Swap(st, p, n, o), o) && Get(Swap(st, p, n, o), o) == Get(st, o)
    ensures Has(Swap(st, p, n, o), p)
    ensures var i := Position(Kids(Get(st, p)), o);
      Get(Swap(st, p, n, o), p) == WithKids(Get(st, p), Kids(Get(st, p))[..i] + [Get(st, n)] + Kids(Get(st, p))[i + 1..])
  {
    SwapPrep(st, p, n, o);
    SwapValid(st, p, n, o);
    var P, N := Get(st, p), Get(st, n);
    var s1 := Prune(st.nodes, n);
    var i := Position(Kids(P), o);
    var o1 := Kids(P)[i];
    var p2 := WithKids(P, Kids(P)[..i] + [N] + Kids(P)[i + 1..]);
    var rr := Replace(s1, p, p2);
    assert Swap(st, p, n, o).nodes == rr + [o1];
    FindIffIn(s1, p);
    UniqueAppend(rr, o1);
    IdsHead(o1);
    FindAppend(rr, o1, o);
    ReplaceFindSelf(s1, p, p2);
    FindIffIn(rr, p);
    FindAppend(rr, o1, p);
    FindIffIn(st.nodes, p);
    ChildOccurs(P, i);
    FoundOccurs(st.nodes, p);
    OccursTrans(st.nodes, P, o1);
    FindOccurring(st.nodes, o1);
  }

  /**
   * A swap keeps the document valid and its identifiers: n's subtree sits at o's place in p's
   * child list, o's subtree is attached nowhere, and a node apart from p and n is untouched.
   */
  lemma SwapSpec(st: State, p: NodeId, n: NodeId, o: NodeId)
    requires Valid(st) && Has(st, p) && Has(st, n) && Has(st, o)
    requires p !in Ids(Get(st, n)) && o in KidIds(Get(st, p)) && n != o && !Get(st, n).DocRoot?
    ensures Valid(Swap(st, p, n, o)) && Swap(st, p, n, o).next == st.next
    ensures Bag(Swap(st, p, n, o).nodes) == Bag(st.nodes)
    ensures forall y :: Has(Swap(st, p, n, o), y) <==> Has(st, y)
    ensures Get(Swap(st, p, n, o), n) == Get(st, n) && IsTop(Swap(st, p, n, o).nodes, o)
    ensures n !in Ids(Get(st, p)) ==>
      Get(Swap(st, p, n, o), o) == Get(st, o) &&
      var i := Position(Kids(Get(st, p)), o);
      Get(Swap(st, p, n, o), p) == WithKids(Get(st, p), Kids(Get(st, p))[..i] + [Get(st, n)] + Kids(Get(st, p))[i + 1..])
    ensures forall y :: Has(st, y) && Apart(st, y, p) && Apart(st, y, n) ==> Get(Swap(st, p, n, o), y) == Get(st, y)
  {
    SwapBag(st, p, n, o);
    SwapValid(st, p, n, o);
    SwapPlaces(st, p, n, o);
    if n !in Ids(Get(st, p)) {
      SwapParent(st, p, n, o);
    }
    forall y | Has(st, y) && Apart(st, y, p) && Apart(st, y, n)
      ensures Get(Swap(st, p, n, o), y) == Get(st, y)
    {
      SwapOther(st, p, n, o, y);
    }
  }

  lemma SwapOther(st: State, p: NodeId, n: NodeId, o: NodeId, y: NodeId)
    requires Valid(st) && Has(st, p) && Has(st, n) && Has(st, o)
    requires p !in Ids(Get(st, n)) && o in KidIds(Get(st, p)) && n != o && !Get(st, n).DocRoot?
    requires Has(st, y) && Apart(st, y, p) && Apart(st, y, n)
    ensures Has(Swap(st, p, n, o), y) && Get(Swap(st, p, n, o), y) == Get(st, y)
  {
    SwapPrep(st, p, n, o);
    SwapValid(st, p, n, o);
    var N := Get(st, n);
    var s1 := Prune(st.nodes, n);
    var p1 := Find(s1, p).value;
    var i := Position(Kids(p1), o);
    var o1 := Kids(p1)[i];
    var p2 := WithKids(p1, Kids(p1)[..i] + [N] + Kids(p1)[i + 1..]);
    var rr := Replace(s1, p, p2);
    FindIffIn(st.nodes, y);
    FindIffIn(st.nodes, n);
    FindIffIn(s1, p);
    PruneFindOther(st.nodes, y, n);
    IdsExchange(p1, i, N);
    assert y !in multiset(Ids(p1)) by {
      if n in Ids(Get(st, p)) {
        IdsHead(Get(st, p));
        IdsHead(N);
        FindIffIn(st.nodes, p);
        PruneFindAncestor(st.nodes, p, n);
        PruneInBag(Get(st, p), n);
        assert y !in multiset(Ids(Get(st, p)));
      }
    }
    assert (multiset(Ids(p1)) + multiset(Ids(N)))[y] == 0;
    assert y !in multiset(Ids(p2));
    ReplaceFindOther(s1, y, p, p2);
    FindIffIn(rr, y);
    FindAppend(rr, o1, y);
  }

  // ---------------------------------------------------------------- changing one node in place

  /** A node given new content in place (attributes, text): same kind of place, same identifiers below it. */
  function SetNode(st: State, x: NodeId, m: Node): State
    requires Has(st, x) && m.id == x
  {
    State(Replace(st.nodes, x, m), st.next)
  }

  /** Changing a node in place keeps the document valid; the node reads back as set and nodes apart from it are untouched. */
  lemma SetNodeSpec(st: State, x: NodeId, m: Node)
    requires Valid(st) && Has(st, x) && m.id == x
    requires multiset(Ids(m)) == multiset(Ids(Get(st, x))) && m.DocRoot? == Get(st, x).DocRoot?
    ensures Valid(SetNode(st, x, m)) && SetNode(st, x, m).next == st.next
    ensures Bag(SetNode(st, x, m).nodes) == Bag(st.nodes)
    ensures forall y :: Has(SetNode(st, x, m), y) <==> Has(st, y)
    ensures Get(SetNode(st, x, m), x) == m
    ensures forall y :: Has(st, y) && Apart(st, y, x) ==> Get(SetNode(st, x, m), y) == Get(st, y)
    ensures forall y :: Has(st, y) && x in Ids(Get(st, y)) ==> Get(SetNode(st, x, m), y) == ReplaceIn(Get(st, y), x, m)
  {
    var r := SetNode(st, x, m);
    FindIffIn(st.nodes, x);
    ReplaceBag(st.nodes, x, m);
    CancelRight(Bag(r.nodes), multiset(Ids(m)), Bag(st.nodes));
    ReplaceHead(st.nodes, x, m);
    if x in Ids(st.nodes[0]) && st.nodes[0].id == x {
      assert FindIn(st.nodes[0], x) == Some(st.nodes[0]);
    }
    forall y
      ensures y in IdsOf(r.nodes) <==> y in IdsOf(st.nodes)
    {
      assert y in IdsOf(r.nodes) <==> y in Bag(r.nodes);
      assert y in IdsOf(st.nodes) <==> y in Bag(st.nodes);
    }
    ReplaceFindSelf(st.nodes, x, m);
    forall y | Has(st, y) && Apart(st, y, x)
      ensures Get(r, y) == Get(st, y)
    {
      FindIffIn(st.nodes, y);
      assert y !in multiset(Ids(m));
      ReplaceFindOther(st.nodes, y, x, m);
    }
    forall y | Has(st, y) && x in Ids(Get(st, y))
      ensures Get(r, y) == ReplaceIn(Get(st, y), x, m)
    {
      FindIffIn(st.nodes, y);
      ReplaceFindAncestor(st.nodes, y, x, m);
    }
  }

  // ---------------------------------------------------------------- child kinds

  /** The first child of kind Text (a CDATA section is a different kind). */
  function FirstText(cs: seq<Node>): (r: Option<Node>)
    ensures r.Some? ==> r.value.Text? && r.value in cs
    ensures r.None? ==> forall i :: 0 <= i < |cs| ==> !cs[i].Text?
    decreases cs
  {
    if cs == [] then None
    else if cs[0].Text? then Some(cs[0])
    else FirstText(cs[1..])
  }

  /** The first child of kind CDATA section. */
  function FirstCData(cs: seq<Node>): (r: Option<Node>)
    ensures r.Some? ==> r.value.CData? && r.value in cs
    ensures r.None? ==> forall i :: 0 <= i < |cs| ==> !cs[i].CData?
    decreases cs
  {
    if cs == [] then None
    else if cs[0].CData? then Some(cs[0])
    else FirstCData(cs[1..])
  }
}
