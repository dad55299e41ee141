/**
 * Where the nodes an operation touches sit in a valid document: a child of a document node is
 * itself in the document, below it and attached; editing or removing a child is an edit of its
 * parent's child list at that child's position; a node just created can be appended.
 */
module Placing {
  import opened Wrappers
  import opened Throwables
  import opened DomTree
  import opened Dom
  import Creation

  /** The i-th child of a node of the document is a node of the document, strictly below it, and attached. */
  lemma KidInState(st: State, x: NodeId, i: nat)
    requires Valid(st) && Has(st, x) && i < |Kids(Get(st, x))|
    ensures var t := Kids(Get(st, x))[i];
      Has(st, t.id) && Get(st, t.id) == t && t.id in Ids(Get(st, x)) && t.id != x && !IsTop(st.nodes, t.id)
  {
    var p := Get(st, x);
    var t := Kids(p)[i];
    FindIffIn(st.nodes, x);
    FoundOccurs(st.nodes, x);
    ChildOccurs(p, i);
    OccursTrans(st.nodes, p, t);
    OccursHasId(st.nodes, t);
    FindOccurring(st.nodes, t);
    IdsHead(t);
    OccursInIdsSub(p, t, t.id);
    Creation.UniqueInside(st.nodes, p);
    UniqueKids(p);
    OccursAt(Kids(p), i);
    OccursHasId(Kids(p), t);
    NotTopInside(st.nodes, p, t.id);
  }

  /** The children of a unique node do not share identifiers. */
  lemma KidsApart(n: Node, i: nat)
    requires UniqueNode(n) && i < |Kids(n)|
    ensures forall j :: 0 <= j < |Kids(n)| && j != i ==> Kids(n)[i].id !in Ids(Kids(n)[j])
    ensures n.id != Kids(n)[i].id
  {
    UniqueKids(n);
    Creation.UniqueAt(Kids(n), i);
    OccursAt(Kids(n), i);
    IdsHead(Kids(n)[i]);
    OccursIdsSub(Kids(n), Kids(n)[i], Kids(n)[i].id);
  }

  /** Replacing a child, by identifier, is an edit of the child list at its position. */
  lemma ReplaceKid(n: Node, i: nat, m: Node)
    requires UniqueNode(n) && HasChildList(n) && i < |Kids(n)| && m.id == Kids(n)[i].id
    ensures ReplaceIn(n, m.id, m) == WithKids(n, Kids(n)[..i] + [m] + Kids(n)[i + 1..])
  {
    var cs := Kids(n);
    KidsApart(n, i);
    IdsHead(cs[i]);
    Creation.ReplaceAt(cs, m.id, m, i);
  }

  /** Pruning a child, by identifier, takes it out of the child list. */
  lemma PruneKid(n: Node, i: nat)
    requires UniqueNode(n) && HasChildList(n) && i < |Kids(n)|
    ensures PruneIn(n, Kids(n)[i].id) == WithKids(n, Kids(n)[..i] + Kids(n)[i + 1..])
  {
    KidsApart(n, i);
    PruneTop(Kids(n), Kids(n)[i].id, i);
  }

  /**
   * A node just made (createElement, createTextNode, createCDATASection) and appended to x:
   * HIERARCHY_REQUEST_ERR exactly when x does not accept its kind; otherwise it becomes x's last
   * child and only x and the nodes above it change.
   */
  lemma AppendCreated(st: State, x: NodeId, t: Node)
    requires Valid(st) && Has(st, x) && t.id == st.next && Ids(t) == [st.next]
    ensures var s1 := Adopt(st, t, st.next + 1);
      Valid(s1) && Has(s1, x) && Has(s1, t.id) && Get(s1, x) == Get(st, x) && Get(s1, t.id) == t
    ensures var s1 := Adopt(st, t, st.next + 1);
      AppendChild(s1, x, t.id).Ok? <==> KidAllowed(Get(st, x), t)
    ensures var s1 := Adopt(st, t, st.next + 1);
      AppendChild(s1, x, t.id).Fail? ==> AppendChild(s1, x, t.id).error == HIERARCHY_REQUEST_ERR
    ensures var s1 := Adopt(st, t, st.next + 1);
      AppendChild(s1, x, t.id).Ok? ==>
        var s2 := AppendChild(s1, x, t.id).value;
        Valid(s2) && s2.next == st.next + 1 && Has(s2, x) && Has(s2, t.id)
        && Get(s2, x) == WithKids(Get(st, x), Kids(Get(st, x)) + [t])
        && (forall y :: Has(st, y) ==> Has(s2, y))
        && (forall y :: Has(st, y) && Apart(st, y, x) ==> Get(s2, y) == Get(st, y))
  {
    var s1 := Adopt(st, t, st.next + 1);
    CreateSpec(st, t);
    FindIffIn(st.nodes, x);
    FindSubBag(st.nodes, x);
    Creation.FreshNotIn(st, t.id);
    assert t.id !in multiset(Ids(Get(st, x)));
    if KidAllowed(Get(st, x), t) {
      MoveSpec(s1, x, t.id);
      forall y | Has(st, y) && Apart(st, y, x)
        ensures Get(Move(s1, x, t.id), y) == Get(st, y)
      {
        FindSubBag(st.nodes, y);
        assert t.id !in multiset(Ids(Get(st, y)));
        assert Apart(s1, y, t.id);
      }
    }
  }
  /** Two subtrees of a unique tree that share a node are nested: one contains the other. */
  lemma {:induction false} NestedIn(n: Node, a: Node, b: Node, z: NodeId)
    requires UniqueNode(n) && OccursIn(n, a) && OccursIn(n, b) && z in Ids(a) && z in Ids(b)
    ensures a.id in Ids(b) || b.id in Ids(a)
    decreases n
  {
    if n == a {
      OccursInHasId(n, b);
    } else if n == b {
      OccursInHasId(n, a);
    } else {
      UniqueKids(n);
      Nested(Kids(n), a, b, z);
    }
  }

  /** Two subtrees of a unique forest that share a node are nested. */
  lemma {:induction false} Nested(s: seq<Node>, a: Node, b: Node, z: NodeId)
    requires Unique(s) && Occurs(s, a) && Occurs(s, b) && z in Ids(a) && z in Ids(b)
    ensures a.id in Ids(b) || b.id in Ids(a)
    decreases s
  {
    UniqueParts(s);
    if OccursIn(s[0], a) && OccursIn(s[0], b) {
      NestedIn(s[0], a, b, z);
    } else if OccursIn(s[0], a) {
      OccursInIdsSub(s[0], a, z);
      OccursIdsSub(s[1..], b, z);
      assert false;
    } else if OccursIn(s[0], b) {
      OccursInIdsSub(s[0], b, z);
      OccursIdsSub(s[1..], a, z);
      assert false;
    } else {
      Nested(s[1..], a, b, z);
    }
  }

  /** Whatever lies below x lies outside every node apart from x. */
  lemma ApartBelow(st: State, y: NodeId, x: NodeId, z: NodeId)
    requires Valid(st) && Has(st, x) && Has(st, y) && Apart(st, y, x) && z in Ids(Get(st, x))
    ensures z !in Ids(Get(st, y)) && z != y
  {
    FindIffIn(st.nodes, x);
    FindIffIn(st.nodes, y);
    FoundOccurs(st.nodes, x);
    FoundOccurs(st.nodes, y);
    if z in Ids(Get(st, y)) {
      Nested(st.nodes, Get(st, x), Get(st, y), z);
    }
  }

  /**
   * replaceChild(n, o) of p's i-th child o: HIERARCHY_REQUEST_ERR exactly when p does not take
   * n, n is p or one of its ancestors, or n would be a second element of the document node.
   * A node n from outside p takes o's place in p's child list, and o is left attached nowhere.
   */
  lemma ReplaceKidAt(st: State, p: NodeId, i: nat, n: NodeId)
    requires Valid(st) && Has(st, p) && Has(st, n) && i < |Kids(Get(st, p))|
    ensures Has(st, Kids(Get(st, p))[i].id)
    ensures var P := Get(st, p); var o := Kids(P)[i];
      ReplaceChild(st, p, n, o.id).Ok? <==>
        !(P.DocRoot? && FirstElement(P.children).Some? && !o.Element? && Get(st, n).Element?)
        && KindAccepts(P, Get(st, n)) && p !in Ids(Get(st, n))
    ensures var o := Kids(Get(st, p))[i].id;
      ReplaceChild(st, p, n, o).Fail? ==> ReplaceChild(st, p, n, o).error == HIERARCHY_REQUEST_ERR
    ensures var P := Get(st, p); var o := Kids(P)[i];
      ReplaceChild(st, p, n, o.id).Ok? && n !in Ids(P) ==>
        var s := ReplaceChild(st, p, n, o.id).value;
        Valid(s) && (forall y :: Has(s, y) <==> Has(st, y))
        && Get(s, p) == WithKids(P, Kids(P)[..i] + [Get(st, n)] + Kids(P)[i + 1..])
        && Get(s, o.id) == o && IsTop(s.nodes, o.id) && Get(s, n) == Get(st, n)
        && forall y :: Has(st, y) && Apart(st, y, p) && Apart(st, y, n) ==> Get(s, y) == Get(st, y)
  {
    var P := Get(st, p);
    var cs := Kids(P);
    var o := cs[i];
    KidInState(st, p, i);
    assert o.id in KidIds(P) by {
      assert KidIds(P)[i] == o.id;
    }
    if ReplaceChild(st, p, n, o.id).Ok? && n !in Ids(P) {
      IdsHead(P);
      assert n != o.id;
      assert o.id in TopIds(cs) by {
        assert TopIds(cs)[i] == o.id;
      }
      FindIffIn(st.nodes, p);
      FoundOccurs(st.nodes, p);
      Creation.UniqueInside(st.nodes, P);
      KidsApart(P, i);
      var pos := Position(cs, o.id);
      if pos != i {
        IdsHead(cs[pos]);
        assert false;
      }
      SwapSpec(st, p, n, o.id);
    }
  }
}
