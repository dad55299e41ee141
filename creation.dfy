/**
 * Auto-creation of a child path (prgCreateChildByName, XmlDocument.java:2081-2135): when the
 * whole path resolves, its node is the answer and nothing changes; otherwise the first child of
 * each segment's name is followed until one is missing, and from there one new empty element per
 * remaining segment is appended, each under the one before. The answer is the deepest new one.
 */
module Creation {
  import opened Wrappers
  import opened Throwables
  import opened DomTree
  import opened Dom
  import opened Paths
  import Transplant

  /** The new elements for the segments `tags`, numbered from k, each the only child of the one before. */
  function Chain(tags: seq<string>, k: nat): (r: Node)
    requires tags != []
    ensures r.Element? && r.id == k && NodeName(r) == tags[0]
    decreases |tags|
  {
    if |tags| == 1 then Element(k, tags[0], [], [])
    else Element(k, tags[0], [], [Chain(tags[1..], k + 1)])
  }

  /** The innermost element of a chain. */
  function ChainEnd(tags: seq<string>, k: nat): Node
    requires tags != []
  {
    Element(k + |tags| - 1, tags[|tags| - 1], [], [])
  }

  lemma {:induction false} ChainIds(tags: seq<string>, k: nat)
    requires tags != []
    ensures Ids(Chain(tags, k)) == Transplant.Span(k, |tags|)
    decreases |tags|
  {
    if |tags| > 1 {
      ChainIds(tags[1..], k + 1);
      IdsOfSingle(Chain(tags[1..], k + 1));
      Transplant.SpanSplit(k, 1, |tags| - 1);
    }
  }

  /** A chain resolves the rest of its own segments to its innermost element. */
  lemma {:induction false} ChainResolve(tags: seq<string>, k: nat)
    requires tags != []
    ensures Resolve(Chain(tags, k), tags[1..]) == Some(ChainEnd(tags, k))
    decreases |tags|
  {
    if |tags| > 1 {
      ChainResolve(tags[1..], k + 1);
      assert tags[1..][1..] == tags[2..];
      assert tags[1..][|tags[1..]| - 1] == tags[|tags| - 1];
      assert Leads([Chain(tags[1..], k + 1)], 0, tags[1..]);
      ResolveAmongFirst([Chain(tags[1..], k + 1)], tags[1..], 0);
    }
  }

  /** The innermost element is found in the chain, childless. */
  lemma {:induction false} ChainFindEnd(tags: seq<string>, k: nat)
    requires tags != []
    ensures FindIn(Chain(tags, k), k + |tags| - 1) == Some(ChainEnd(tags, k))
    decreases |tags|
  {
    if |tags| > 1 {
      ChainFindEnd(tags[1..], k + 1);
      assert tags[1..][|tags[1..]| - 1] == tags[|tags| - 1];
      assert Find([Chain(tags[1..], k + 1)], k + |tags| - 1) == FindIn(Chain(tags[1..], k + 1), k + |tags| - 1);
    }
  }

  /** Giving the innermost element one new child lengthens the chain by one segment. */
  lemma {:induction false} ChainExtend(tags: seq<string>, t: string, k: nat)
    requires tags != []
    ensures ReplaceIn(Chain(tags, k), k + |tags| - 1, Element(k + |tags| - 1, tags[|tags| - 1], [], [Element(k + |tags|, t, [], [])]))
         == Chain(tags + [t], k)
    decreases |tags|
  {
    var m := Element(k + |tags| - 1, tags[|tags| - 1], [], [Element(k + |tags|, t, [], [])]);
    assert (tags + [t])[0] == tags[0];
    if |tags| == 1 {
      assert (tags + [t])[1..] == [t];
    } else {
      assert (tags + [t])[1..] == tags[1..] + [t];
      assert tags[1..][|tags[1..]| - 1] == tags[|tags| - 1];
      ChainExtend(tags[1..], t, k + 1);
      ChainHasEnd(tags[1..], k + 1);
      assert Replace([Chain(tags[1..], k + 1)], k + |tags| - 1, m) == [ReplaceIn(Chain(tags[1..], k + 1), k + |tags| - 1, m)];
    }
  }

  // ---------------------------------------------------------------- replacing along a child list

  lemma {:induction false} ReplaceAbsent(s: seq<Node>, x: NodeId, m: Node)
    requires x !in IdsOf(s)
    ensures Replace(s, x, m) == s
    decreases s
  {
    if s != [] {
      ReplaceAbsent(s[1..], x, m);
    }
  }

  /** Replacing x, when x lies in the i-th tree and in none before it. */
  lemma {:induction false} ReplaceAt(cs: seq<Node>, x: NodeId, m: Node, i: nat)
    requires i < |cs| && x in Ids(cs[i]) && forall j :: 0 <= j < i ==> x !in Ids(cs[j])
    ensures Replace(cs, x, m) == cs[..i] + [ReplaceIn(cs[i], x, m)] + cs[i + 1..]
    decreases i
  {
    if i > 0 {
      forall j | 0 <= j < i - 1
        ensures x !in Ids(cs[1..][j])
      {
        assert cs[1..][j] == cs[j + 1];
      }
      assert cs[1..][i - 1] == cs[i];
      ReplaceAt(cs[1..], x, m, i - 1);
      assert cs[..i] == [cs[0]] + cs[1..][..i - 1];
      assert cs[i + 1..] == cs[1..][i..];
    }
  }

  /** Appending to a child list, x not among the old children: only the new last child is edited. */
  lemma {:induction false} ReplaceAfter(s: seq<Node>, t: Node, x: NodeId, m: Node)
    requires x !in IdsOf(s) && x in Ids(t)
    ensures Replace(s + [t], x, m) == s + [ReplaceIn(t, x, m)]
  {
    forall j | 0 <= j < |s|
      ensures x !in Ids((s + [t])[j])
    {
      assert (s + [t])[j] == s[j];
      OccursAt(s, j);
      if x in Ids(s[j]) {
        OccursIdsSub(s, s[j], x);
      }
    }
    ReplaceAt(s + [t], x, m, |s|);
    assert (s + [t])[..|s|] == s;
    assert (s + [t])[|s| + 1..] == [];
  }

  /** A tree of a unique forest is unique, and shares its root's identifier with no other tree. */
  lemma {:induction false} UniqueAt(cs: seq<Node>, i: nat)
    requires Unique(cs) && i < |cs|
    ensures UniqueNode(cs[i])
    ensures forall j :: 0 <= j < |cs| && j != i ==> cs[i].id !in Ids(cs[j])
  {
    BagSplit(cs, i);
    var a, b, c := Bag(cs[..i]), multiset(Ids(cs[i])), Bag(cs[i + 1..]);
    NoDupSum(a + b, c);
    NoDupSum(a, b);
    IdsHead(cs[i]);
    forall j | 0 <= j < |cs| && j != i
      ensures cs[i].id !in Ids(cs[j])
    {
      if j < i {
        BagDisjoint(cs, j, i, cs[i].id);
      } else {
        BagDisjointAfter(cs, i, j, cs[i].id);
      }
    }
  }

  /** Two different trees of a unique forest share no identifier (the earlier one's, seen from the later). */
  lemma {:induction false} BagDisjointAfter(cs: seq<Node>, a: nat, b: nat, y: NodeId)
    requires Unique(cs) && a < b < |cs| && y in Ids(cs[a])
    ensures y !in Ids(cs[b])
  {
    BagSplit(cs, a);
    var pre, mid, post := Bag(cs[..a]), multiset(Ids(cs[a])), Bag(cs[a + 1..]);
    NoDupSum(pre + mid, post);
    assert y in pre + mid;
    assert cs[a + 1..][b - a - 1] == cs[b];
    OccursAt(cs[a + 1..], b - a - 1);
    assert y !in IdsOf(cs[a + 1..]);
    NotInSub(cs[a + 1..], cs[b], y);
  }

  /** A tree inside a forest holds no identifier the forest lacks. */
  lemma NotInSub(s: seq<Node>, r: Node, x: NodeId)
    requires Occurs(s, r) && x !in IdsOf(s)
    ensures x !in Ids(r)
  {
    if x in Ids(r) {
      OccursIdsSub(s, r, x);
    }
  }

  /** Replacing something inside the i-th child edits that child only. */
  lemma {:induction false} ReplaceUnderKid(n: Node, i: nat, x: NodeId, m: Node)
    requires UniqueNode(n) && i < |Kids(n)| && x in Ids(Kids(n)[i])
    ensures HasChildList(n)
    ensures ReplaceIn(n, x, m) == WithKids(n, Kids(n)[..i] + [ReplaceIn(Kids(n)[i], x, m)] + Kids(n)[i + 1..])
  {
    var cs := Kids(n);
    UniqueKids(n);
    OccursAt(cs, i);
    OccursIdsSub(cs, cs[i], x);
    forall j | 0 <= j < i
      ensures x !in Ids(cs[j])
    {
      BagDisjoint(cs, j, i, x);
    }
    ReplaceAt(cs, x, m, i);
  }

  /** A node resolves a path through its i-th child when that child leads and none before it has the name. */
  lemma {:induction false} ResolveViaKid(n: Node, cs: seq<Node>, i: nat, tags: seq<string>)
    requires HasChildList(n) && tags != [] && i < |cs| && Leads(cs, i, tags)
    requires forall j :: 0 <= j < i ==> NodeName(cs[j]) != tags[0]
    ensures Resolve(WithKids(n, cs), tags) == Resolve(cs[i], tags[1..])
  {
    ResolveAmongFirst(cs, tags, i);
  }

  /** Replacing a node by one of the same name keeps the name of every tree around it. */
  lemma {:induction false} ReplaceKeepsName(c: Node, d: Node, m: Node)
    requires UniqueNode(c) && OccursIn(c, d) && m.id == d.id && NodeName(m) == NodeName(d)
    ensures NodeName(ReplaceIn(c, d.id, m)) == NodeName(c)
  {
    if c.id == d.id {
      FindInOccurring(c, d);
    }
  }

  /**
   * After the chain for the remaining segments is appended where the walk stopped, the whole path
   * resolves, and to the chain's innermost element: each node on the walk is the first of its name,
   * so resolution takes the walk's way down.
   */
  lemma {:induction false} WalkThenResolve(n: Node, tags: seq<string>, k: nat)
    requires UniqueNode(n) && Walk(n, tags).1 < |tags|
    requires HasChildList(Walk(n, tags).0)
    ensures var w := Walk(n, tags); var d := w.0; var j := w.1;
      Resolve(ReplaceIn(n, d.id, WithKids(d, Kids(d) + [Chain(tags[j..], k)])), tags) == Some(ChainEnd(tags[j..], k))
    decreases n, 1
  {
    if Walk(n, tags).1 == 0 {
      WalkThenResolveHere(n, tags, k);
    } else {
      WalkThenResolveBelow(n, tags, k);
    }
  }

  /** When the walk stops at n itself, the chain is the first child named after the first segment. */
  lemma WalkThenResolveHere(n: Node, tags: seq<string>, k: nat)
    requires UniqueNode(n) && Walk(n, tags).1 == 0 && tags != []
    requires HasChildList(Walk(n, tags).0)
    ensures var d := Walk(n, tags).0;
      Resolve(ReplaceIn(n, d.id, WithKids(d, Kids(d) + [Chain(tags, k)])), tags) == Some(ChainEnd(tags, k))
  {
    var d := Walk(n, tags).0;
    assert FirstNamed(Kids(d), tags[0]).None? by {
      WalkStops(n, tags);
    }
    assert d == n;
    var cs := Kids(n) + [Chain(tags, k)];
    assert Resolve(Chain(tags, k), tags[1..]) == Some(ChainEnd(tags, k)) by {
      ChainResolve(tags, k);
    }
    assert cs[|Kids(n)|] == Chain(tags, k);
    forall i | 0 <= i < |Kids(n)|
      ensures NodeName(cs[i]) != tags[0]
    {
      assert cs[i] == Kids(n)[i];
    }
    ResolveViaKid(n, cs, |Kids(n)|, tags);
  }

  /** When the walk goes on below n, the chain is reached through the first child named after the first segment. */
  lemma {:induction false} WalkThenResolveBelow(n: Node, tags: seq<string>, k: nat)
    requires UniqueNode(n) && 0 < Walk(n, tags).1 < |tags|
    requires HasChildList(Walk(n, tags).0)
    ensures var w := Walk(n, tags); var d := w.0; var j := w.1;
      Resolve(ReplaceIn(n, d.id, WithKids(d, Kids(d) + [Chain(tags[j..], k)])), tags) == Some(ChainEnd(tags[j..], k))
    decreases n, 0
  {
    var w := Walk(n, tags);
    var d, j := w.0, w.1;
    var big := WithKids(d, Kids(d) + [Chain(tags[j..], k)]);
    var cs := Kids(n);
    var i := FirstNamed(cs, tags[0]).value;
    var c := cs[i];
    assert w == (Walk(c, tags[1..]).0, Walk(c, tags[1..]).1 + 1);
    assert tags[1..][j - 1..] == tags[j..];
    assert UniqueNode(c) by {
      UniqueKids(n);
      UniqueAt(cs, i);
    }
    assert OccursIn(c, d) && d.id in Ids(c) by {
      WalkStops(c, tags[1..]);
      IdsHead(d);
      OccursInIdsSub(c, d, d.id);
    }
    var c2 := ReplaceIn(c, d.id, big);
    var cs2 := cs[..i] + [c2] + cs[i + 1..];
    assert ReplaceIn(n, d.id, big) == WithKids(n, cs2) by {
      ReplaceUnderKid(n, i, d.id, big);
    }
    assert Resolve(c2, tags[1..]) == Some(ChainEnd(tags[j..], k)) by {
      WalkThenResolve(c, tags[1..], k);
    }
    assert NodeName(c2) == NodeName(c) by {
      ReplaceKeepsName(c, d, big);
    }
    assert cs2[i] == c2;
    forall i' | 0 <= i' < i
      ensures NodeName(cs2[i']) != tags[0]
    {
      assert cs2[i'] == cs[i'];
    }
    ResolveViaKid(n, cs2, i, tags);
  }


  /** Two different trees of a unique forest share no identifier. */
  lemma {:induction false} BagDisjoint(cs: seq<Node>, a: nat, b: nat, y: NodeId)
    requires Unique(cs) && a < b < |cs| && y in Ids(cs[b])
    ensures y !in Ids(cs[a])
  {
    BagSplit(cs, b);
    var pre, mid, post := Bag(cs[..b]), multiset(Ids(cs[b])), Bag(cs[b + 1..]);
    NoDupSum(pre + mid, post);
    NoDupSum(pre, mid);
    assert cs[..b][a] == cs[a];
    OccursAt(cs[..b], a);
    assert y in mid;
    assert y !in pre;
    assert y !in IdsOf(cs[..b]);
    NotInSub(cs[..b], cs[a], y);
  }

  // ---------------------------------------------------------------- grafting a new subtree

  /** A new subtree t, made of len fresh nodes, hung as the last child of the document's node d. */
  function Graft(st: State, d: Node, t: Node, len: nat): State
    requires HasChildList(d)
  {
    State(Replace(st.nodes, d.id, WithKids(d, Kids(d) + [t])), st.next + len)
  }

  /** A graft adds exactly the identifiers of the new subtree. */
  lemma {:induction false} GraftBag(st: State, d: Node, t: Node, len: nat)
    requires Valid(st) && Has(st, d.id) && Get(st, d.id) == d && HasChildList(d)
    ensures Bag(Graft(st, d, t, len).nodes) == Bag(st.nodes) + multiset(Ids(t))
  {
    var big := WithKids(d, Kids(d) + [t]);
    var r := Graft(st, d, t, len);
    FindIffIn(st.nodes, d.id);
    ReplaceBag(st.nodes, d.id, big);
    IdsAppendKid(d, t);
    assert Bag(r.nodes) + multiset(Ids(d)) == (Bag(st.nodes) + multiset(Ids(t))) + multiset(Ids(d));
    CancelRight(Bag(r.nodes), multiset(Ids(d)), Bag(st.nodes) + multiset(Ids(t)));
  }

  /** A graft leaves the document node first. */
  lemma {:induction false} GraftHead(st: State, d: Node, t: Node, len: nat)
    requires Valid(st) && Has(st, d.id) && Get(st, d.id) == d && HasChildList(d)
    ensures |Graft(st, d, t, len).nodes| > 0 && Graft(st, d, t, len).nodes[0].DocRoot?
  {
    ReplaceHead(st.nodes, d.id, WithKids(d, Kids(d) + [t]));
    if d.id in Ids(st.nodes[0]) && st.nodes[0].id == d.id {
      assert FindIn(st.nodes[0], d.id) == Some(st.nodes[0]);
    }
  }

  /** After a graft the document holds its old nodes and the subtree's. */
  lemma {:induction false} GraftHas(st: State, d: Node, t: Node, len: nat)
    requires Valid(st) && Has(st, d.id) && Get(st, d.id) == d && HasChildList(d)
    ensures forall y :: Has(Graft(st, d, t, len), y) <==> Has(st, y) || y in Ids(t)
  {
    var r := Graft(st, d, t, len);
    GraftBag(st, d, t, len);
    forall y
      ensures y in IdsOf(r.nodes) <==> y in IdsOf(st.nodes) || y in Ids(t)
    {
      assert y in IdsOf(r.nodes) <==> y in Bag(r.nodes);
      assert y in IdsOf(st.nodes) <==> y in Bag(st.nodes);
      assert y in Ids(t) <==> y in multiset(Ids(t));
    }
  }

  /** Grafting a subtree of fresh identifiers keeps the document valid. */
  lemma {:induction false} GraftValid(st: State, d: Node, t: Node, len: nat)
    requires Valid(st) && Has(st, d.id) && Get(st, d.id) == d && HasChildList(d) && UniqueNode(t)
    requires forall y :: y in Ids(t) ==> st.next <= y < st.next + len
    ensures Valid(Graft(st, d, t, len))
  {
    var r := Graft(st, d, t, len);
    var old_, new_ := Bag(st.nodes), multiset(Ids(t));
    GraftHead(st, d, t, len);
    GraftHas(st, d, t, len);
    GraftBag(st, d, t, len);
    assert Bag(r.nodes) == old_ + new_;
    forall y | y in new_
      ensures y !in old_
    {
      assert y in Ids(t);
      FreshNotIn(st, y);
    }
    NoDupSum(old_, new_);
    assert Unique(r.nodes);
    forall y | y in IdsOf(r.nodes)
      ensures y < r.next
    {
      assert Has(r, y);
    }
  }

  /** After a graft, d carries the new subtree as its last child. */
  lemma {:induction false} GraftPlaces(st: State, d: Node, t: Node, len: nat)
    requires Valid(st) && Has(st, d.id) && Get(st, d.id) == d && HasChildList(d)
    ensures Has(Graft(st, d, t, len), d.id) && Get(Graft(st, d, t, len), d.id) == WithKids(d, Kids(d) + [t])
  {
    FindIffIn(st.nodes, d.id);
    ReplaceFindSelf(st.nodes, d.id, WithKids(d, Kids(d) + [t]));
    FindIffIn(Graft(st, d, t, len).nodes, d.id);
  }

  /** A chain carries only fresh identifiers, each once. */
  lemma {:induction false} ChainFresh(tags: seq<string>, k: nat)
    requires tags != []
    ensures UniqueNode(Chain(tags, k))
    ensures forall y :: y in Ids(Chain(tags, k)) ==> k <= y < k + |tags|
    ensures multiset(Ids(Chain(tags, k))) == multiset(Transplant.Span(k, |tags|))
  {
    ChainIds(tags, k);
    Transplant.SpanBag(k, |tags|);
    forall y | y in Ids(Chain(tags, k))
      ensures k <= y < k + |tags|
    {
      assert y in multiset(Transplant.Span(k, |tags|));
    }
  }

  // ---------------------------------------------------------------- the operation

  /** The document after the call, and its answer: the node found or made, or the exception of a failed appendChild. */
  datatype Created = Created(st: State, result: Outcome<Option<NodeId>>)

  /** The empty-element auto-creation of a path below node x (a document with a root node). */
  function CreateByName(st: State, x: NodeId, path: string): Created
    requires Valid(st) && Has(st, x)
  {
    CreateAlong(st, x, Split(path))
  }

  /** The same, on the segments of the path: the lookup, then a chain of new elements where it stops. */
  function CreateAlong(st: State, x: NodeId, tags: seq<string>): Created
    requires Valid(st) && Has(st, x)
  {
    var start := Get(st, x);
    match Resolve(start, tags)
    case Some(m) => Created(st, Ok(Some(m.id)))
    case None =>
      assert Walk(start, tags).1 < |tags| by {
        if Walk(start, tags).1 == |tags| {
          WalkComplete(start, tags);
        }
      }
      CreateAt(st, Walk(start, tags).0, tags, Walk(start, tags).1)
  }

  /**
   * The creating half, from node d at segment j: a new element for segment j appended to d and
   * one under each new element for every later segment, or the refused first appendChild.
   */
  function CreateAt(st: State, d: Node, tags: seq<string>, j: nat): Created
    requires j < |tags|
  {
    if KidAllowed(d, Element(st.next, tags[j], [], [])) then
      Created(Graft(st, d, Chain(tags[j..], st.next), |tags| - j), Ok(Some(st.next + |tags| - j - 1)))
    else
      Created(CreateElement(st, tags[j]), Fail(HIERARCHY_REQUEST_ERR))
  }

  /** Where the walk stops short of the path, the call grafts there or fails as appendChild does. */
  lemma CreateAtWalkStop(st: State, x: NodeId, tags: seq<string>, d: Node, j: nat)
    requires Valid(st) && Has(st, x) && Resolve(Get(st, x), tags).None?
    requires Walk(Get(st, x), tags).0 == d && Walk(Get(st, x), tags).1 == j && j < |tags|
    ensures CreateAlong(st, x, tags).st == CreateAt(st, d, tags, j).st
    ensures CreateAlong(st, x, tags).result == CreateAt(st, d, tags, j).result
  {
  }

  /** The creating half grafts the chain when d takes its first element and fails as appendChild does otherwise. */
  lemma CreateAtSpec(st: State, d: Node, tags: seq<string>, j: nat)
    requires j < |tags|
    ensures var a := CreateAt(st, d, tags, j);
      if KidAllowed(d, Element(st.next, tags[j], [], [])) then
        a.st == Graft(st, d, Chain(tags[j..], st.next), |tags| - j) && a.result == Ok(Some(st.next + |tags| - j - 1))
      else
        a.st == CreateElement(st, tags[j]) && a.result == Fail(HIERARCHY_REQUEST_ERR)
  {
  }

  /** The node a walk reaches is in the document, as the walk saw it. */
  lemma {:induction false} WalkInState(st: State, x: NodeId, tags: seq<string>)
    requires Valid(st) && Has(st, x)
    ensures Has(st, Walk(Get(st, x), tags).0.id) && Get(st, Walk(Get(st, x), tags).0.id) == Walk(Get(st, x), tags).0
    ensures Walk(Get(st, x), tags).0.id in Ids(Get(st, x))
  {
    var start := Get(st, x);
    var d := Walk(start, tags).0;
    if Walk(start, tags).1 == |tags| {
      WalkComplete(start, tags);
      ResolveSound(start, tags);
    } else {
      WalkStops(start, tags);
    }
    FindIffIn(st.nodes, x);
    FoundOccurs(st.nodes, x);
    OccursTrans(st.nodes, start, d);
    OccursHasId(st.nodes, d);
    FindOccurring(st.nodes, d);
    IdsHead(d);
    OccursInIdsSub(start, d, d.id);
  }

  /** When the whole path resolves, nothing changes and the answer is the node found. */
  lemma {:induction false} CreateExisting(st: State, x: NodeId, tags: seq<string>)
    requires Valid(st) && Has(st, x) && Resolve(Get(st, x), tags).Some?
    ensures CreateAlong(st, x, tags).st == st
    ensures CreateAlong(st, x, tags).result == Ok(Some(Resolve(Get(st, x), tags).value.id))
  {
  }

  /** Otherwise the call is a graft of the chain for the remaining segments where the walk stopped. */
  lemma {:induction false} CreateShape(st: State, x: NodeId, tags: seq<string>)
    requires Valid(st) && Has(st, x) && Resolve(Get(st, x), tags).None?
    requires CreateAlong(st, x, tags).result.Ok?
    ensures var w := Walk(Get(st, x), tags); var r := CreateAlong(st, x, tags);
      w.1 < |tags| && HasChildList(w.0) && Has(st, w.0.id) && Get(st, w.0.id) == w.0
      && r.st == Graft(st, w.0, Chain(tags[w.1..], st.next), |tags| - w.1)
      && r.result == Ok(Some(st.next + |tags| - w.1 - 1))
  {
    var start := Get(st, x);
    var w := Walk(start, tags);
    assert w.1 < |tags| by {
      if w.1 == |tags| {
        WalkComplete(start, tags);
      }
    }
    assert Has(st, w.0.id) && Get(st, w.0.id) == w.0 by {
      WalkInState(st, x, tags);
    }
    var a := CreateAt(st, w.0, tags, w.1);
    assert CreateAlong(st, x, tags).st == a.st && CreateAlong(st, x, tags).result == a.result by {
      CreateAtWalkStop(st, x, tags, w.0, w.1);
    }
    assert KidAllowed(w.0, Element(st.next, tags[w.1], [], []))
      && a.st == Graft(st, w.0, Chain(tags[w.1..], st.next), |tags| - w.1)
      && a.result == Ok(Some(st.next + |tags| - w.1 - 1)) by {
      CreateAtSpec(st, w.0, tags, w.1);
    }
  }

  /** Otherwise, when the node the walk reaches accepts an element, the document stays valid. */
  lemma {:induction false} CreateAppendsValid(st: State, x: NodeId, tags: seq<string>)
    requires Valid(st) && Has(st, x) && Resolve(Get(st, x), tags).None?
    requires CreateAlong(st, x, tags).result.Ok?
    ensures var w := Walk(Get(st, x), tags); var r := CreateAlong(st, x, tags).st;
      w.1 < |tags| && Valid(r) && r.next == st.next + |tags| - w.1
  {
    CreateShape(st, x, tags);
    var w := Walk(Get(st, x), tags);
    ChainFresh(tags[w.1..], st.next);
    GraftValid(st, w.0, Chain(tags[w.1..], st.next), |tags| - w.1);
  }

  /** Grafting the chain for segments j onward adds the next identifiers, one per segment. */
  lemma GraftChainBag(st: State, d: Node, tags: seq<string>, j: nat)
    requires Valid(st) && Has(st, d.id) && Get(st, d.id) == d && HasChildList(d) && j < |tags|
    ensures Bag(Graft(st, d, Chain(tags[j..], st.next), |tags| - j).nodes)
      == Bag(st.nodes) + multiset(Transplant.Span(st.next, |tags| - j))
  {
    var ch := Chain(tags[j..], st.next);
    assert |tags[j..]| == |tags| - j;
    assert multiset(Ids(ch)) == multiset(Transplant.Span(st.next, |tags| - j)) by {
      ChainFresh(tags[j..], st.next);
    }
    assert Bag(Graft(st, d, ch, |tags| - j).nodes) == Bag(st.nodes) + multiset(Ids(ch)) by {
      GraftBag(st, d, ch, |tags| - j);
    }
  }
  /** The graft keeps the document valid and every node already in it. */
  lemma GraftChainKeeps(st: State, d: Node, tags: seq<string>, j: nat)
    requires Valid(st) && Has(st, d.id) && Get(st, d.id) == d && HasChildList(d) && j < |tags|
    ensures var g := Graft(st, d, Chain(tags[j..], st.next), |tags| - j);
      Valid(g) && forall y :: Has(st, y) ==> Has(g, y)
  {
    var ch := Chain(tags[j..], st.next);
    var g := Graft(st, d, ch, |tags| - j);
    assert |tags[j..]| == |tags| - j;
    assert UniqueNode(ch) && forall y :: y in Ids(ch) ==> st.next <= y < st.next + (|tags| - j) by {
      ChainFresh(tags[j..], st.next);
    }
    assert Valid(g) by {
      GraftValid(st, d, ch, |tags| - j);
    }
    assert Bag(g.nodes) == Bag(st.nodes) + multiset(Ids(ch)) by {
      GraftBag(st, d, ch, |tags| - j);
    }
    forall y | Has(st, y)
      ensures Has(g, y)
    {
      assert y in multiset(IdsOf(st.nodes));
      assert y in multiset(IdsOf(g.nodes));
    }
  }


  /**
   * ... the new chain hangs under the node the walk reached as its last child, and the
   * answer is the innermost new element.
   */
  lemma {:induction false} CreateAppendsPlaces(st: State, x: NodeId, tags: seq<string>)
    requires Valid(st) && Has(st, x) && Resolve(Get(st, x), tags).None?
    requires CreateAlong(st, x, tags).result.Ok?
    ensures var w := Walk(Get(st, x), tags); var r := CreateAlong(st, x, tags);
      w.1 < |tags| && HasChildList(w.0)
      && Has(r.st, w.0.id) && Get(r.st, w.0.id) == WithKids(w.0, Kids(w.0) + [Chain(tags[w.1..], st.next)])
      && r.result == Ok(Some(st.next + |tags| - w.1 - 1))
  {
    CreateShape(st, x, tags);
    var w := Walk(Get(st, x), tags);
    GraftPlaces(st, w.0, Chain(tags[w.1..], st.next), |tags| - w.1);
  }

  /** After the graft, the whole path resolves from x to the innermost new element. */
  lemma {:induction false} GraftResolves(st: State, x: NodeId, tags: seq<string>)
    requires Valid(st) && Has(st, x)
    requires Walk(Get(st, x), tags).1 < |tags| && HasChildList(Walk(Get(st, x), tags).0)
    ensures var w := Walk(Get(st, x), tags); var r := Graft(st, w.0, Chain(tags[w.1..], st.next), |tags| - w.1);
      Has(r, x) && Resolve(Get(r, x), tags) == Some(ChainEnd(tags[w.1..], st.next))
  {
    var start := Get(st, x);
    var w := Walk(start, tags);
    var ch := Chain(tags[w.1..], st.next);
    ChainFresh(tags[w.1..], st.next);
    WalkInState(st, x, tags);
    GraftAbove(st, x, w.0, ch, |tags| - w.1);
    FindIffIn(st.nodes, x);
    FoundOccurs(st.nodes, x);
    UniqueInside(st.nodes, start);
    WalkThenResolve(start, tags, st.next);
  }

  /** The document's node x, after a graft below it. */
  lemma {:induction false} GraftAbove(st: State, x: NodeId, d: Node, t: Node, len: nat)
    requires Valid(st) && Has(st, x) && Has(st, d.id) && Get(st, d.id) == d && HasChildList(d)
    requires d.id in Ids(Get(st, x)) && UniqueNode(t)
    requires forall y :: y in Ids(t) ==> st.next <= y < st.next + len
    ensures Has(Graft(st, d, t, len), x)
    ensures Get(Graft(st, d, t, len), x) == ReplaceIn(Get(st, x), d.id, WithKids(d, Kids(d) + [t]))
  {
    var big := WithKids(d, Kids(d) + [t]);
    GraftValid(st, d, t, len);
    GraftHas(st, d, t, len);
    GraftPlaces(st, d, t, len);
    FindIffIn(st.nodes, x);
    if x == d.id {
      ReplaceFindSelf(st.nodes, x, big);
    } else {
      ReplaceFindAncestor(st.nodes, x, d.id, big);
    }
  }

  /** After a call that created nodes, a second call finds the path and changes nothing. */
  lemma {:induction false} CreateAgain(st: State, x: NodeId, tags: seq<string>)
    requires Valid(st) && Has(st, x) && Resolve(Get(st, x), tags).None?
    requires CreateAlong(st, x, tags).result.Ok?
    ensures Valid(CreateAlong(st, x, tags).st) && Has(CreateAlong(st, x, tags).st, x)
    ensures CreateAlong(CreateAlong(st, x, tags).st, x, tags).st == CreateAlong(st, x, tags).st
    ensures CreateAlong(CreateAlong(st, x, tags).st, x, tags).result == CreateAlong(st, x, tags).result
  {
    CreateAgainVia(st, x, tags, CreateAlong(st, x, tags).st);
  }

  /** CreateAgain, with the state the first call leaves given a name. */
  lemma {:induction false} CreateAgainVia(st: State, x: NodeId, tags: seq<string>, g: State)
    requires Valid(st) && Has(st, x) && Resolve(Get(st, x), tags).None?
    requires CreateAlong(st, x, tags).result.Ok? && g == CreateAlong(st, x, tags).st
    ensures Valid(g) && Has(g, x)
    ensures CreateAlong(g, x, tags).st == g && CreateAlong(g, x, tags).result == CreateAlong(st, x, tags).result
  {
    AgainResolves(st, x, tags, g);
    CreateExisting(g, x, tags);
  }

  /** After a call that created nodes, the whole path resolves to the element the call answered. */
  lemma {:induction false} AgainResolves(st: State, x: NodeId, tags: seq<string>, g: State)
    requires Valid(st) && Has(st, x) && Resolve(Get(st, x), tags).None?
    requires CreateAlong(st, x, tags).result.Ok? && g == CreateAlong(st, x, tags).st
    ensures Valid(g) && Has(g, x) && Resolve(Get(g, x), tags).Some?
    ensures CreateAlong(st, x, tags).result == Ok(Some(Resolve(Get(g, x), tags).value.id))
  {
    var start := Get(st, x);
    var w := Walk(start, tags);
    assert w.1 < |tags| by {
      if w.1 == |tags| {
        WalkComplete(start, tags);
      }
    }
    var a := CreateAt(st, w.0, tags, w.1);
    assert CreateAlong(st, x, tags).st == a.st && CreateAlong(st, x, tags).result == a.result by {
      CreateAtWalkStop(st, x, tags, w.0, w.1);
    }
    assert Valid(g) && Has(g, x) && Resolve(Get(g, x), tags).Some?
      && a.result == Ok(Some(Resolve(Get(g, x), tags).value.id)) by {
      AgainAt(st, x, tags, w.0, w.1, g);
    }
  }

  /** The same, from where the walk stopped. */
  lemma AgainAt(st: State, x: NodeId, tags: seq<string>, d: Node, j: nat, g: State)
    requires Valid(st) && Has(st, x)
    requires Walk(Get(st, x), tags).0 == d && Walk(Get(st, x), tags).1 == j && j < |tags|
    requires CreateAt(st, d, tags, j).result.Ok? && g == CreateAt(st, d, tags, j).st
    ensures Valid(g) && Has(g, x) && Resolve(Get(g, x), tags).Some?
    ensures CreateAt(st, d, tags, j).result == Ok(Some(Resolve(Get(g, x), tags).value.id))
  {
    var a := CreateAt(st, d, tags, j);
    assert KidAllowed(d, Element(st.next, tags[j], [], []))
      && a.st == Graft(st, d, Chain(tags[j..], st.next), |tags| - j)
      && a.result == Ok(Some(st.next + |tags| - j - 1)) by {
      CreateAtSpec(st, d, tags, j);
    }
    var e := ChainEnd(tags[j..], st.next);
    assert e.id == st.next + |tags| - j - 1;
    assert Valid(g) && Has(g, x) && Resolve(Get(g, x), tags) == Some(e) by {
      GraftFoundAgain(st, x, tags, d, j, g);
    }
  }

  /** The graft of the chain where the walk stopped: the whole path then resolves to the innermost new element. */
  lemma {:induction false} GraftFoundAgain(st: State, x: NodeId, tags: seq<string>, d: Node, j: nat, g: State)
    requires Valid(st) && Has(st, x)
    requires Walk(Get(st, x), tags).0 == d && Walk(Get(st, x), tags).1 == j && j < |tags| && HasChildList(d)
    requires g == Graft(st, d, Chain(tags[j..], st.next), |tags| - j)
    ensures Valid(g) && Has(g, x)
    ensures Resolve(Get(g, x), tags) == Some(ChainEnd(tags[j..], st.next))
  {
    assert Valid(g) by {
      WalkInState(st, x, tags);
      ChainFresh(tags[j..], st.next);
      GraftValid(st, d, Chain(tags[j..], st.next), |tags| - j);
    }
    assert Has(g, x) && Resolve(Get(g, x), tags) == Some(ChainEnd(tags[j..], st.next)) by {
      GraftResolves(st, x, tags);
    }
  }

  /** A second identical call creates nothing: the document is as the first left it, with the same answer. */
  lemma {:induction false} CreateIdempotent(st: State, x: NodeId, tags: seq<string>)
    requires Valid(st) && Has(st, x) && CreateAlong(st, x, tags).result.Ok?
    ensures Valid(CreateAlong(st, x, tags).st) && Has(CreateAlong(st, x, tags).st, x)
    ensures CreateAlong(CreateAlong(st, x, tags).st, x, tags).st == CreateAlong(st, x, tags).st
    ensures CreateAlong(CreateAlong(st, x, tags).st, x, tags).result == CreateAlong(st, x, tags).result
  {
    if Resolve(Get(st, x), tags).None? {
      CreateAgain(st, x, tags);
    } else {
      CreateExisting(st, x, tags);
    }
  }

  /** A tree of a unique forest is unique. */
  lemma {:induction false} UniqueInside(s: seq<Node>, t: Node)
    requires Unique(s) && Occurs(s, t)
    ensures UniqueNode(t)
    decreases s
  {
    UniqueParts(s);
    if OccursIn(s[0], t) {
      UniqueInsideTree(s[0], t);
    } else {
      UniqueInside(s[1..], t);
    }
  }

  lemma {:induction false} UniqueInsideTree(n: Node, t: Node)
    requires UniqueNode(n) && OccursIn(n, t)
    ensures UniqueNode(t)
    decreases n
  {
    if n != t {
      UniqueKids(n);
      UniqueInside(Kids(n), t);
    }
  }

  // ---------------------------------------------------------------- the steps of the creating loop

  /** The first new element, appended where the walk stopped: a chain of one. */
  lemma {:induction false} ChainStart(st: State, d: Node, t: string)
    requires Valid(st) && Has(st, d.id) && Get(st, d.id) == d && KidAllowed(d, Element(st.next, t, [], []))
    ensures Valid(CreateElement(st, t)) && Has(CreateElement(st, t), d.id) && Has(CreateElement(st, t), st.next)
    ensures AppendChild(CreateElement(st, t), d.id, st.next) == Ok(Graft(st, d, Chain([t], st.next), 1))
  {
    var e := Element(st.next, t, [], []);
    CreateSpec(st, e);
    assert Ids(e) == [st.next];
    FindIffIn(st.nodes, st.next);
    PruneLast(st.nodes, e);
  }

  /** An identifier not yet given out is in no tree of the document. */
  lemma {:induction false} FreshNotIn(st: State, y: NodeId)
    requires Valid(st) && y >= st.next
    ensures y !in IdsOf(st.nodes) && y !in Bag(st.nodes)
  {
  }

  /** An identifier not yet given out is nowhere in the document. */
  lemma {:induction false} FreshAbsent(st: State, d: Node, y: NodeId)
    requires Valid(st) && Has(st, d.id) && Get(st, d.id) == d && y >= st.next
    ensures y !in IdsOf(st.nodes) && y !in Ids(d) && y !in IdsOf(Kids(d)) && y != d.id
  {
    FindSubBag(st.nodes, d.id);
    FreshNotIn(st, y);
    assert y !in multiset(Ids(d));
    IdsHead(d);
    if HasChildList(d) {
      IdsWithKids(d, Kids(d));
    }
  }

  /** The innermost element's identifier is in the chain. */
  lemma {:induction false} ChainHasEnd(tags: seq<string>, k: nat)
    requires tags != []
    ensures k + |tags| - 1 in Ids(Chain(tags, k))
  {
    ChainIds(tags, k);
    assert Transplant.Span(k, |tags|)[|tags| - 1] == k + |tags| - 1;
  }

  /** The identifiers of a node given one more last child. */
  lemma {:induction false} AppendKidIds(p: Node, c: Node)
    requires HasChildList(p)
    ensures Ids(WithKids(p, Kids(p) + [c])) == Ids(p) + Ids(c)
  {
    IdsWithKids(p, Kids(p) + [c]);
    IdsOfConcat(Kids(p), [c]);
    IdsOfSingle(c);
  }

  /** Every node of a grafted subtree is in the document, as it is in the subtree. */
  lemma {:induction false} GraftFind(st: State, d: Node, t: Node, len: nat, y: NodeId)
    requires Valid(st) && Has(st, d.id) && Get(st, d.id) == d && HasChildList(d) && UniqueNode(t)
    requires forall z :: z in Ids(t) ==> st.next <= z < st.next + len
    requires y in Ids(t)
    ensures FindIn(t, y).Some?
    ensures Has(Graft(st, d, t, len), y) && Get(Graft(st, d, t, len), y) == FindIn(t, y).value
  {
    var big := WithKids(d, Kids(d) + [t]);
    var r := Graft(st, d, t, len);
    GraftValid(st, d, t, len);
    AppendKidIds(d, t);
    FindIffIn(st.nodes, d.id);
    ReplaceFindInside(st.nodes, d.id, big, y);
    FreshAbsent(st, d, y);
    FindAppend(Kids(d), t, y);
    assert FindIn(big, y) == Find(Kids(d) + [t], y);
    FindInIffIn(t, y);
    FindIffIn(r.nodes, y);
  }

  /** The innermost element of a grafted chain is in the document, childless. */
  lemma {:induction false} GraftEnd(st: State, d: Node, tags: seq<string>)
    requires Valid(st) && Has(st, d.id) && Get(st, d.id) == d && HasChildList(d) && tags != []
    ensures Valid(Graft(st, d, Chain(tags, st.next), |tags|))
    ensures Has(Graft(st, d, Chain(tags, st.next), |tags|), st.next + |tags| - 1)
    ensures Get(Graft(st, d, Chain(tags, st.next), |tags|), st.next + |tags| - 1) == ChainEnd(tags, st.next)
  {
    ChainFresh(tags, st.next);
    ChainHasEnd(tags, st.next);
    GraftFind(st, d, Chain(tags, st.next), |tags|, st.next + |tags| - 1);
    ChainFindEnd(tags, st.next);
    GraftValid(st, d, Chain(tags, st.next), |tags|);
  }

  /** Giving the innermost element of a grafted chain a child lengthens the chain by one. */
  lemma {:induction false} GraftExtend(st: State, d: Node, tags: seq<string>, t: string)
    requires Valid(st) && Has(st, d.id) && Get(st, d.id) == d && HasChildList(d) && tags != []
    ensures var last := st.next + |tags| - 1;
      Replace(Graft(st, d, Chain(tags, st.next), |tags|).nodes, last,
              Element(last, tags[|tags| - 1], [], [Element(st.next + |tags|, t, [], [])]))
      == Graft(st, d, Chain(tags + [t], st.next), |tags| + 1).nodes
  {
    var ch := Chain(tags, st.next);
    var big := WithKids(d, Kids(d) + [ch]);
    var last := st.next + |tags| - 1;
    var small := Element(last, tags[|tags| - 1], [], [Element(st.next + |tags|, t, [], [])]);
    assert last in Ids(big) && last !in IdsOf(st.nodes) && last !in IdsOf(Kids(d)) && last in Ids(ch) by {
      ChainHasEnd(tags, st.next);
      AppendKidIds(d, ch);
      FreshAbsent(st, d, last);
    }
    assert d.id in IdsOf(st.nodes) by {
      FindIffIn(st.nodes, d.id);
    }
    assert Replace(Replace(st.nodes, d.id, big), last, small) == Replace(st.nodes, d.id, ReplaceIn(big, last, small)) by {
      ReplaceCompose(st.nodes, d.id, big, last, small);
    }
    assert ReplaceIn(ch, last, small) == Chain(tags + [t], st.next) by {
      ChainExtend(tags, t, st.next);
    }
    assert ReplaceIn(big, last, small) == WithKids(d, Kids(d) + [ReplaceIn(ch, last, small)]) by {
      FreshAbsent(st, d, last);
      ReplaceUnderLast(d, ch, last, small);
    }
  }

  /** Replacing inside the last child of d rebuilds d with that child replaced. */
  lemma ReplaceUnderLast(d: Node, ch: Node, x: NodeId, m: Node)
    requires HasChildList(d) && x != d.id && x !in IdsOf(Kids(d)) && x in Ids(ch)
    ensures ReplaceIn(WithKids(d, Kids(d) + [ch]), x, m) == WithKids(d, Kids(d) + [ReplaceIn(ch, x, m)])
  {
    ReplaceAfter(Kids(d), ch, x, m);
  }

  /** Each further element, appended under the innermost so far: the chain grows by one. */
  lemma {:induction false} ChainStep(st: State, d: Node, tags: seq<string>, t: string, cur: State, last: NodeId)
    requires Valid(st) && Has(st, d.id) && Get(st, d.id) == d && HasChildList(d) && tags != []
    requires cur == Graft(st, d, Chain(tags, st.next), |tags|) && last == st.next + |tags| - 1
    ensures Valid(cur) && cur.next == st.next + |tags|
    ensures Valid(CreateElement(cur, t)) && Has(CreateElement(cur, t), last) && Has(CreateElement(cur, t), cur.next)
    ensures AppendChild(CreateElement(cur, t), last, cur.next).Ok?
      && AppendChild(CreateElement(cur, t), last, cur.next).value == Graft(st, d, Chain(tags + [t], st.next), |tags| + 1)
  {
    var name := tags[|tags| - 1];
    assert Valid(cur) && Has(cur, last) && Get(cur, last) == Element(last, name, [], []) by {
      GraftEnd(st, d, tags);
    }
    var small := Element(last, name, [], [Element(st.next + |tags|, t, [], [])]);
    var grown := Graft(st, d, Chain(tags + [t], st.next), |tags| + 1);
    assert Replace(cur.nodes, last, small) == grown.nodes by {
      GraftExtend(st, d, tags, t);
    }
    assert cur.next == st.next + |tags| && grown.next == cur.next + 1;
    AppendToEmpty(cur, last, name, t);
  }

  /** appendChild of a new element under an element that has no children yet. */
  lemma AppendToEmpty(cur: State, last: NodeId, name: string, t: string)
    requires Valid(cur) && Has(cur, last) && Get(cur, last) == Element(last, name, [], [])
    ensures var st1 := CreateElement(cur, t);
      Valid(st1) && Has(st1, last) && Has(st1, cur.next)
      && AppendChild(st1, last, cur.next)
         == Ok(State(Replace(cur.nodes, last, Element(last, name, [], [Element(cur.next, t, [], [])])), cur.next + 1))
  {
    var end := Element(last, name, [], []);
    var e := Element(cur.next, t, [], []);
    var st1 := CreateElement(cur, t);
    assert st1.nodes == cur.nodes + [e] && st1.next == cur.next + 1;
    assert Valid(st1) && Has(st1, cur.next) && Get(st1, cur.next) == e
      && Has(st1, last) && Get(st1, last) == end by {
      assert Ids(e) == [cur.next];
      CreateSpec(cur, e);
    }
    assert Prune(st1.nodes, cur.next) == cur.nodes by {
      FindIffIn(cur.nodes, cur.next);
      PruneLast(cur.nodes, e);
    }
    assert Kids(end) + [e] == [e];
  }
}
