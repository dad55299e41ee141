/**
 * The W3C DOM tree the XmlDocument facade works on, as values.
 *
 * Every node carries an identifier standing for its object identity; a document keeps its
 * identifiers unique (see module Dom). A forest is a sequence of trees searched in document
 * order (preorder). The operations here act on the FIRST node of a forest with a given
 * identifier, which under uniqueness is the one node with that identifier.
 */
module DomTree {
  import opened Wrappers

  type NodeId = nat

  /** An attribute of an element: its name and its value. */
  datatype Attr = Attr(name: string, value: string)

  /** The node kinds the facade meets: element, text, CDATA section, comment, processing instruction, document. */
  datatype Node =
    | Element(id: NodeId, tag: string, attrs: seq<Attr>, children: seq<Node>)
    | Text(id: NodeId, text: Option<string>)
    | CData(id: NodeId, data: string)
    | Comment(id: NodeId, data: string)
    | Instruction(id: NodeId, target: string, data: string)
    | DocRoot(id: NodeId, children: seq<Node>)

  /** getNodeName, as section 1.1.1 of DOM Level 2 Core fixes it for each kind. */
  function NodeName(n: Node): string
  {
    match n
    case Element(_, tag, _, _) => tag
    case Text(_, _) => "#text"
    case CData(_, _) => "#cdata-section"
    case Comment(_, _) => "#comment"
    case Instruction(_, target, _) => target
    case DocRoot(_, _) => "#document"
  }

  /** Only elements and the document node have children. */
  predicate HasChildList(n: Node)
  {
    n.Element? || n.DocRoot?
  }

  /** getChildNodes: the children of a node, empty for a leaf kind. */
  function Kids(n: Node): seq<Node>
  {
    if HasChildList(n) then n.children else []
  }

  /** The node with its child list replaced. */
  function WithKids(n: Node, cs: seq<Node>): Node
    requires HasChildList(n)
  {
    n.(children := cs)
  }

  // ---------------------------------------------------------------- identifiers

  /** The identifiers of a tree in document order. */
  function Ids(n: Node): seq<NodeId>
    decreases n
  {
    match n
    case Element(_, _, _, cs) => [n.id] + IdsOf(cs)
    case DocRoot(_, cs) => [n.id] + IdsOf(cs)
    case _ => [n.id]
  }

  /** The identifiers of a forest in document order. */
  function IdsOf(s: seq<Node>): seq<NodeId>
    decreases s
  {
    if s == [] then [] else Ids(s[0]) + IdsOf(s[1..])
  }

  /** The identifiers as a bag: how often each occurs. */
  function Bag(s: seq<Node>): multiset<NodeId>
  {
    multiset(IdsOf(s))
  }

  /** No identifier occurs twice. */
  ghost predicate NoDup(b: multiset<NodeId>)
  {
    forall y :: b[y] <= 1
  }

  ghost predicate Unique(s: seq<Node>)
  {
    NoDup(Bag(s))
  }

  ghost predicate UniqueNode(n: Node)
  {
    NoDup(multiset(Ids(n)))
  }

  /** A sum of bags has no duplicate exactly when neither part has one and they share nothing. */
  lemma NoDupSum(a: multiset<NodeId>, b: multiset<NodeId>)
    ensures NoDup(a + b) <==> NoDup(a) && NoDup(b) && (forall y :: y in a ==> y !in b)
  {
    if NoDup(a + b) {
      forall y
        ensures a[y] <= 1 && b[y] <= 1 && (y in a ==> y !in b)
      {
        assert (a + b)[y] == a[y] + b[y];
      }
    }
    if NoDup(a) && NoDup(b) && (forall y :: y in a ==> y !in b) {
      forall y
        ensures (a + b)[y] <= 1
      {
        assert (a + b)[y] == a[y] + b[y];
        if y in a {
          assert y !in b;
        }
      }
    }
  }

  lemma IdsOfConcat(a: seq<Node>, b: seq<Node>)
    ensures IdsOf(a + b) == IdsOf(a) + IdsOf(b)
    decreases a
  {
    if a == [] {
      assert a + b == b;
    } else {
      assert (a + b)[1..] == a[1..] + b;
      IdsOfConcat(a[1..], b);
    }
  }

  lemma IdsOfSingle(n: Node)
    ensures IdsOf([n]) == Ids(n)
  {
    assert [n][1..] == [];
  }

  /** The identifiers of a forest are those of its i-th tree plus those of the rest. */
  lemma BagSplit(s: seq<Node>, i: nat)
    requires i < |s|
    ensures Bag(s) == Bag(s[..i]) + multiset(Ids(s[i])) + Bag(s[i+1..])
  {
    assert s == s[..i] + [s[i]] + s[i+1..];
    IdsOfConcat(s[..i] + [s[i]], s[i+1..]);
    IdsOfConcat(s[..i], [s[i]]);
    IdsOfSingle(s[i]);
  }

  /** Every tree of a unique forest is unique, and no identifier of the first tree recurs in the rest. */
  lemma UniqueParts(s: seq<Node>)
    requires s != [] && Unique(s)
    ensures UniqueNode(s[0]) && Unique(s[1..])
    ensures forall y :: y in Ids(s[0]) ==> y !in IdsOf(s[1..])
  {
    assert Bag(s) == multiset(Ids(s[0])) + Bag(s[1..]);
    NoDupSum(multiset(Ids(s[0])), Bag(s[1..]));
    forall y | y in Ids(s[0])
      ensures y !in IdsOf(s[1..])
    {
      assert y in multiset(Ids(s[0]));
    }
  }

  lemma UniqueKids(n: Node)
    requires UniqueNode(n)
    ensures Unique(Kids(n)) && n.id !in IdsOf(Kids(n))
  {
    assert multiset(Ids(n)) == multiset{n.id} + Bag(Kids(n));
    NoDupSum(multiset{n.id}, Bag(Kids(n)));
  }

  // ---------------------------------------------------------------- lookup

  /** The first node of a forest, in document order, with identifier x. */
  function Find(s: seq<Node>, x: NodeId): Option<Node>
    decreases s
  {
    if s == [] then None
    else match FindIn(s[0], x)
      case Some(n) => Some(n)
      case None => Find(s[1..], x)
  }

  /** The first node of a tree, in document order, with identifier x. */
  function FindIn(n: Node, x: NodeId): Option<Node>
    decreases n
  {
    if n.id == x then Some(n)
    else match n
      case Element(_, _, _, cs) => Find(cs, x)
      case DocRoot(_, cs) => Find(cs, x)
      case _ => None
  }

  lemma {:induction false} FindIffIn(s: seq<Node>, x: NodeId)
    ensures Find(s, x).Some? <==> x in IdsOf(s)
    ensures Find(s, x).Some? ==> Find(s, x).value.id == x
    decreases s
  {
    if s != [] {
      FindInIffIn(s[0], x);
      FindIffIn(s[1..], x);
    }
  }

  lemma {:induction false} FindInIffIn(n: Node, x: NodeId)
    ensures FindIn(n, x).Some? <==> x in Ids(n)
    ensures FindIn(n, x).Some? ==> FindIn(n, x).value.id == x
    decreases n
  {
    match n
    case Element(_, _, _, cs) => FindIffIn(cs, x);
    case DocRoot(_, cs) => FindIffIn(cs, x);
    case _ =>
  }

  /** r is a node of tree n (n itself or one below it). */
  predicate OccursIn(n: Node, r: Node)
    decreases n
  {
    n == r ||
    match n
    case Element(_, _, _, cs) => Occurs(cs, r)
    case DocRoot(_, cs) => Occurs(cs, r)
    case _ => false
  }

  /** r is a node of forest s. */
  predicate Occurs(s: seq<Node>, r: Node)
    decreases s
  {
    s != [] && (OccursIn(s[0], r) || Occurs(s[1..], r))
  }

  lemma {:induction false} OccursHasId(s: seq<Node>, r: Node)
    requires Occurs(s, r)
    ensures r.id in IdsOf(s)
    decreases s
  {
    if OccursIn(s[0], r) {
      OccursInHasId(s[0], r);
    } else {
      OccursHasId(s[1..], r);
    }
  }

  lemma {:induction false} OccursInHasId(n: Node, r: Node)
    requires OccursIn(n, r)
    ensures r.id in Ids(n)
    decreases n
  {
    if n != r {
      match n
      case Element(_, _, _, cs) => OccursHasId(cs, r);
      case DocRoot(_, cs) => OccursHasId(cs, r);
    }
  }

  /** In a unique forest every node is found by its own identifier. */
  lemma {:induction false} FindOccurring(s: seq<Node>, r: Node)
    requires Unique(s) && Occurs(s, r)
    ensures Find(s, r.id) == Some(r)
    decreases s
  {
    UniqueParts(s);
    if OccursIn(s[0], r) {
      FindInOccurring(s[0], r);
    } else {
      OccursHasId(s[1..], r);
      FindInIffIn(s[0], r.id);
      FindOccurring(s[1..], r);
    }
  }

  lemma {:induction false} FindInOccurring(n: Node, r: Node)
    requires UniqueNode(n) && OccursIn(n, r)
    ensures FindIn(n, r.id) == Some(r)
    decreases n
  {
    if n != r {
      UniqueKids(n);
      match n
      case Element(_, _, _, cs) =>
        OccursHasId(cs, r);
        FindOccurring(cs, r);
      case DocRoot(_, cs) =>
        OccursHasId(cs, r);
        FindOccurring(cs, r);
    }
  }

  /** What Find returns is a node of the forest. */
  lemma {:induction false} FoundOccurs(s: seq<Node>, x: NodeId)
    requires Find(s, x).Some?
    ensures Occurs(s, Find(s, x).value)
    decreases s
  {
    if FindIn(s[0], x).Some? {
      FoundInOccurs(s[0], x);
    } else {
      FoundOccurs(s[1..], x);
    }
  }

  lemma {:induction false} FoundInOccurs(n: Node, x: NodeId)
    requires FindIn(n, x).Some?
    ensures OccursIn(n, FindIn(n, x).value)
    decreases n
  {
    if n.id != x {
      match n
      case Element(_, _, _, cs) => FoundOccurs(cs, x);
      case DocRoot(_, cs) => FoundOccurs(cs, x);
    }
  }

  /** Being a node of is transitive. */
  lemma {:induction false} OccursInTrans(n: Node, m: Node, r: Node)
    requires OccursIn(n, m) && OccursIn(m, r)
    ensures OccursIn(n, r)
    decreases n
  {
    if n != m {
      match n
      case Element(_, _, _, cs) => OccursTrans(cs, m, r);
      case DocRoot(_, cs) => OccursTrans(cs, m, r);
    }
  }

  lemma {:induction false} OccursTrans(s: seq<Node>, m: Node, r: Node)
    requires Occurs(s, m) && OccursIn(m, r)
    ensures Occurs(s, r)
    decreases s
  {
    if OccursIn(s[0], m) {
      OccursInTrans(s[0], m, r);
    } else {
      OccursTrans(s[1..], m, r);
    }
  }

  /** A child of a node is a node of it. */
  lemma ChildOccurs(n: Node, i: nat)
    requires i < |Kids(n)|
    ensures OccursIn(n, Kids(n)[i])
  {
    OccursAt(Kids(n), i);
  }

  /** The i-th tree of a forest is a node of it. */
  lemma {:induction false} OccursAt(s: seq<Node>, i: nat)
    requires i < |s|
    ensures Occurs(s, s[i])
    decreases i
  {
    if i > 0 {
      OccursAt(s[1..], i - 1);
    }
  }

  lemma IdsOfCons(n: Node, t: seq<Node>)
    ensures IdsOf([n] + t) == Ids(n) + IdsOf(t)
  {
    assert ([n] + t)[0] == n;
    assert ([n] + t)[1..] == t;
  }

  // ---------------------------------------------------------------- replacing a node

  /** The forest with its first node with identifier x, subtree and all, replaced by m. */
  function Replace(s: seq<Node>, x: NodeId, m: Node): seq<Node>
    decreases s
  {
    if s == [] then []
    else if x in Ids(s[0]) then [ReplaceIn(s[0], x, m)] + s[1..]
    else [s[0]] + Replace(s[1..], x, m)
  }

  function ReplaceIn(n: Node, x: NodeId, m: Node): Node
    decreases n
  {
    if n.id == x then m
    else match n
      case Element(i, t, a, cs) => Element(i, t, a, Replace(cs, x, m))
      case DocRoot(i, cs) => DocRoot(i, Replace(cs, x, m))
      case _ => n
  }

  lemma ShuffleRight(p: multiset<NodeId>, q: multiset<NodeId>, f: multiset<NodeId>, o: multiset<NodeId>, mm: multiset<NodeId>)
    requires p + f == o + mm
    ensures (p + q) + f == (o + q) + mm
  {
    assert (p + q) + f == (p + f) + q;
  }

  lemma ShuffleLeft(h: multiset<NodeId>, r: multiset<NodeId>, f: multiset<NodeId>, o: multiset<NodeId>, mm: multiset<NodeId>)
    requires r + f == o + mm
    ensures (h + r) + f == (h + o) + mm
  {
    assert (h + r) + f == h + (r + f);
  }

  /** Replacing trades the identifiers of the old subtree for those of the new one. */
  lemma {:induction false} ReplaceBag(s: seq<Node>, x: NodeId, m: Node)
    requires x in IdsOf(s)
    ensures Find(s, x).Some?
    ensures Bag(Replace(s, x, m)) + multiset(Ids(Find(s, x).value)) == Bag(s) + multiset(Ids(m))
    decreases s
  {
    FindIffIn(s, x);
    FindInIffIn(s[0], x);
    IdsOfCons(s[0], s[1..]);
    assert [s[0]] + s[1..] == s;
    if x in Ids(s[0]) {
      var r := ReplaceIn(s[0], x, m);
      ReplaceInBag(s[0], x, m);
      IdsOfCons(r, s[1..]);
      ShuffleRight(multiset(Ids(r)), Bag(s[1..]), multiset(Ids(FindIn(s[0], x).value)), multiset(Ids(s[0])), multiset(Ids(m)));
    } else {
      ReplaceBag(s[1..], x, m);
      IdsOfCons(s[0], Replace(s[1..], x, m));
      ShuffleLeft(multiset(Ids(s[0])), Bag(Replace(s[1..], x, m)), multiset(Ids(Find(s[1..], x).value)), Bag(s[1..]), multiset(Ids(m)));
    }
  }

  lemma {:induction false} ReplaceInBag(n: Node, x: NodeId, m: Node)
    requires x in Ids(n)
    ensures FindIn(n, x).Some?
    ensures multiset(Ids(ReplaceIn(n, x, m))) + multiset(Ids(FindIn(n, x).value)) == multiset(Ids(n)) + multiset(Ids(m))
    decreases n
  {
    FindInIffIn(n, x);
    if n.id != x {
      var cs := Kids(n);
      ReplaceBag(cs, x, m);
      assert FindIn(n, x) == Find(cs, x);
      assert multiset(Ids(ReplaceIn(n, x, m))) == multiset{n.id} + Bag(Replace(cs, x, m));
      assert multiset(Ids(n)) == multiset{n.id} + Bag(cs);
      ShuffleLeft(multiset{n.id}, Bag(Replace(cs, x, m)), multiset(Ids(Find(cs, x).value)), Bag(cs), multiset(Ids(m)));
    }
  }

  /** After replacing, x is found and is the new node. */
  lemma {:induction false} ReplaceFindSelf(s: seq<Node>, x: NodeId, m: Node)
    requires x in IdsOf(s) && m.id == x
    ensures Find(Replace(s, x, m), x) == Some(m)
    decreases s
  {
    if x in Ids(s[0]) {
      ReplaceInFindSelf(s[0], x, m);
    } else {
      FindInIffIn(s[0], x);
      ReplaceFindSelf(s[1..], x, m);
    }
  }

  lemma {:induction false} ReplaceInFindSelf(n: Node, x: NodeId, m: Node)
    requires x in Ids(n) && m.id == x
    ensures FindIn(ReplaceIn(n, x, m), x) == Some(m)
    decreases n
  {
    if n.id != x {
      match n
      case Element(i, t, a, cs) => ReplaceFindSelf(cs, x, m);
      case DocRoot(i, cs) => ReplaceFindSelf(cs, x, m);
    }
  }

  /** An ancestor of the replaced node is found with the replacement made inside it. */
  lemma {:induction false} ReplaceFindAncestor(s: seq<Node>, y: NodeId, x: NodeId, m: Node)
    requires Unique(s) && Find(s, y).Some? && x in Ids(Find(s, y).value) && m.id == x
    ensures Find(Replace(s, x, m), y) == Some(ReplaceIn(Find(s, y).value, x, m))
    decreases s
  {
    UniqueParts(s);
    var n := Find(s, y).value;
    if FindIn(s[0], y).Some? {
      FoundInOccurs(s[0], y);
      OccursInIdsSub(s[0], n, x);
      ReplaceInFindAncestor(s[0], y, x, m);
    } else {
      FoundOccurs(s[1..], y);
      OccursIdsSub(s[1..], n, x);
      ReplaceFindAncestor(s[1..], y, x, m);
    }
  }

  lemma {:induction false} ReplaceInFindAncestor(t: Node, y: NodeId, x: NodeId, m: Node)
    requires UniqueNode(t) && FindIn(t, y).Some? && x in Ids(FindIn(t, y).value) && m.id == x
    ensures FindIn(ReplaceIn(t, x, m), y) == Some(ReplaceIn(FindIn(t, y).value, x, m))
    decreases t
  {
    FindInIffIn(t, y);
    if t.id == y {
    } else {
      UniqueKids(t);
      match t
      case Element(i, tg, a, cs) =>
        FoundOccurs(cs, y);
        OccursIdsSub(cs, FindIn(t, y).value, x);
        ReplaceFindAncestor(cs, y, x, m);
      case DocRoot(i, cs) =>
        FoundOccurs(cs, y);
        OccursIdsSub(cs, FindIn(t, y).value, x);
        ReplaceFindAncestor(cs, y, x, m);
    }
  }

  /** The identifiers of a node of a tree are identifiers of the tree. */
  lemma IdsSubOf(n: Node, r: Node, x: NodeId)
    requires OccursIn(n, r) && x in Ids(r)
    ensures x in Ids(n)
  {
    OccursInIdsSub(n, r, x);
  }

  lemma {:induction false} OccursInIdsSub(n: Node, r: Node, x: NodeId)
    requires OccursIn(n, r) && x in Ids(r)
    ensures x in Ids(n)
    decreases n
  {
    if n != r {
      match n
      case Element(_, _, _, cs) => OccursIdsSub(cs, r, x);
      case DocRoot(_, cs) => OccursIdsSub(cs, r, x);
    }
  }

  lemma {:induction false} OccursIdsSub(s: seq<Node>, r: Node, x: NodeId)
    requires Occurs(s, r) && x in Ids(r)
    ensures x in IdsOf(s)
    decreases s
  {
    if OccursIn(s[0], r) {
      OccursInIdsSub(s[0], r, x);
    } else {
      OccursIdsSub(s[1..], r, x);
    }
  }

  /** A node neither inside the replaced subtree nor above it, and absent from the replacement, is untouched. */
  lemma {:induction false} ReplaceFindOther(s: seq<Node>, y: NodeId, x: NodeId, m: Node)
    requires Unique(s) && Find(s, y).Some? && x in IdsOf(s)
    requires x !in Ids(Find(s, y).value)
    requires Find(s, x).Some? && y !in Ids(Find(s, x).value) && y !in Ids(m)
    ensures Find(Replace(s, x, m), y) == Find(s, y)
    decreases s
  {
    UniqueParts(s);
    FindInIffIn(s[0], x);
    FindInIffIn(s[0], y);
    if x in Ids(s[0]) {
      if y in Ids(s[0]) {
        ReplaceInFindOther(s[0], y, x, m);
      } else {
        FindInIffIn(ReplaceIn(s[0], x, m), y);
        ReplaceInIds(s[0], x, m, y);
      }
    } else {
      if y in Ids(s[0]) {
      } else {
        ReplaceFindOther(s[1..], y, x, m);
      }
    }
  }

  lemma {:induction false} ReplaceInFindOther(t: Node, y: NodeId, x: NodeId, m: Node)
    requires UniqueNode(t) && FindIn(t, y).Some? && x in Ids(t)
    requires x !in Ids(FindIn(t, y).value)
    requires FindIn(t, x).Some? && y !in Ids(FindIn(t, x).value) && y !in Ids(m)
    ensures FindIn(ReplaceIn(t, x, m), y) == FindIn(t, y)
    decreases t
  {
    FindInIffIn(t, y);
    FindInIffIn(t, x);
    if t.id == x || t.id == y {
      assert false;
    } else {
      UniqueKids(t);
      match t
      case Element(i, tg, a, cs) =>
        FindIffIn(cs, x);
        FindIffIn(cs, y);
        ReplaceFindOther(cs, y, x, m);
      case DocRoot(i, cs) =>
        FindIffIn(cs, x);
        FindIffIn(cs, y);
        ReplaceFindOther(cs, y, x, m);
    }
  }

  /** An identifier of the new tree comes from the old tree or the replacement. */
  lemma ReplaceInIds(t: Node, x: NodeId, m: Node, y: NodeId)
    requires x in Ids(t)
    ensures y in Ids(ReplaceIn(t, x, m)) ==> y in Ids(t) || y in Ids(m)
  {
    ReplaceInBag(t, x, m);
    if y in Ids(ReplaceIn(t, x, m)) {
      assert y in multiset(Ids(ReplaceIn(t, x, m)));
      assert y in multiset(Ids(t)) + multiset(Ids(m));
    }
  }

  /** Two replacements, the second inside the first's new subtree, are one. */
  lemma {:induction false} ReplaceCompose(s: seq<Node>, d: NodeId, big: Node, c: NodeId, small: Node)
    requires d in IdsOf(s) && c in Ids(big) && c !in IdsOf(s)
    ensures Replace(Replace(s, d, big), c, small) == Replace(s, d, ReplaceIn(big, c, small))
    decreases s
  {
    if d in Ids(s[0]) {
      IdsOfCons(s[0], s[1..]);
      assert c !in Ids(s[0]);
      ReplaceInCompose(s[0], d, big, c, small);
      ReplaceInContains(s[0], d, big, c);
    } else {
      IdsOfCons(s[0], s[1..]);
      ReplaceCompose(s[1..], d, big, c, small);
    }
  }

  lemma {:induction false} ReplaceInCompose(t: Node, d: NodeId, big: Node, c: NodeId, small: Node)
    requires d in Ids(t) && c in Ids(big) && c !in Ids(t)
    ensures ReplaceIn(ReplaceIn(t, d, big), c, small) == ReplaceIn(t, d, ReplaceIn(big, c, small))
    decreases t
  {
    if t.id != d {
      match t
      case Element(i, tg, a, cs) => ReplaceCompose(cs, d, big, c, small);
      case DocRoot(i, cs) => ReplaceCompose(cs, d, big, c, small);
    }
  }

  lemma {:induction false} ReplaceInContains(t: Node, d: NodeId, big: Node, c: NodeId)
    requires d in Ids(t) && c in Ids(big) && c !in Ids(t)
    ensures c in Ids(ReplaceIn(t, d, big))
  {
    ReplaceInBag(t, d, big);
    FindInIffIn(t, d);
    FoundInOccurs(t, d);
    if c in Ids(FindIn(t, d).value) {
      OccursInIdsSub(t, FindIn(t, d).value, c);
    }
    assert multiset(Ids(FindIn(t, d).value))[c] == 0;
    assert multiset(Ids(t))[c] == 0;
    assert multiset(Ids(big))[c] >= 1;
    var lhs := multiset(Ids(ReplaceIn(t, d, big))) + multiset(Ids(FindIn(t, d).value));
    assert lhs[c] == multiset(Ids(ReplaceIn(t, d, big)))[c] + multiset(Ids(FindIn(t, d).value))[c];
    assert (multiset(Ids(t)) + multiset(Ids(big)))[c] == multiset(Ids(t))[c] + multiset(Ids(big))[c];
    assert multiset(Ids(ReplaceIn(t, d, big)))[c] >= 1;
  }

  // ---------------------------------------------------------------- removing a node

  /** The forest with its first node with identifier x, subtree and all, taken out. */
  function Prune(s: seq<Node>, x: NodeId): seq<Node>
    decreases s
  {
    if s == [] then []
    else if s[0].id == x then s[1..]
    else if x in Ids(s[0]) then [PruneIn(s[0], x)] + s[1..]
    else [s[0]] + Prune(s[1..], x)
  }

  function PruneIn(n: Node, x: NodeId): Node
    decreases n
  {
    match n
    case Element(i, t, a, cs) => Element(i, t, a, Prune(cs, x))
    case DocRoot(i, cs) => DocRoot(i, Prune(cs, x))
    case _ => n
  }

  /** Pruning loses exactly the identifiers of the pruned subtree. */
  lemma {:induction false} PruneBag(s: seq<Node>, x: NodeId)
    requires x in IdsOf(s)
    ensures Find(s, x).Some?
    ensures Bag(Prune(s, x)) + multiset(Ids(Find(s, x).value)) == Bag(s)
    decreases s
  {
    FindIffIn(s, x);
    FindInIffIn(s[0], x);
    if s[0].id == x {
    } else if x in Ids(s[0]) {
      PruneInBag(s[0], x);
      IdsOfCons(PruneIn(s[0], x), s[1..]);
    } else {
      PruneBag(s[1..], x);
      IdsOfCons(s[0], Prune(s[1..], x));
    }
  }

  lemma {:induction false} PruneInBag(n: Node, x: NodeId)
    requires x in Ids(n) && n.id != x
    ensures FindIn(n, x).Some?
    ensures multiset(Ids(PruneIn(n, x))) + multiset(Ids(FindIn(n, x).value)) == multiset(Ids(n))
    decreases n
  {
    FindInIffIn(n, x);
    match n
    case Element(i, t, a, cs) => PruneBag(cs, x);
    case DocRoot(i, cs) => PruneBag(cs, x);
  }

  /** An ancestor of the pruned node is found with the subtree taken out of it. */
  lemma {:induction false} PruneFindAncestor(s: seq<Node>, y: NodeId, x: NodeId)
    requires Unique(s) && Find(s, y).Some? && x in Ids(Find(s, y).value) && x != y
    ensures Find(Prune(s, x), y) == Some(PruneIn(Find(s, y).value, x))
    decreases s
  {
    UniqueParts(s);
    var n := Find(s, y).value;
    FindInIffIn(s[0], y);
    if FindIn(s[0], y).Some? {
      FoundInOccurs(s[0], y);
      OccursInIdsSub(s[0], n, x);
      PruneInFindAncestor(s[0], y, x);
    } else {
      FoundOccurs(s[1..], y);
      OccursIdsSub(s[1..], n, x);
      FindInIffIn(s[0], x);
      PruneFindAncestor(s[1..], y, x);
    }
  }

  lemma {:induction false} PruneInFindAncestor(t: Node, y: NodeId, x: NodeId)
    requires UniqueNode(t) && FindIn(t, y).Some? && x in Ids(FindIn(t, y).value) && x != y
    ensures t.id != x
    ensures FindIn(PruneIn(t, x), y) == Some(PruneIn(FindIn(t, y).value, x))
    decreases t
  {
    FindInIffIn(t, y);
    UniqueKids(t);
    if t.id == y {
      assert x in IdsOf(Kids(t));
    } else {
      match t
      case Element(i, tg, a, cs) =>
        FoundOccurs(cs, y);
        OccursIdsSub(cs, FindIn(t, y).value, x);
        PruneFindAncestor(cs, y, x);
      case DocRoot(i, cs) =>
        FoundOccurs(cs, y);
        OccursIdsSub(cs, FindIn(t, y).value, x);
        PruneFindAncestor(cs, y, x);
    }
  }

  // ---------------------------------------------------------------- structure after an edit

  /** The identifiers of the children: what the child list holds. */
  function KidIds(n: Node): (r: seq<NodeId>)
    ensures |r| == |Kids(n)|
    ensures forall i :: 0 <= i < |r| ==> r[i] == Kids(n)[i].id
  {
    seq(|Kids(n)|, i requires 0 <= i < |Kids(n)| => Kids(n)[i].id)
  }

  lemma IdsHead(n: Node)
    ensures |Ids(n)| > 0 && Ids(n)[0] == n.id && n.id in Ids(n)
  {
  }

  lemma IdsWithKids(n: Node, cs: seq<Node>)
    requires HasChildList(n)
    ensures Ids(WithKids(n, cs)) == [n.id] + IdsOf(cs)
    ensures Ids(n) == [n.id] + IdsOf(Kids(n))
  {
  }

  /** Multiset cancellation. */
  lemma CancelRight(a: multiset<NodeId>, b: multiset<NodeId>, c: multiset<NodeId>)
    requires a + b == c + b
    ensures a == c
  {
    forall z
      ensures a[z] == c[z]
    {
      assert (a + b)[z] == a[z] + b[z] && (c + b)[z] == c[z] + b[z];
    }
  }

  /** A bag below a bag without duplicates has none. */
  lemma NoDupAddend(a: multiset<NodeId>, b: multiset<NodeId>)
    requires NoDup(a + b)
    ensures NoDup(a) && NoDup(b) && forall y :: y in a ==> y !in b
  {
    NoDupSum(a, b);
  }

  /** After pruning x the forest stays unique, loses x, and keeps every identifier outside the pruned subtree. */
  lemma PruneUnique(s: seq<Node>, x: NodeId)
    requires Unique(s) && x in IdsOf(s)
    ensures Find(s, x).Some?
    ensures Unique(Prune(s, x)) && x !in IdsOf(Prune(s, x))
    ensures forall y :: y in IdsOf(s) && y !in Ids(Find(s, x).value) ==> y in IdsOf(Prune(s, x))
    ensures forall y :: y in IdsOf(Prune(s, x)) ==> y in IdsOf(s) && y !in Ids(Find(s, x).value)
  {
    PruneBag(s, x);
    FindIffIn(s, x);
    var a, f := Bag(Prune(s, x)), multiset(Ids(Find(s, x).value));
    NoDupAddend(a, f);
    IdsHead(Find(s, x).value);
    assert x in f;
    forall y | y in IdsOf(s) && y !in Ids(Find(s, x).value)
      ensures y in IdsOf(Prune(s, x))
    {
      assert y in Bag(s);
      assert (a + f)[y] == a[y] + f[y];
      assert y !in f;
    }
    forall y | y in IdsOf(Prune(s, x))
      ensures y in IdsOf(s) && y !in Ids(Find(s, x).value)
    {
      assert y in a;
      assert (a + f)[y] == a[y] + f[y];
      assert y in Bag(s);
    }
  }

  /** A node neither inside the pruned subtree nor above it is untouched. */
  lemma {:induction false} PruneFindOther(s: seq<Node>, y: NodeId, x: NodeId)
    requires Unique(s) && Find(s, y).Some? && Find(s, x).Some?
    requires y !in Ids(Find(s, x).value) && x !in Ids(Find(s, y).value)
    ensures Find(Prune(s, x), y) == Find(s, y)
    decreases s
  {
    UniqueParts(s);
    FindInIffIn(s[0], x);
    FindInIffIn(s[0], y);
    if s[0].id == x {
      IdsHead(s[0]);
    } else if x in Ids(s[0]) {
      if y in Ids(s[0]) {
        PruneInFindOther(s[0], y, x);
      } else {
        PruneInBag(s[0], x);
        assert y !in multiset(Ids(s[0]));
        assert (multiset(Ids(PruneIn(s[0], x))) + multiset(Ids(FindIn(s[0], x).value)))[y] == 0;
        FindInIffIn(PruneIn(s[0], x), y);
      }
    } else if y !in Ids(s[0]) {
      FindIffIn(s[1..], x);
      PruneFindOther(s[1..], y, x);
    }
  }

  lemma {:induction false} PruneInFindOther(t: Node, y: NodeId, x: NodeId)
    requires UniqueNode(t) && FindIn(t, y).Some? && FindIn(t, x).Some? && t.id != x
    requires y !in Ids(FindIn(t, x).value) && x !in Ids(FindIn(t, y).value)
    ensures FindIn(PruneIn(t, x), y) == FindIn(t, y)
    decreases t
  {
    FindInIffIn(t, y);
    FindInIffIn(t, x);
    if t.id == y {
      assert false;
    } else {
      UniqueKids(t);
      match t
      case Element(i, tg, a, cs) =>
        FindIffIn(cs, x);
        FindIffIn(cs, y);
        PruneFindOther(cs, y, x);
      case DocRoot(i, cs) =>
        FindIffIn(cs, x);
        FindIffIn(cs, y);
        PruneFindOther(cs, y, x);
    }
  }

  /** Looking up in a forest with one more tree at the end. */
  lemma {:induction false} FindAppend(s: seq<Node>, t: Node, y: NodeId)
    ensures Find(s + [t], y) == if y in IdsOf(s) then Find(s, y) else FindIn(t, y)
    decreases s
  {
    if s == [] {
      assert [t][1..] == [];
      assert s + [t] == [t];
    } else {
      assert (s + [t])[0] == s[0] && (s + [t])[1..] == s[1..] + [t];
      FindInIffIn(s[0], y);
      FindAppend(s[1..], t, y);
    }
  }

  lemma {:induction false} PruneAppend(s: seq<Node>, t: Node, x: NodeId)
    requires x in IdsOf(s)
    ensures Prune(s + [t], x) == Prune(s, x) + [t]
    decreases s
  {
    assert (s + [t])[0] == s[0] && (s + [t])[1..] == s[1..] + [t];
    if s[0].id != x && x !in Ids(s[0]) {
      PruneAppend(s[1..], t, x);
    }
  }

  lemma {:induction false} ReplaceAppend(s: seq<Node>, t: Node, x: NodeId, m: Node)
    requires x in IdsOf(s)
    ensures Replace(s + [t], x, m) == Replace(s, x, m) + [t]
    decreases s
  {
    assert (s + [t])[0] == s[0] && (s + [t])[1..] == s[1..] + [t];
    if x !in Ids(s[0]) {
      ReplaceAppend(s[1..], t, x, m);
    }
  }

  /** Pruning the tree just added at the end gives back the forest. */
  lemma {:induction false} PruneLast(s: seq<Node>, t: Node)
    requires t.id !in IdsOf(s)
    ensures Prune(s + [t], t.id) == s
    decreases s
  {
    if s == [] {
      assert s + [t] == [t];
    } else {
      assert (s + [t])[0] == s[0] && (s + [t])[1..] == s[1..] + [t];
      IdsHead(s[0]);
      PruneLast(s[1..], t);
    }
  }

  /** A forest with one more tree is unique exactly when both are and they share no identifier. */
  lemma UniqueAppend(s: seq<Node>, t: Node)
    ensures Unique(s + [t]) <==> Unique(s) && UniqueNode(t) && forall y :: y in Ids(t) ==> y !in IdsOf(s)
  {
    IdsOfConcat(s, [t]);
    IdsOfSingle(t);
    var a, b := Bag(s), multiset(Ids(t));
    assert Bag(s + [t]) == a + b;
    NoDupSum(a, b);
    assert (forall y :: y in a ==> y !in b) <==> (forall y :: y in Ids(t) ==> y !in IdsOf(s)) by {
      if forall y :: y in a ==> y !in b {
        forall y | y in Ids(t)
          ensures y !in IdsOf(s)
        {
          assert y in b;
        }
      }
      if forall y :: y in Ids(t) ==> y !in IdsOf(s) {
        forall y | y in a
          ensures y !in b
        {
          assert y in IdsOf(s);
        }
      }
    }
  }

  /** In a unique forest, a node of a replacement is found where the replacement put it. */
  lemma ReplaceFindInside(s: seq<Node>, x: NodeId, m: Node, y: NodeId)
    requires x in IdsOf(s) && m.id == x && y in Ids(m) && Unique(Replace(s, x, m))
    ensures FindIn(m, y).Some? && Find(Replace(s, x, m), y) == FindIn(m, y)
  {
    ReplaceFindSelf(s, x, m);
    FoundOccurs(Replace(s, x, m), x);
    FindInIffIn(m, y);
    FoundInOccurs(m, y);
    OccursTrans(Replace(s, x, m), m, FindIn(m, y).value);
    FindOccurring(Replace(s, x, m), FindIn(m, y).value);
  }

  /** Replacing keeps the forest's length and puts the edited tree in the first place when it holds x. */
  lemma ReplaceHead(s: seq<Node>, x: NodeId, m: Node)
    requires s != []
    ensures |Replace(s, x, m)| == |s|
    ensures Replace(s, x, m)[0] == if x in Ids(s[0]) then ReplaceIn(s[0], x, m) else s[0]
  {
    ReplaceLength(s, x, m);
  }

  lemma {:induction false} ReplaceLength(s: seq<Node>, x: NodeId, m: Node)
    ensures |Replace(s, x, m)| == |s|
    decreases s
  {
    if s != [] && x !in Ids(s[0]) {
      ReplaceLength(s[1..], x, m);
    }
  }
}
