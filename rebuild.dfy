/**
 * replaceAllChildren(parent): the current node's children are removed one by one (the text
 * children are kept aside and put back, in order), then each child of the parent's node is
 * examined and appended. A parent of another document gives copies and its child list stays as
 * it was; a parent of the same document gives its children themselves, each move shortening the
 * live child list the index loop walks, so that only every other child is taken.
 */
module Rebuild {
  import opened Wrappers
  import opened Throwables
  import opened DomTree
  import opened Dom
  import opened Outcomes
  import opened Transplant
  import opened Transfer
  import opened Lookup
  import Indexed
  import Placing
  import Queries
  import X = XmlDocumentCheckedException

  const REPLACE_ALL: string := Debug(".replaceAllChildren(IXmlElement)")

  /** The text children of a child list, in order. */
  function Texts(cs: seq<Node>): (r: seq<Node>)
    ensures |r| <= |cs|
    ensures forall i :: 0 <= i < |r| ==> r[i].Text? && r[i] in cs
    ensures forall i :: 0 <= i < |cs| && cs[i].Text? ==> cs[i] in r
    decreases cs
  {
    if cs == [] then []
    else
      assert forall i :: 1 <= i < |cs| ==> cs[i] == cs[1..][i - 1];
      (if cs[0].Text? then [cs[0]] else []) + Texts(cs[1..])
  }

  // ---------------------------------------------------------------- removing every child

  /** `while (children.getLength() != 0)`: removeChild(item(0)), remembering the text children in a buffer. */
  function Strip(st: State, x: NodeId, texts: seq<NodeId>): (State, seq<NodeId>)
    requires Valid(st) && Has(st, x)
    decreases |Kids(Get(st, x))|
  {
    var cs := Kids(Get(st, x));
    if cs == [] then (st, texts)
    else
      Indexed.DetachKid(st, x, 0);
      var s := Detach(st, cs[0].id).value;
      assert cs[..0] + cs[1..] == cs[1..];
      Strip(s, x, if cs[0].Text? then texts + [cs[0].id] else texts)
  }

  /** Removing the first child of x: x keeps the rest of its children and the document its nodes. */
  lemma StripFirst(st: State, x: NodeId)
    requires Valid(st) && Has(st, x) && Kids(Get(st, x)) != []
    ensures Has(st, Kids(Get(st, x))[0].id) && Detach(st, Kids(Get(st, x))[0].id).Ok?
    ensures var cs := Kids(Get(st, x)); var s := Detach(st, cs[0].id).value;
      Valid(s) && Has(s, x) && Get(s, x) == WithKids(Get(st, x), cs[1..])
      && (forall y :: Has(s, y) <==> Has(st, y))
  {
    var P := Get(st, x);
    var cs := Kids(P);
    assert Has(st, cs[0].id) && Detach(st, cs[0].id).Ok?
      && var s := Detach(st, cs[0].id).value;
      Valid(s) && (forall y :: Has(st, y) <==> Has(s, y)) && Get(s, x) == WithKids(P, cs[..0] + cs[1..]) by {
      Indexed.DetachKid(st, x, 0);
    }
    assert cs[..0] + cs[1..] == cs[1..];
  }

  /** A removed child of x, and a node apart from x, are apart from what is left of x. */
  lemma StripStep(st: State, x: NodeId)
    requires Valid(st) && Has(st, x) && Kids(Get(st, x)) != []
    ensures Has(st, Kids(Get(st, x))[0].id) && Detach(st, Kids(Get(st, x))[0].id).Ok?
    ensures var cs := Kids(Get(st, x)); var s := Detach(st, cs[0].id).value;
      Valid(s) && Has(s, x) && Has(s, cs[0].id)
      && Get(s, x) == WithKids(Get(st, x), cs[1..]) && Get(s, cs[0].id) == cs[0]
      && Apart(s, cs[0].id, x)
      && (forall y :: Has(s, y) <==> Has(st, y))
      && (forall y :: IsTop(s.nodes, y) <==> IsTop(st.nodes, y) || y == cs[0].id)
      && forall y :: Has(st, y) && Apart(st, y, x) ==> Get(s, y) == Get(st, y) && Apart(s, y, x)
  {
    var X := Get(st, x);
    var cs := Kids(X);
    var c := cs[0];
    StripFirst(st, x);
    Indexed.DetachKid(st, x, 0);
    var s := Detach(st, c.id).value;
    Placing.KidInState(st, x, 0);
    Queries.DetachTops(st, c.id);
    Indexed.UniqueHere(st, x);
    UniqueKids(X);
    UniqueParts(cs);
    IdsHead(c);
    IdsWithKids(X, cs[1..]);
    assert IdsOf(cs) == Ids(c) + IdsOf(cs[1..]);
    forall y | Has(st, y) && Apart(st, y, x)
      ensures Get(s, y) == Get(st, y) && Apart(s, y, x)
    {
      Placing.ApartBelow(st, y, x, c.id);
    }
  }

  /**
   * Removing every child: x is left with an empty child list and the document keeps its nodes.
   */
  lemma {:induction false} StripBasics(st: State, x: NodeId, texts: seq<NodeId>)
    requires Valid(st) && Has(st, x)
    ensures var r := Strip(st, x, texts); var X := Get(st, x);
      Valid(r.0) && (forall y :: Has(r.0, y) <==> Has(st, y)) && Has(r.0, x)
      && Get(r.0, x) == (if HasChildList(X) then WithKids(X, []) else X)
    decreases |Kids(Get(st, x))|
  {
    var X := Get(st, x);
    var cs := Kids(X);
    if cs != [] {
      StripFirst(st, x);
      var c := cs[0];
      var s := Detach(st, c.id).value;
      var texts' := if c.Text? then texts + [c.id] else texts;
      assert Kids(Get(s, x)) == cs[1..];
      StripBasics(s, x, texts');
      assert Strip(st, x, texts) == Strip(s, x, texts');
    }
  }

  /** One turn of the removal loop: the first child goes, and the loop carries on from what is left. */
  lemma StripTurn(st: State, x: NodeId, texts: seq<NodeId>)
    requires Valid(st) && Has(st, x) && Kids(Get(st, x)) != []
    ensures Has(st, Kids(Get(st, x))[0].id) && Detach(st, Kids(Get(st, x))[0].id).Ok?
    ensures var cs := Kids(Get(st, x)); var s := Detach(st, cs[0].id).value;
      var texts' := if cs[0].Text? then texts + [cs[0].id] else texts;
      Valid(s) && Has(s, x) && Kids(Get(s, x)) == cs[1..]
      && Strip(st, x, texts).0 == Strip(s, x, texts').0 && Strip(st, x, texts).1 == Strip(s, x, texts').1
  {
    StripFirst(st, x);
  }

  /** The buffer gains the text children of x, in order. */
  lemma {:induction false} StripBuffer(st: State, x: NodeId, texts: seq<NodeId>)
    requires Valid(st) && Has(st, x)
    ensures Strip(st, x, texts).1 == texts + TopIds(Texts(Kids(Get(st, x))))
    decreases |Kids(Get(st, x))|, 1
  {
    var cs := Kids(Get(st, x));
    if cs != [] {
      var c := cs[0];
      assert Has(st, c.id) && Detach(st, c.id).Ok? by {
        StripFirst(st, x);
      }
      var s := Detach(st, c.id).value;
      var h := if c.Text? then [c.id] else [];
      var texts' := texts + h;
      assert Valid(s) && Has(s, x) && Kids(Get(s, x)) == cs[1..] && Strip(st, x, texts).1 == Strip(s, x, texts').1 by {
        StripTurn(st, x, texts);
        assert texts' == if c.Text? then texts + [c.id] else texts;
      }
      StripBufferNext(s, x, texts, cs);
    }
  }

  /** The rest of the removal loop after the first child c: the buffer ends with the texts of cs, c's included. */
  lemma {:induction false} StripBufferNext(s: State, x: NodeId, texts: seq<NodeId>, cs: seq<Node>)
    requires Valid(s) && Has(s, x) && cs != [] && Kids(Get(s, x)) == cs[1..]
    ensures Strip(s, x, texts + if cs[0].Text? then [cs[0].id] else []).1 == texts + TopIds(Texts(cs))
    decreases |cs|, 0
  {
    StripBuffer(s, x, texts + if cs[0].Text? then [cs[0].id] else []);
    BufferCons(texts, cs);
  }

  /** The buffer after the first child, then the texts of the others, is the buffer followed by all the texts. */
  lemma BufferCons(texts: seq<NodeId>, cs: seq<Node>)
    requires cs != []
    ensures (texts + if cs[0].Text? then [cs[0].id] else []) + TopIds(Texts(cs[1..])) == texts + TopIds(Texts(cs))
  {
    var h := if cs[0].Text? then [cs[0].id] else [];
    assert TopIds(Texts(cs)) == h + TopIds(Texts(cs[1..])) by {
      TextsCons(cs);
      TopIdsConcat(if cs[0].Text? then [cs[0]] else [], Texts(cs[1..]));
    }
    Associate(texts, h, TopIds(Texts(cs[1..])));
  }

  /** Removing every child of x changes no node apart from x. */
  lemma {:induction false} StripApart(st: State, x: NodeId, texts: seq<NodeId>)
    requires Valid(st) && Has(st, x)
    ensures var r := Strip(st, x, texts);
      forall y :: Has(st, y) && Apart(st, y, x) ==> Has(r.0, y) && Get(r.0, y) == Get(st, y)
    decreases |Kids(Get(st, x))|
  {
    StripBasics(st, x, texts);
    var cs := Kids(Get(st, x));
    if cs != [] {
      StripStep(st, x);
      var c := cs[0];
      var s := Detach(st, c.id).value;
      var texts' := if c.Text? then texts + [c.id] else texts;
      assert Kids(Get(s, x)) == cs[1..];
      StripApart(s, x, texts');
      assert Strip(st, x, texts) == Strip(s, x, texts');
    }
  }

  /** Each former child of x is left a detached root, intact. */
  lemma {:induction false} StripKids(st: State, x: NodeId, texts: seq<NodeId>)
    requires Valid(st) && Has(st, x)
    ensures var r := Strip(st, x, texts); var cs := Kids(Get(st, x));
      forall i :: 0 <= i < |cs| ==> Has(r.0, cs[i].id) && Get(r.0, cs[i].id) == cs[i]
    decreases |Kids(Get(st, x))|
  {
    var cs := Kids(Get(st, x));
    if cs != [] {
      var c := cs[0];
      assert Has(st, c.id) && Detach(st, c.id).Ok? by {
        StripFirst(st, x);
      }
      var s := Detach(st, c.id).value;
      var texts' := if c.Text? then texts + [c.id] else texts;
      assert Valid(s) && Has(s, x) && Kids(Get(s, x)) == cs[1..] && Strip(st, x, texts).0 == Strip(s, x, texts').0 by {
        StripTurn(st, x, texts);
      }
      var r := Strip(s, x, texts');
      assert Has(s, c.id) && Get(s, c.id) == c && Apart(s, c.id, x) by {
        StripStep(st, x);
      }
      assert Has(r.0, c.id) && Get(r.0, c.id) == c by {
        StripApart(s, x, texts');
      }
      StripKids(s, x, texts');
      forall i | 1 <= i < |cs|
        ensures cs[i] == cs[1..][i - 1]
      {
      }
    }
  }

  /** The detached roots after removing every child of x: the former ones and x's former children. */
  lemma {:induction false} StripTops(st: State, x: NodeId, texts: seq<NodeId>)
    requires Valid(st) && Has(st, x)
    ensures var r := Strip(st, x, texts);
      forall y :: IsTop(r.0.nodes, y) <==> IsTop(st.nodes, y) || y in TopIds(Kids(Get(st, x)))
    decreases |Kids(Get(st, x))|
  {
    var cs := Kids(Get(st, x));
    if cs != [] {
      var c := cs[0];
      assert Has(st, c.id) && Detach(st, c.id).Ok? by {
        StripFirst(st, x);
      }
      var s := Detach(st, c.id).value;
      var texts' := if c.Text? then texts + [c.id] else texts;
      assert Valid(s) && Has(s, x) && Kids(Get(s, x)) == cs[1..] && Strip(st, x, texts).0 == Strip(s, x, texts').0 by {
        StripTurn(st, x, texts);
      }
      assert forall y :: IsTop(s.nodes, y) <==> IsTop(st.nodes, y) || y == c.id by {
        StripStep(st, x);
      }
      assert forall y :: IsTop(Strip(s, x, texts').0.nodes, y) <==> IsTop(s.nodes, y) || y in TopIds(cs[1..]) by {
        StripTops(s, x, texts');
      }
      assert TopIds(cs) == [c.id] + TopIds(cs[1..]) by {
        TopIdsCons(cs);
      }
    }
  }

  // ---------------------------------------------------------------- putting the texts back

  /** `mRootNode.appendChild(textNodes.elementAt(i))` for each buffered text, in order. */
  function Restore(st: State, x: NodeId, ts: seq<NodeId>): Effect<()>
    requires Valid(st) && Has(st, x) && forall i :: 0 <= i < |ts| ==> Has(st, ts[i])
    decreases |ts|
  {
    if ts == [] then Effect(st, Ok(()))
    else
      match AppendChild(st, x, ts[0])
      case Fail(e) => Effect(st, Fail(e))
      case Ok(s) =>
        MoveSpec(st, x, ts[0]);
        Restore(s, x, ts[1..])
  }

  /** One turn of Restore: a failed append stops it, a successful one leaves the rest to do. */
  lemma RestoreTurn(st: State, x: NodeId, ts: seq<NodeId>)
    requires Valid(st) && Has(st, x) && ts != [] && forall i :: 0 <= i < |ts| ==> Has(st, ts[i])
    ensures AppendChild(st, x, ts[0]).Fail? ==>
      Restore(st, x, ts).st == st && Restore(st, x, ts).out == Fail(AppendChild(st, x, ts[0]).error)
    ensures AppendChild(st, x, ts[0]).Ok? ==>
      var s := AppendChild(st, x, ts[0]).value;
      Valid(s) && Has(s, x) && (forall y :: Has(s, y) <==> Has(st, y))
      && Restore(st, x, ts).st == Restore(s, x, ts[1..]).st && Restore(st, x, ts).out == Restore(s, x, ts[1..]).out
  {
    if AppendChild(st, x, ts[0]).Ok? {
      MoveSpec(st, x, ts[0]);
    }
  }

  /** A detached root other than x is not inside x. */
  lemma TopOutside(st: State, t: NodeId, x: NodeId)
    requires Valid(st) && Has(st, x) && IsTop(st.nodes, t) && t != x
    ensures t !in Ids(Get(st, x))
  {
    if t in Ids(Get(st, x)) {
      FindIffIn(st.nodes, x);
      FoundOccurs(st.nodes, x);
      NotTopInside(st.nodes, Get(st, x), t);
    }
  }

  /** The texts to put back: detached, distinct texts outside x. */
  ghost predicate Buffered(st: State, x: NodeId, ts: seq<NodeId>)
  {
    Valid(st) && Has(st, x) && Get(st, x).Element?
    && (forall i :: 0 <= i < |ts| ==> Has(st, ts[i]) && IsTop(st.nodes, ts[i]) && Get(st, ts[i]).Text?)
    && forall i, j :: 0 <= i < j < |ts| ==> ts[i] != ts[j]
  }

  /** Appending the first buffered text: it becomes x's last child, and the rest stay buffered. */
  lemma RestoreStep(st: State, x: NodeId, ts: seq<NodeId>)
    requires Buffered(st, x, ts) && ts != []
    ensures AppendChild(st, x, ts[0]) == Ok(Move(st, x, ts[0]))
    ensures var s := Move(st, x, ts[0]);
      Valid(s) && (forall y :: Has(s, y) <==> Has(st, y)) && Has(s, x)
      && Get(s, x) == WithKids(Get(st, x), Kids(Get(st, x)) + [Get(st, ts[0])])
  {
    var t := ts[0];
    TopOutside(st, t, x);
    IdsHead(Get(st, t));
    assert Ids(Get(st, t)) == [t];
    MoveSpec(st, x, t);
  }

  /** After the first text is appended, the other texts are still buffered, and as they were. */
  lemma RestoreRest(st: State, x: NodeId, ts: seq<NodeId>)
    requires Buffered(st, x, ts) && ts != []
    ensures AppendChild(st, x, ts[0]).Ok?
    ensures var s := AppendChild(st, x, ts[0]).value;
      Buffered(s, x, ts[1..]) && forall i :: 0 <= i < |ts[1..]| ==> Get(s, ts[1..][i]) == Get(st, ts[1..][i])
  {
    RestoreStep(st, x, ts);
    var s := Move(st, x, ts[0]);
    var rest := ts[1..];
    forall i | 0 <= i < |rest|
      ensures Has(s, rest[i]) && IsTop(s.nodes, rest[i]) && Get(s, rest[i]) == Get(st, rest[i])
    {
      assert rest[i] == ts[i + 1];
      var u := rest[i];
      TopOutside(st, u, x);
      TopOutside(st, ts[0], x);
      MoveKeepsTop(st, x, ts[0], u);
    }
    forall i, j | 0 <= i < j < |rest|
      ensures rest[i] != rest[j]
    {
      assert rest[i] == ts[i + 1] && rest[j] == ts[j + 1];
    }
  }

  /** After the first text is appended, a node apart from x and from the texts is as it was, and still apart from x. */
  lemma RestoreApartStep(st: State, x: NodeId, ts: seq<NodeId>, y: NodeId)
    requires Buffered(st, x, ts) && ts != [] && Has(st, y) && Apart(st, y, x) && y !in ts
    ensures AppendChild(st, x, ts[0]).Ok?
    ensures var s := AppendChild(st, x, ts[0]).value;
      Has(s, y) && Has(s, x) && Get(s, y) == Get(st, y) && Apart(s, y, x)
  {
    RestoreStep(st, x, ts);
    var t := ts[0];
    var T := Get(st, t);
    var X := Get(st, x);
    TopOutside(st, t, x);
    IdsHead(T);
    assert Ids(T) == [t];
    MoveSpec(st, x, t);
    TopOutside(st, t, y);
    assert Apart(st, y, t);
    IdsWithKids(X, Kids(X) + [T]);
    IdsOfConcat(Kids(X), [T]);
    IdsOfSingle(T);
    IdsWithKids(X, Kids(X));
  }

  /**
   * Appending the buffered texts to an element, which accepts them all: they become its last
   * children, in order, and the document keeps its nodes.
   */
  lemma {:induction false} RestoreSpec(st: State, x: NodeId, ts: seq<NodeId>)
    requires Buffered(st, x, ts)
    ensures var r := Restore(st, x, ts);
      r.out.Ok? && Valid(r.st) && (forall y :: Has(r.st, y) <==> Has(st, y)) && Has(r.st, x)
      && Get(r.st, x) == WithKids(Get(st, x), Kids(Get(st, x)) + seq(|ts|, i requires 0 <= i < |ts| => Get(st, ts[i])))
    decreases |ts|, 1
  {
    var X := Get(st, x);
    if ts != [] {
      var t := ts[0];
      var T := Get(st, t);
      assert AppendChild(st, x, t).Ok? by {
        RestoreStep(st, x, ts);
      }
      var s := AppendChild(st, x, t).value;
      var rest := ts[1..];
      assert Buffered(s, x, rest) && (forall i :: 0 <= i < |rest| ==> Get(s, rest[i]) == Get(st, rest[i]))
        && (forall y :: Has(s, y) <==> Has(st, y)) && Get(s, x) == WithKids(X, Kids(X) + [T]) by {
        RestoreStep(st, x, ts);
        RestoreRest(st, x, ts);
      }
      assert Restore(st, x, ts).st == Restore(s, x, rest).st && Restore(st, x, ts).out == Restore(s, x, rest).out by {
        RestoreStep(st, x, ts);
      }
      var added' := seq(|rest|, i requires 0 <= i < |rest| => Get(s, rest[i]));
      RestoreSpecNext(s, x, rest, X, T);
      assert seq(|ts|, i requires 0 <= i < |ts| => Get(st, ts[i])) == [T] + added' by {
        AddedShift(st, s, ts);
      }
      Associate(Kids(X), [T], added');
    } else {
      assert Kids(X) + [] == Kids(X);
      IdsWithKids(X, Kids(X));
    }
  }

  /** The texts' nodes, listed: the first, then the others as they stand in a state that kept them. */
  lemma AddedShift(st: State, s: State, ts: seq<NodeId>)
    requires ts != [] && (forall i :: 0 <= i < |ts| ==> Has(st, ts[i]))
    requires forall i :: 0 <= i < |ts[1..]| ==> Has(s, ts[1..][i]) && Get(s, ts[1..][i]) == Get(st, ts[1..][i])
    ensures seq(|ts|, i requires 0 <= i < |ts| => Get(st, ts[i]))
      == [Get(st, ts[0])] + seq(|ts| - 1, i requires 0 <= i < |ts| - 1 => Get(s, ts[1..][i]))
  {
    var rest := ts[1..];
    var added := seq(|ts|, i requires 0 <= i < |ts| => Get(st, ts[i]));
    var added' := seq(|rest|, i requires 0 <= i < |rest| => Get(s, rest[i]));
    forall i | 1 <= i < |ts|
      ensures added[i] == added'[i - 1]
    {
      assert rest[i - 1] == ts[i];
    }
    assert added == [Get(st, ts[0])] + added';
  }

  /** The rest of the texts after the first one, T, has been appended to x. */
  lemma {:induction false} RestoreSpecNext(s: State, x: NodeId, rest: seq<NodeId>, X: Node, T: Node)
    requires Buffered(s, x, rest) && X.Element? && Get(s, x) == WithKids(X, Kids(X) + [T])
    ensures var r := Restore(s, x, rest);
      r.out.Ok? && Valid(r.st) && (forall y :: Has(r.st, y) <==> Has(s, y)) && Has(r.st, x)
      && Get(r.st, x) == WithKids(X, Kids(X) + [T] + seq(|rest|, i requires 0 <= i < |rest| => Get(s, rest[i])))
    decreases |rest| + 1, 0
  {
    var added' := seq(|rest|, i requires 0 <= i < |rest| => Get(s, rest[i]));
    assert Kids(Get(s, x)) == Kids(X) + [T];
    RestoreSpec(s, x, rest);
    KidsReplacedTwice(X, Kids(X) + [T], Kids(X) + [T] + added');
  }

  /** Appending the buffered texts changes no node apart from x and from the texts. */
  lemma {:induction false} RestoreKeeps(st: State, x: NodeId, ts: seq<NodeId>)
    requires Buffered(st, x, ts)
    ensures var r := Restore(st, x, ts);
      forall y :: Has(st, y) && Apart(st, y, x) && y !in ts ==> Has(r.st, y) && Get(r.st, y) == Get(st, y)
    decreases |ts|
  {
    if ts != [] {
      RestoreStep(st, x, ts);
      RestoreRest(st, x, ts);
      var s := Move(st, x, ts[0]);
      var rest := ts[1..];
      RestoreKeeps(s, x, rest);
      assert Restore(st, x, ts) == Restore(s, x, rest);
      forall y | Has(st, y) && Apart(st, y, x) && y !in ts
        ensures Has(s, y) && Get(s, y) == Get(st, y) && Apart(s, y, x) && y !in rest
      {
        RestoreApartStep(st, x, ts, y);
      }
    }
  }

  /** Appending a detached text t to x leaves every other detached root, outside x, where and as it was. */
  lemma MoveKeepsTop(st: State, x: NodeId, t: NodeId, u: NodeId)
    requires Valid(st) && Has(st, x) && Has(st, t) && Has(st, u) && Get(st, x).Element?
    requires IsTop(st.nodes, t) && Get(st, t).Text? && IsTop(st.nodes, u) && Get(st, u).Text? && u != t
    requires t !in Ids(Get(st, x)) && u !in Ids(Get(st, x))
    ensures Has(Move(st, x, t), u) && IsTop(Move(st, x, t).nodes, u) && Get(Move(st, x, t), u) == Get(st, u)
  {
    IdsHead(Get(st, t));
    assert Ids(Get(st, t)) == [t];
    IdsHead(Get(st, u));
    assert Ids(Get(st, u)) == [u];
    MoveSpec(st, x, t);
    assert Apart(st, u, x) && Apart(st, u, t);
    MoveTops(st, x, t, u);
  }

  /** A move into x keeps every other detached root. */
  lemma MoveTops(st: State, x: NodeId, t: NodeId, u: NodeId)
    requires Valid(st) && Has(st, x) && Has(st, t) && IsTop(st.nodes, u) && u != t
    requires x !in Ids(Get(st, t)) && HasChildList(Get(st, x)) && !Get(st, t).DocRoot?
    ensures IsTop(Move(st, x, t).nodes, u)
  {
    MovePrep(st, x, t);
    var s1 := Prune(st.nodes, t);
    Queries.IsTopIff(st.nodes, u);
    PruneKeepsTop(st.nodes, t, u);
    var p1 := Find(s1, x).value;
    var m := WithKids(p1, Kids(p1) + [Get(st, t)]);
    ReplaceTopIds(s1, x, m);
    MoveValid(st, x, t);
    Queries.IsTopIff(Move(st, x, t).nodes, u);
  }

  /** Replacing a node by one with its identifier keeps the roots' identifiers. */
  lemma {:induction false} ReplaceTopIds(s: seq<Node>, x: NodeId, m: Node)
    requires m.id == x
    ensures TopIds(Replace(s, x, m)) == TopIds(s)
    decreases s
  {
    if s != [] {
      if x in Ids(s[0]) {
        assert Replace(s, x, m) == [ReplaceIn(s[0], x, m)] + s[1..];
        assert ReplaceIn(s[0], x, m).id == s[0].id;
      } else {
        assert Replace(s, x, m) == [s[0]] + Replace(s[1..], x, m);
        ReplaceTopIds(s[1..], x, m);
        assert TopIds(s) == [s[0].id] + TopIds(s[1..]);
      }
    }
  }

  // ---------------------------------------------------------------- children of the same document

  /** The entries at even positions: the first, the third, and so on. */
  function Evens<T>(b: seq<T>): (r: seq<T>)
    ensures |b| <= |r| + |r| <= |b| + 1
    decreases |b|
  {
    if |b| <= 1 then b else [b[0]] + Evens(b[2..])
  }

  /** The entries at odd positions: the second, the fourth, and so on. */
  function Odds<T>(b: seq<T>): (r: seq<T>)
    ensures |b| - 1 <= |r| + |r| <= |b|
    decreases |b|
  {
    if |b| <= 1 then [] else [b[1]] + Odds(b[2..])
  }

  /** Entry i of Evens(b) is entry 2i of b. */
  lemma {:induction false} EvensAt<T>(b: seq<T>)
    ensures forall i :: 0 <= i < |Evens(b)| ==> Evens(b)[i] == b[2 * i]
    decreases |b|
  {
    if |b| > 1 {
      EvensAt(b[2..]);
      PairStep(b);
      forall i | 1 <= i < |Evens(b)|
        ensures Evens(b)[i] == b[2 * i]
      {
        assert Evens(b)[i] == Evens(b[2..])[i - 1] == b[2..][2 * (i - 1)];
      }
    }
  }

  /** Entry i of Odds(b) is entry 2i + 1 of b. */
  lemma {:induction false} OddsAt<T>(b: seq<T>)
    ensures forall i :: 0 <= i < |Odds(b)| ==> Odds(b)[i] == b[2 * i + 1]
    decreases |b|
  {
    if |b| > 1 {
      OddsAt(b[2..]);
      PairStep(b);
      forall i | 1 <= i < |Odds(b)|
        ensures Odds(b)[i] == b[2 * i + 1]
      {
        assert Odds(b)[i] == Odds(b[2..])[i - 1] == b[2..][2 * (i - 1) + 1];
      }
    }
  }

  /** The even and the odd positions share out the entries between them. */
  lemma {:induction false} EvensOddsSplit<T>(b: seq<T>)
    ensures multiset(Evens(b)) + multiset(Odds(b)) == multiset(b)
    decreases |b|
  {
    if |b| > 1 {
      EvensOddsSplit(b[2..]);
      PairStep(b);
      ConsBag(b[0], Evens(b[2..]));
      ConsBag(b[1], Odds(b[2..]));
      PairBag(b);
    }
  }

  lemma PairStep<T>(b: seq<T>)
    requires |b| > 1
    ensures Evens(b) == [b[0]] + Evens(b[2..]) && Odds(b) == [b[1]] + Odds(b[2..])
  {
  }

  lemma ConsBag<T>(a: T, s: seq<T>)
    ensures multiset([a] + s) == multiset{a} + multiset(s)
  {
  }

  lemma PairBag<T>(b: seq<T>)
    requires |b| > 1
    ensures multiset(b) == multiset{b[0]} + multiset{b[1]} + multiset(b[2..])
  {
    assert b == [b[0]] + [b[1]] + b[2..];
  }

  /**
   * `while (cnt < children.getLength()) mRootNode.appendChild(children.item(cnt++))` over the
   * parent's live child list, the parent being a node of the same document. The bound `fuel` is
   * the list's length when the loop starts.
   */
  function Moves(st: State, x: NodeId, p: NodeId, cnt: nat, fuel: nat): Effect<()>
    requires Valid(st) && Has(st, x) && Has(st, p)
    decreases fuel
  {
    var cs := Kids(Get(st, p));
    if fuel == 0 || cnt >= |cs| then Effect(st, Ok(()))
    else
      Placing.KidInState(st, p, cnt);
      match AppendChild(st, x, cs[cnt].id)
      case Fail(e) => Effect(st, Fail(e))
      case Ok(s) =>
        MoveSpec(st, x, cs[cnt].id);
        Moves(s, x, p, cnt + 1, fuel - 1)
  }

  /** The parent is not inside any of its children. */
  lemma ParentNotInKid(n: Node, j: nat)
    requires UniqueNode(n) && j < |Kids(n)|
    ensures n.id !in Ids(Kids(n)[j])
  {
    var cs := Kids(n);
    IdsWithKids(n, cs);
    assert multiset(Ids(n)) == multiset([n.id]) + multiset(IdsOf(cs));
    assert n.id !in IdsOf(cs) by {
      assert multiset(Ids(n))[n.id] == 1 + multiset(IdsOf(cs))[n.id];
    }
    if n.id in Ids(cs[j]) {
      OccursAt(cs, j);
      OccursIdsSub(cs, cs[j], n.id);
    }
  }

  /** Whatever lies inside a child lies inside the parent. */
  lemma InKidInParent(n: Node, j: nat, y: NodeId)
    requires j < |Kids(n)| && y in Ids(Kids(n)[j])
    ensures y in Ids(n)
  {
    IdsWithKids(n, Kids(n));
    OccursAt(Kids(n), j);
    OccursIdsSub(Kids(n), Kids(n)[j], y);
  }

  /** Appending the j-th child of p to an element x apart from p: it becomes x's last child. */
  lemma MoveKid(st: State, x: NodeId, p: NodeId, j: nat)
    requires Valid(st) && Has(st, x) && Has(st, p) && Get(st, x).Element? && Apart(st, x, p)
    requires j < |Kids(Get(st, p))| && !Kids(Get(st, p))[j].DocRoot?
    ensures var c := Kids(Get(st, p))[j]; Has(st, c.id) && AppendChild(st, x, c.id).Ok?
    ensures var X := Get(st, x); var c := Kids(Get(st, p))[j]; var s := AppendChild(st, x, c.id).value;
      s == Move(st, x, c.id) && Valid(s) && (forall y :: Has(s, y) <==> Has(st, y)) && Has(s, x) && Has(s, p)
      && Get(s, x) == WithKids(X, Kids(X) + [c])
  {
    var P := Get(st, p);
    var c := Kids(P)[j];
    Placing.KidInState(st, p, j);
    Placing.ApartBelow(st, x, p, c.id);
    if x in Ids(c) {
      InKidInParent(P, j, x);
    }
    MoveSpec(st, x, c.id);
  }

  /** ... and it leaves p's child list, and x and p stay apart. */
  lemma MoveKidParent(st: State, x: NodeId, p: NodeId, j: nat)
    requires Valid(st) && Has(st, x) && Has(st, p) && Get(st, x).Element? && Apart(st, x, p)
    requires j < |Kids(Get(st, p))| && !Kids(Get(st, p))[j].DocRoot?
    ensures var c := Kids(Get(st, p))[j]; Has(st, c.id) && AppendChild(st, x, c.id).Ok?
    ensures var P := Get(st, p); var c := Kids(P)[j]; var s := AppendChild(st, x, c.id).value;
      Has(s, x) && Has(s, p) && Get(s, p) == WithKids(P, Kids(P)[..j] + Kids(P)[j + 1..]) && Apart(s, x, p)
  {
    MoveKid(st, x, p, j);
    var P := Get(st, p);
    var X := Get(st, x);
    var cs := Kids(P);
    var c := cs[j];
    Placing.KidInState(st, p, j);
    Placing.ApartBelow(st, x, p, c.id);
    var s1 := Prune(st.nodes, c.id);
    MovePrep(st, x, c.id);
    FindIffIn(st.nodes, p);
    PruneFindAncestor(st.nodes, p, c.id);
    Indexed.UniqueHere(st, p);
    Placing.PruneKid(P, j);
    var P' := WithKids(P, cs[..j] + cs[j + 1..]);
    PruneInBag(P, c.id);
    assert x !in multiset(Ids(P));
    assert x !in Ids(P');
    var m := WithKids(X, Kids(X) + [c]);
    IdsAppendKid(X, c);
    ParentNotInKid(P, j);
    assert p !in multiset(Ids(m));
    FindIffIn(s1, x);
    ReplaceFindOther(s1, p, x, m);
  }

  /** Appending the j-th child of p to x leaves a node apart from both as it was, and apart from both. */
  lemma MoveKidOthers(st: State, x: NodeId, p: NodeId, j: nat, y: NodeId)
    requires Valid(st) && Has(st, x) && Has(st, p) && Get(st, x).Element? && Apart(st, x, p)
    requires j < |Kids(Get(st, p))| && !Kids(Get(st, p))[j].DocRoot?
    requires Has(st, y) && Apart(st, y, x) && Apart(st, y, p)
    ensures Has(st, Kids(Get(st, p))[j].id) && AppendChild(st, x, Kids(Get(st, p))[j].id).Ok?
    ensures var s := AppendChild(st, x, Kids(Get(st, p))[j].id).value;
      Has(s, x) && Has(s, p) && Has(s, y) && Get(s, y) == Get(st, y) && Apart(s, y, x) && Apart(s, y, p)
  {
    MoveKid(st, x, p, j);
    MoveKidParent(st, x, p, j);
    var P := Get(st, p);
    var X := Get(st, x);
    var c := Kids(P)[j];
    Placing.KidInState(st, p, j);
    Placing.ApartBelow(st, y, p, c.id);
    if y in Ids(c) {
      InKidInParent(P, j, y);
    }
    MoveOthers(st, x, c.id, y);
    IdsAppendKid(X, c);
    assert y !in multiset(Ids(WithKids(X, Kids(X) + [c])));
    Indexed.UniqueHere(st, p);
    Placing.PruneKid(P, j);
    PruneInBag(P, c.id);
    assert y !in multiset(Ids(P));
  }

  /** The receiving element x and a parent p of the same document, apart, p holding no document node. */
  ghost predicate Arranged(st: State, x: NodeId, p: NodeId)
  {
    Valid(st) && Has(st, x) && Has(st, p) && Get(st, x).Element? && Apart(st, x, p)
    && forall i :: 0 <= i < |Kids(Get(st, p))| ==> !Kids(Get(st, p))[i].DocRoot?
  }

  /** One turn of the index loop: the cnt-th child moves to x, and the loop carries on from cnt + 1. */
  lemma MovesStep(st: State, x: NodeId, p: NodeId, cnt: nat, fuel: nat)
    requires Arranged(st, x, p) && cnt < |Kids(Get(st, p))| && fuel > 0
    ensures var c := Kids(Get(st, p))[cnt]; Has(st, c.id) && AppendChild(st, x, c.id).Ok?
    ensures var P := Get(st, p); var X := Get(st, x); var cs := Kids(P);
      var s := AppendChild(st, x, cs[cnt].id).value;
      Arranged(s, x, p) && (forall y :: Has(s, y) <==> Has(st, y))
      && Get(s, x) == WithKids(X, Kids(X) + [cs[cnt]])
      && Get(s, p) == WithKids(P, cs[..cnt] + cs[cnt + 1..]) && Kids(Get(s, p)) == cs[..cnt] + cs[cnt + 1..]
      && Moves(st, x, p, cnt, fuel) == Moves(s, x, p, cnt + 1, fuel - 1)
  {
    var cs := Kids(Get(st, p));
    MoveKid(st, x, p, cnt);
    MoveKidParent(st, x, p, cnt);
    var s := Move(st, x, cs[cnt].id);
    var L := cs[..cnt] + cs[cnt + 1..];
    assert Kids(Get(s, p)) == L;
    forall i | 0 <= i < |L|
      ensures !L[i].DocRoot?
    {
      if i < cnt {
        assert L[i] == cs[i];
      } else {
        assert L[i] == cs[i + 1];
      }
    }
  }

  /** The bookkeeping of one turn: moving the first entry of B and skipping the second. */
  lemma TurnShift<T>(A: seq<T>, B: seq<T>, K: seq<T>)
    requires |B| > 1
    ensures (A + B[1..])[|A| + 1..] == B[2..] && (A + B[1..])[..|A| + 1] == A + [B[1]]
    ensures K + [B[0]] + Evens(B[2..]) == K + Evens(B)
    ensures A + [B[1]] + Odds(B[2..]) == A + Odds(B)
  {
    assert (A + B[1..])[|A| + 1..] == B[2..] && (A + B[1..])[..|A| + 1] == A + [B[1]] by {
      TurnCut(A, B);
    }
    assert Evens(B) == [B[0]] + Evens(B[2..]) && Odds(B) == [B[1]] + Odds(B[2..]) by {
      PairStep(B);
    }
    Associate(K, [B[0]], Evens(B[2..]));
    Associate(A, [B[1]], Odds(B[2..]));
  }

  lemma TopIdsConcat(a: seq<Node>, b: seq<Node>)
    ensures TopIds(a + b) == TopIds(a) + TopIds(b)
  {
    assert forall i :: 0 <= i < |a| + |b| ==> TopIds(a + b)[i] == (TopIds(a) + TopIds(b))[i];
  }

  lemma TopIdsCons(cs: seq<Node>)
    requires cs != []
    ensures TopIds(cs) == [cs[0].id] + TopIds(cs[1..])
  {
    assert cs == [cs[0]] + cs[1..];
    TopIdsConcat([cs[0]], cs[1..]);
  }

  lemma Associate<T>(a: seq<T>, b: seq<T>, c: seq<T>)
    ensures a + b + c == a + (b + c)
  {
  }

  /** Cutting A + B[1..] after the first entry of B[1..]. */
  lemma TurnCut<T>(A: seq<T>, B: seq<T>)
    requires |B| > 1
    ensures (A + B[1..])[|A| + 1..] == B[2..] && (A + B[1..])[..|A| + 1] == A + [B[1]]
  {
    var L := A + B[1..];
    assert |L| == |A| + |B| - 1;
    assert forall i :: 0 <= i < |B| - 2 ==> L[|A| + 1..][i] == L[|A| + 1 + i] == B[2..][i];
    assert forall i :: 0 <= i <= |A| ==> L[..|A| + 1][i] == (A + [B[1]])[i];
  }

  /**
   * The index loop over the live child list of a parent of the same document, apart from the
   * receiving element: each move shortens the list, so the children at even positions from cnt
   * on are moved, in order, to the end of x's child list, and those at odd positions stay.
   */
  lemma {:induction false} MovesSpec(st: State, x: NodeId, p: NodeId, cnt: nat, fuel: nat)
    requires Arranged(st, x, p) && cnt <= |Kids(Get(st, p))| && fuel >= |Kids(Get(st, p))| - cnt
    ensures var r := Moves(st, x, p, cnt, fuel); var P := Get(st, p); var X := Get(st, x); var cs := Kids(P);
      r.out.Ok? && Valid(r.st) && (forall y :: Has(r.st, y) <==> Has(st, y))
      && Get(r.st, x) == WithKids(X, Kids(X) + Evens(cs[cnt..]))
      && Get(r.st, p) == (if HasChildList(P) then WithKids(P, cs[..cnt] + Odds(cs[cnt..])) else P)
    decreases fuel, 1
  {
    var P := Get(st, p);
    var X := Get(st, x);
    var cs := Kids(P);
    if cnt < |cs| {
      var c := cs[cnt].id;
      assert Has(st, c) && AppendChild(st, x, c).Ok? by {
        MovesStep(st, x, p, cnt, fuel);
      }
      var s := AppendChild(st, x, c).value;
      var A := cs[..cnt];
      var B := cs[cnt..];
      assert cs[cnt + 1..] == B[1..] && cs[cnt] == B[0];
      assert Arranged(s, x, p) && (forall y :: Has(s, y) <==> Has(st, y))
        && Get(s, x) == WithKids(X, Kids(X) + [B[0]])
        && Get(s, p) == WithKids(P, A + B[1..]) && Kids(Get(s, p)) == A + B[1..]
        && Moves(st, x, p, cnt, fuel).st == Moves(s, x, p, cnt + 1, fuel - 1).st
        && Moves(st, x, p, cnt, fuel).out == Moves(s, x, p, cnt + 1, fuel - 1).out by {
        MovesStep(st, x, p, cnt, fuel);
      }
      var r := Moves(s, x, p, cnt + 1, fuel - 1);
      if |B| > 1 {
        MovesSpecNext(s, x, p, cnt, fuel, X, P, A, B);
      } else {
        assert r.st == s && r.out == Ok(());
        assert Evens(B) == [B[0]] && Odds(B) == [] && A + [] == A;
      }
    } else {
      assert cs[cnt..] == [];
      assert Kids(X) + [] == Kids(X);
      assert cs[..cnt] + [] == cs;
    }
  }

  /** The rest of the loop after one turn, in terms of the state before the turn. */
  lemma {:induction false} MovesSpecNext(s: State, x: NodeId, p: NodeId, cnt: nat, fuel: nat,
                                         X: Node, P: Node, A: seq<Node>, B: seq<Node>)
    requires Arranged(s, x, p) && |B| > 1 && |A| == cnt && fuel >= |B| && X.Element? && HasChildList(P)
    requires Get(s, x) == WithKids(X, Kids(X) + [B[0]])
    requires Get(s, p) == WithKids(P, A + B[1..]) && Kids(Get(s, p)) == A + B[1..]
    ensures var r := Moves(s, x, p, cnt + 1, fuel - 1);
      r.out.Ok? && Valid(r.st) && (forall y :: Has(r.st, y) <==> Has(s, y))
      && Get(r.st, x) == WithKids(X, Kids(X) + Evens(B))
      && Get(r.st, p) == WithKids(P, A + Odds(B))
    decreases fuel, 0
  {
    var K := Kids(X);
    var L := A + B[1..];
    assert L[cnt + 1..] == B[2..] && L[..cnt + 1] == A + [B[1]] by {
      TurnCut(A, B);
    }
    assert Kids(Get(s, x)) == K + [B[0]];
    var r := Moves(s, x, p, cnt + 1, fuel - 1);
    assert r.out.Ok? && Valid(r.st) && (forall y :: Has(r.st, y) <==> Has(s, y))
      && Get(r.st, x) == WithKids(Get(s, x), K + [B[0]] + Evens(B[2..]))
      && Get(r.st, p) == WithKids(Get(s, p), A + [B[1]] + Odds(B[2..])) by {
      MovesSpec(s, x, p, cnt + 1, fuel - 1);
    }
    KidsReplacedTwice(X, K + [B[0]], K + Evens(B));
    KidsReplacedTwice(P, A + B[1..], A + Odds(B));
    assert K + [B[0]] + Evens(B[2..]) == K + Evens(B) && A + [B[1]] + Odds(B[2..]) == A + Odds(B) by {
      TurnShift(A, B, K);
    }
  }

  /** Replacing a child list twice is replacing it once, with the second list. */
  lemma KidsReplacedTwice(n: Node, a: seq<Node>, b: seq<Node>)
    requires HasChildList(n)
    ensures HasChildList(WithKids(n, a)) && WithKids(WithKids(n, a), b) == WithKids(n, b)
  {
  }

  /** The index loop leaves a node apart from both x and the parent as it was. */
  lemma {:induction false} MovesKeeps(st: State, x: NodeId, p: NodeId, cnt: nat, fuel: nat, y: NodeId)
    requires Arranged(st, x, p) && Has(st, y) && Apart(st, y, x) && Apart(st, y, p)
    ensures var r := Moves(st, x, p, cnt, fuel); Has(r.st, y) && Get(r.st, y) == Get(st, y)
    decreases fuel, 1
  {
    var cs := Kids(Get(st, p));
    if cnt < |cs| && fuel > 0 {
      var c := cs[cnt].id;
      assert Has(st, c) && AppendChild(st, x, c).Ok? by {
        MovesStep(st, x, p, cnt, fuel);
      }
      var s := AppendChild(st, x, c).value;
      assert Arranged(s, x, p)
        && Moves(st, x, p, cnt, fuel).st == Moves(s, x, p, cnt + 1, fuel - 1).st by {
        MovesStep(st, x, p, cnt, fuel);
      }
      assert Has(s, y) && Get(s, y) == Get(st, y) && Apart(s, y, x) && Apart(s, y, p) by {
        MoveKidOthers(st, x, p, cnt, y);
      }
      MovesKeepsNext(s, x, p, cnt, fuel, y, Get(st, y));
    } else {
      MovesDone(st, x, p, cnt, fuel);
    }
  }

  /** The rest of the loop after one turn keeps the node y as the turn left it. */
  lemma {:induction false} MovesKeepsNext(s: State, x: NodeId, p: NodeId, cnt: nat, fuel: nat, y: NodeId, Y: Node)
    requires Arranged(s, x, p) && fuel > 0 && Has(s, y) && Apart(s, y, x) && Apart(s, y, p) && Get(s, y) == Y
    ensures var r := Moves(s, x, p, cnt + 1, fuel - 1); Has(r.st, y) && Get(r.st, y) == Y
    decreases fuel, 0
  {
    MovesKeeps(s, x, p, cnt + 1, fuel - 1, y);
  }

  /** Once the index passes the end of the list, or the bound runs out, the loop leaves the state as it is. */
  lemma MovesDone(st: State, x: NodeId, p: NodeId, cnt: nat, fuel: nat)
    requires Valid(st) && Has(st, x) && Has(st, p) && (cnt >= |Kids(Get(st, p))| || fuel == 0)
    ensures Moves(st, x, p, cnt, fuel).st == st && Moves(st, x, p, cnt, fuel).out == Ok(())
  {
  }

  // ---------------------------------------------------------------- children of another document

  /**
   * The same loop over the child list of a parent of another document: examineChild hands back a
   * cloneChildren copy of each child, made in this document (null, and skipped, for a null text),
   * and the copy is appended; the parent's list does not change.
   */
  function Copies(st: State, x: NodeId, cs: seq<Node>): Effect<()>
    requires Valid(st) && Has(st, x)
    decreases |cs|
  {
    if cs == [] then Effect(st, Ok(()))
    else
      ExamineSpec(st, Foreign(Some(cs[0])));
      var e := Examine(st, Foreign(Some(cs[0])));
      match e.out
      case Fail(err) => Effect(e.st, Fail(err))
      case Ok(None) => Copies(e.st, x, cs[1..])
      case Ok(Some(c)) =>
        match AppendChild(e.st, x, c)
        case Fail(err) => Effect(e.st, Fail(err))
        case Ok(s) =>
          MoveSpec(e.st, x, c);
          Copies(s, x, cs[1..])
  }

  /** The copy of a clonable child that is not a null text is fresh, detached, and acceptable to an element. */
  lemma CopyFresh(st: State, x: NodeId, n: Node)
    requires Valid(st) && Has(st, x) && Get(st, x).Element? && Clonable(n) && !NullText(n)
    ensures var e := Examine(st, Foreign(Some(n)));
      Valid(e.st) && e.out == Ok(Some(st.next)) && Has(e.st, x) && Has(e.st, st.next)
      && Get(e.st, x) == Get(st, x) && Get(e.st, st.next) == CopyOf(st, n)
      && Erase(CopyOf(st, n)) == Erase(Canonical(n))
      && (forall y :: Has(st, y) ==> Has(e.st, y))
      && x !in Ids(CopyOf(st, n)) && st.next !in Ids(Get(st, x)) && !CopyOf(st, n).DocRoot?
  {
    var e := Examine(st, Foreign(Some(n)));
    assert Valid(e.st) && e.out.Ok? && e.out.value == Some(st.next) && Has(e.st, st.next)
      && Get(e.st, st.next) == CopyOf(st, n) && Erase(CopyOf(st, n)) == Erase(Canonical(n))
      && (forall y :: Has(st, y) ==> Has(e.st, y) && Get(e.st, y) == Get(st, y)) by {
      ExamineSpec(st, Foreign(Some(n)));
    }
    assert x < st.next && st.next !in Ids(Get(st, x)) by {
      FindIffIn(st.nodes, x);
      FindSubBag(st.nodes, x);
      assert st.next !in multiset(Ids(Get(st, x)));
    }
    assert !CopyOf(st, n).DocRoot? && x !in Ids(CopyOf(st, n)) by {
      assert !Canonical(n).DocRoot?;
      RenumberFresh(Canonical(n), st.next);
    }
  }

  /** Copying one clonable child that is not a null text: its copy becomes x's last child. */
  lemma CopyStep(st: State, x: NodeId, cs: seq<Node>)
    requires Valid(st) && Has(st, x) && Get(st, x).Element? && cs != [] && Clonable(cs[0]) && !NullText(cs[0])
    ensures var e := Examine(st, Foreign(Some(cs[0])));
      Valid(e.st) && e.out == Ok(Some(st.next)) && Has(e.st, x) && Has(e.st, st.next) && AppendChild(e.st, x, st.next).Ok?
    ensures var e := Examine(st, Foreign(Some(cs[0]))); var s := AppendChild(e.st, x, st.next).value;
      var X := Get(st, x);
      Valid(s) && Has(s, x) && (forall y :: Has(st, y) ==> Has(s, y))
      && Get(s, x) == WithKids(X, Kids(X) + [CopyOf(st, cs[0])])
      && Erase(CopyOf(st, cs[0])) == Erase(Canonical(cs[0]))
      && Copies(st, x, cs) == Copies(s, x, cs[1..])
  {
    CopyFresh(st, x, cs[0]);
    var e := Examine(st, Foreign(Some(cs[0])));
    MoveSpec(e.st, x, st.next);
  }

  /** The remnant after a copy: peeling the copy of the head off the appended run. */
  lemma CopyShift(K: seq<Node>, T: Node, all: seq<Node>, n: Node, rest: seq<Node>)
    requires |all| >= |K| + 1 && all[..|K| + 1] == K + [T] && !NullText(n)
    requires Erase(T) == Erase(Canonical(n)) && EraseList(all[|K| + 1..]) == EraseList(CanonicalList(rest))
    ensures all[..|K|] == K
    ensures EraseList(all[|K|..]) == EraseList(CanonicalList([n] + rest))
  {
    assert all[..|K|] == K by {
      assert all[..|K|] == all[..|K| + 1][..|K|];
    }
    var tail := all[|K|..];
    assert tail != [] && tail[0] == T && tail[1..] == all[|K| + 1..] by {
      assert tail[0] == all[..|K| + 1][|K|] == (K + [T])[|K|];
    }
    assert EraseList(tail) == [Erase(T)] + EraseList(all[|K| + 1..]);
    var cl := [Canonical(n)] + CanonicalList(rest);
    assert CanonicalList([n] + rest) == cl by {
      assert ([n] + rest)[0] == n && ([n] + rest)[1..] == rest;
    }
    assert EraseList(cl) == [Erase(Canonical(n))] + EraseList(CanonicalList(rest)) by {
      assert cl[0] == Canonical(n) && cl[1..] == CanonicalList(rest);
    }
  }

  /**
   * Copying the children of a parent of another document into an element: CLONE_FAILED, rethrown
   * as it is, exactly when some child holds a node cloneChildren refuses; otherwise x keeps its
   * children and gains, after them, the children's copies, identical up to identifiers to the
   * children with null texts dropped.
   */
  lemma CopiesSpec(st: State, x: NodeId, cs: seq<Node>)
    requires Valid(st) && Has(st, x) && Get(st, x).Element?
    ensures var r := Copies(st, x, cs); Valid(r.st) && Has(r.st, x) && forall y :: Has(st, y) ==> Has(r.st, y)
    ensures Copies(st, x, cs).out.Ok? <==> ClonableList(cs)
    ensures !ClonableList(cs) ==> Copies(st, x, cs).out == Fail(CLONE_FAILED_ERR)
    ensures var r := Copies(st, x, cs); var X := Get(st, x); var K := Kids(X);
      r.out.Ok? ==>
        var R := Get(r.st, x);
        R.Element? && R == WithKids(X, Kids(R)) && |Kids(R)| >= |K| && Kids(R)[..|K|] == K
        && EraseList(Kids(R)[|K|..]) == EraseList(CanonicalList(cs))
  {
    CopiesValid(st, x, cs);
    CopiesOutcome(st, x, cs);
    CopiesContents(st, x, cs);
  }

  /** The copying loop fails, with CLONE_FAILED, exactly when some child cannot be cloned. */
  lemma {:induction false} CopiesOutcome(st: State, x: NodeId, cs: seq<Node>)
    requires Valid(st) && Has(st, x) && Get(st, x).Element?
    ensures Copies(st, x, cs).out.Ok? <==> ClonableList(cs)
    ensures !ClonableList(cs) ==> Copies(st, x, cs).out == Fail(CLONE_FAILED_ERR)
    decreases |cs|
  {
    if cs != [] {
      var n := cs[0];
      if !Clonable(n) {
        assert Copies(st, x, cs).out == Fail(CLONE_FAILED_ERR) by {
          ExamineSpec(st, Foreign(Some(n)));
        }
      } else if NullText(n) {
        assert Copies(st, x, cs).out == Copies(st, x, cs[1..]).out by {
          ExamineSpec(st, Foreign(Some(n)));
        }
        CopiesOutcome(st, x, cs[1..]);
      } else {
        var e := Examine(st, Foreign(Some(n)));
        assert Valid(e.st) && Has(e.st, x) && Has(e.st, st.next) && AppendChild(e.st, x, st.next).Ok? by {
          CopyStep(st, x, cs);
        }
        var s := AppendChild(e.st, x, st.next).value;
        assert Valid(s) && Has(s, x) && Get(s, x).Element?
          && Copies(st, x, cs).out == Copies(s, x, cs[1..]).out by {
          CopyStep(st, x, cs);
        }
        CopiesOutcome(s, x, cs[1..]);
      }
    }
  }

  /** On success, x keeps its children and gains the copies, equal but for identifiers to the children with null texts dropped. */
  lemma {:induction false} CopiesContents(st: State, x: NodeId, cs: seq<Node>)
    requires Valid(st) && Has(st, x) && Get(st, x).Element?
    ensures var r := Copies(st, x, cs); var X := Get(st, x); var K := Kids(X);
      r.out.Ok? ==>
        Has(r.st, x)
        && var R := Get(r.st, x);
        R.Element? && R == WithKids(X, Kids(R)) && |Kids(R)| >= |K| && Kids(R)[..|K|] == K
        && EraseList(Kids(R)[|K|..]) == EraseList(CanonicalList(cs))
    decreases |cs|, 1
  {
    var X := Get(st, x);
    var K := Kids(X);
    CopiesValid(st, x, cs);
    if cs == [] {
      assert X == WithKids(X, K) && K[..|K|] == K && K[|K|..] == [];
    } else {
      var n := cs[0];
      if !Clonable(n) {
        assert Copies(st, x, cs).out.Fail? by {
          ExamineSpec(st, Foreign(Some(n)));
        }
      } else if NullText(n) {
        assert Copies(st, x, cs).st == Copies(st, x, cs[1..]).st
          && Copies(st, x, cs).out == Copies(st, x, cs[1..]).out by {
          ExamineSpec(st, Foreign(Some(n)));
        }
        CopiesContents(st, x, cs[1..]);
        assert CanonicalList(cs) == CanonicalList(cs[1..]) by {
          assert cs == [n] + cs[1..];
        }
      } else {
        var e := Examine(st, Foreign(Some(n)));
        assert Valid(e.st) && Has(e.st, x) && Has(e.st, st.next) && AppendChild(e.st, x, st.next).Ok? by {
          CopyStep(st, x, cs);
        }
        var s := AppendChild(e.st, x, st.next).value;
        var T := CopyOf(st, n);
        assert Valid(s) && Has(s, x) && Get(s, x) == WithKids(X, K + [T])
          && Erase(T) == Erase(Canonical(n))
          && Copies(st, x, cs).st == Copies(s, x, cs[1..]).st
          && Copies(st, x, cs).out == Copies(s, x, cs[1..]).out by {
          CopyStep(st, x, cs);
        }
        CopiesContentsNext(s, x, cs, X, T);
      }
    }
  }

  /** The rest of the copying loop after the head's copy T has been appended to x. */
  lemma {:induction false} CopiesContentsNext(s: State, x: NodeId, cs: seq<Node>, X: Node, T: Node)
    requires Valid(s) && Has(s, x) && X.Element? && Get(s, x) == WithKids(X, Kids(X) + [T])
    requires cs != [] && !NullText(cs[0]) && Erase(T) == Erase(Canonical(cs[0]))
    ensures var r := Copies(s, x, cs[1..]); var K := Kids(X);
      r.out.Ok? ==>
        Has(r.st, x)
        && var R := Get(r.st, x);
        R.Element? && R == WithKids(X, Kids(R)) && |Kids(R)| >= |K| && Kids(R)[..|K|] == K
        && EraseList(Kids(R)[|K|..]) == EraseList(CanonicalList(cs))
    decreases |cs|, 0
  {
    var K := Kids(X);
    var r := Copies(s, x, cs[1..]);
    CopiesContents(s, x, cs[1..]);
    if r.out.Ok? {
      var R := Get(r.st, x);
      assert Kids(Get(s, x)) == K + [T];
      KidsReplacedTwice(X, K + [T], Kids(R));
      CopyShift(K, T, Kids(R), cs[0], cs[1..]);
      assert cs == [cs[0]] + cs[1..];
    }
  }

  // ---------------------------------------------------------------- the buffer

  /** Texts, one child at a time. */
  lemma TextsCons(cs: seq<Node>)
    requires cs != []
    ensures Texts(cs) == (if cs[0].Text? then [cs[0]] else []) + Texts(cs[1..])
  {
  }

  /** Keeping only the texts keeps a part of the identifiers. */
  lemma {:induction false} TextsBag(cs: seq<Node>)
    ensures multiset(IdsOf(Texts(cs))) <= multiset(IdsOf(cs))
    decreases cs
  {
    if cs != [] {
      var h := if cs[0].Text? then [cs[0]] else [];
      TextsCons(cs);
      TextsBag(cs[1..]);
      IdsOfConcat(h, Texts(cs[1..]));
      if cs[0].Text? {
        IdsOfSingle(cs[0]);
      }
    }
  }

  /** The identifiers of a list of texts are the texts' own. */
  lemma {:induction false} LeafIds(ts: seq<Node>)
    requires forall i :: 0 <= i < |ts| ==> ts[i].Text?
    ensures IdsOf(ts) == TopIds(ts)
    decreases ts
  {
    if ts != [] {
      LeafIds(ts[1..]);
      assert TopIds(ts) == [ts[0].id] + TopIds(ts[1..]);
    }
  }

  /** A value at two positions occurs twice. */
  lemma CountTwo(s: seq<NodeId>, i: nat, j: nat)
    requires i < j < |s| && s[i] == s[j]
    ensures multiset(s)[s[i]] >= 2
  {
    assert s == s[..j] + [s[j]] + s[j + 1..];
    assert s[i] in s[..j];
    assert multiset(s) == multiset(s[..j]) + multiset{s[j]} + multiset(s[j + 1..]);
  }

  /** A sequence whose bag has no duplicate has distinct entries. */
  lemma NoDupDistinct(s: seq<NodeId>)
    requires NoDup(multiset(s))
    ensures forall i, j :: 0 <= i < j < |s| ==> s[i] != s[j]
  {
    forall i, j | 0 <= i < j < |s|
      ensures s[i] != s[j]
    {
      if s[i] == s[j] {
        CountTwo(s, i, j);
      }
    }
  }

  /** After the removal loop the buffer holds x's text children: detached, intact and distinct. */
  lemma StripTexts(st: State, x: NodeId)
    requires Valid(st) && Has(st, x)
    ensures var r := Strip(st, x, []); var T := Texts(Kids(Get(st, x)));
      r.1 == TopIds(T) && Valid(r.0)
      && (forall i :: 0 <= i < |T| ==> Has(r.0, T[i].id) && Get(r.0, T[i].id) == T[i] && IsTop(r.0.nodes, T[i].id))
      && forall i, j :: 0 <= i < j < |r.1| ==> r.1[i] != r.1[j]
  {
    var r := Strip(st, x, []);
    var cs := Kids(Get(st, x));
    var T := Texts(cs);
    assert Valid(r.0) by {
      StripBasics(st, x, []);
    }
    assert r.1 == TopIds(T) by {
      StripBuffer(st, x, []);
      assert [] + TopIds(T) == TopIds(T);
    }
    assert forall i :: 0 <= i < |T| ==> Has(r.0, T[i].id) && Get(r.0, T[i].id) == T[i] && IsTop(r.0.nodes, T[i].id) by {
      StripKids(st, x, []);
      StripTops(st, x, []);
      forall i | 0 <= i < |T|
        ensures Has(r.0, T[i].id) && Get(r.0, T[i].id) == T[i] && IsTop(r.0.nodes, T[i].id)
      {
        var k :| 0 <= k < |cs| && cs[k] == T[i];
        assert TopIds(cs)[k] == T[i].id;
      }
    }
    assert forall i, j :: 0 <= i < j < |TopIds(T)| ==> TopIds(T)[i] != TopIds(T)[j] by {
      TextsDistinct(st, x);
    }
  }

  /** The text children of a node of a valid document have distinct identifiers. */
  lemma TextsDistinct(st: State, x: NodeId)
    requires Valid(st) && Has(st, x)
    ensures var T := TopIds(Texts(Kids(Get(st, x)))); forall i, j :: 0 <= i < j < |T| ==> T[i] != T[j]
  {
    var cs := Kids(Get(st, x));
    var T := Texts(cs);
    Indexed.UniqueHere(st, x);
    LeafIds(T);
    TextsBag(cs);
    if HasChildList(Get(st, x)) {
      IdsWithKids(Get(st, x), cs);
      assert multiset(IdsOf(cs)) <= multiset(Ids(Get(st, x)));
    }
    assert NoDup(multiset(IdsOf(T)));
    NoDupDistinct(TopIds(T));
  }

  /** Appending texts keeps the document valid and its nodes, whether or not every append succeeds. */
  lemma {:induction false} RestoreValid(st: State, x: NodeId, ts: seq<NodeId>)
    requires Valid(st) && Has(st, x) && forall i :: 0 <= i < |ts| ==> Has(st, ts[i])
    ensures var r := Restore(st, x, ts); Valid(r.st) && forall y :: Has(r.st, y) <==> Has(st, y)
    decreases |ts|
  {
    if ts != [] && AppendChild(st, x, ts[0]).Ok? {
      MoveSpec(st, x, ts[0]);
      RestoreValid(Move(st, x, ts[0]), x, ts[1..]);
    }
  }

  // ---------------------------------------------------------------- replaceAllChildren

  /** parent.getRootNode(), with parent.getDocument() compared to this document; null in either case. */
  datatype Parent = SameDocument(root: Option<NodeId>) | OtherDocument(tree: Option<Node>)

  predicate ParentIn(st: State, parent: Parent)
  {
    parent.SameDocument? && parent.root.Some? ==> Has(st, parent.root.value)
  }

  /**
   * replaceAllChildren(parent): remove every child of the current node, put its text children
   * back, then append each child of the parent's node (the node itself or its copy). The loops'
   * own exceptions that are not of the facade's class are wrapped as GENERAL_ERROR; a null current
   * node is a NullPointerException, wrapped the same way.
   */
  function ReplaceAll(st: State, root: Option<NodeId>, parent: Parent): Effect<()>
    requires Valid(st) && RootIn(st, root) && ParentIn(st, parent)
  {
    if root.None? then Effect(st, Fail(GeneralError(REPLACE_ALL, NULL_POINTER)))
    else
      var x := root.value;
      StripTexts(st, x);
      StripBasics(st, x, []);
      var (s1, ts) := Strip(st, x, []);
      RestoreValid(s1, x, ts);
      var r2 := Restore(s1, x, ts);
      if r2.out.Fail? then Effect(r2.st, Fail(Rethrow(REPLACE_ALL, r2.out.error)))
      else Refill(r2.st, x, parent)
  }

  /** The last loop of replaceAllChildren, once the texts are back: the parent's children are appended to x. */
  function Refill(s: State, x: NodeId, parent: Parent): Effect<()>
    requires Valid(s) && Has(s, x) && ParentIn(s, parent)
  {
    var r3 :=
      match parent
      case SameDocument(None) => Effect(s, Ok(()))
      case OtherDocument(None) => Effect(s, Ok(()))
      case SameDocument(Some(p)) => Moves(s, x, p, 0, |Kids(Get(s, p))|)
      case OtherDocument(Some(n)) => Copies(s, x, Kids(n));
    match r3.out
    case Fail(e) => Effect(r3.st, Fail(Rethrow(REPLACE_ALL, e)))
    case Ok(_) => Effect(r3.st, Ok(()))
  }

  /** After the removal loop on an element, the buffer is ready to be put back and holds its text children. */
  lemma StripBuffered(st: State, x: NodeId)
    requires Valid(st) && Has(st, x) && Get(st, x).Element?
    ensures var sr := Strip(st, x, []);
      Buffered(sr.0, x, sr.1) && Get(sr.0, x) == WithKids(Get(st, x), [])
      && seq(|sr.1|, i requires 0 <= i < |sr.1| => Get(sr.0, sr.1[i])) == Texts(Kids(Get(st, x)))
  {
    StripBasics(st, x, []);
    StripTexts(st, x);
  }

  /** The first two phases on an element: its children are gone and its text children are back, in order. */
  lemma PhaseOne(st: State, x: NodeId)
    requires Valid(st) && Has(st, x) && Get(st, x).Element?
    ensures var sr := Strip(st, x, []);
      Valid(sr.0) && Has(sr.0, x) && forall i :: 0 <= i < |sr.1| ==> Has(sr.0, sr.1[i])
    ensures var sr := Strip(st, x, []); var r := Restore(sr.0, x, sr.1); var X := Get(st, x);
      r.out.Ok? && Valid(r.st) && (forall y :: Has(r.st, y) <==> Has(st, y)) && Has(r.st, x)
      && Get(r.st, x) == WithKids(X, Texts(Kids(X)))
  {
    var X := Get(st, x);
    StripBasics(st, x, []);
    StripBuffered(st, x);
    var sr := Strip(st, x, []);
    RestoreSpec(sr.0, x, sr.1);
    assert [] + Texts(Kids(X)) == Texts(Kids(X));
  }

  /** The first two phases leave a node apart from the element as it was, and apart from it. */
  lemma PhaseOneApart(st: State, x: NodeId, y: NodeId)
    requires Valid(st) && Has(st, x) && Get(st, x).Element? && Has(st, y) && Apart(st, y, x)
    ensures var sr := Strip(st, x, []);
      Valid(sr.0) && Has(sr.0, x) && forall i :: 0 <= i < |sr.1| ==> Has(sr.0, sr.1[i])
    ensures var sr := Strip(st, x, []); var r := Restore(sr.0, x, sr.1);
      Valid(r.st) && Has(r.st, x) && Has(r.st, y) && Get(r.st, y) == Get(st, y) && Apart(r.st, y, x)
  {
    PhaseOne(st, x);
    var X := Get(st, x);
    var cs := Kids(X);
    var T := Texts(cs);
    StripBasics(st, x, []);
    StripTexts(st, x);
    StripApart(st, x, []);
    var sr := Strip(st, x, []);
    IdsWithKids(X, []);
    IdsWithKids(X, T);
    IdsHead(X);
    forall i | 0 <= i < |sr.1|
      ensures sr.1[i] != y
    {
      var k :| 0 <= k < |cs| && cs[k] == T[i];
      IdsHead(cs[k]);
      if y == sr.1[i] {
        InKidInParent(X, k, y);
      }
    }
    assert Buffered(sr.0, x, sr.1);
    RestoreKeeps(sr.0, x, sr.1);
    TextsBag(cs);
    assert y !in multiset(Ids(X));
  }

  /** A null current node: GENERAL_ERROR of the facade's class caused by a NullPointerException, and the document is untouched. */
  lemma ReplaceAllNullRoot(st: State, parent: Parent)
    requires Valid(st) && ParentIn(st, parent)
    ensures var r := ReplaceAll(st, None, parent);
      r.st == st && r.out.Fail? && IsXmlChecked(r.out.error) && r.out.error.code == X.GENERAL_ERROR
      && r.out.error.rootCause == Some(NULL_POINTER)
  {
    X.CodeTable();
    RaisedAreXmlChecked(X.GENERAL_ERROR, REPLACE_ALL, NULL_POINTER);
  }

  /** A parent without a root node: the element keeps only its text children, in order, and the call succeeds. */
  lemma ReplaceAllNoParent(st: State, x: NodeId, parent: Parent)
    requires Valid(st) && Has(st, x) && Get(st, x).Element? && ParentIn(st, parent)
    requires if parent.SameDocument? then parent.root.None? else parent.tree.None?
    ensures var r := ReplaceAll(st, Some(x), parent); var X := Get(st, x);
      r.out == Ok(()) && Valid(r.st) && (forall y :: Has(r.st, y) <==> Has(st, y)) && Has(r.st, x)
      && Get(r.st, x) == WithKids(X, Texts(Kids(X)))
  {
    PhaseOne(st, x);
  }

  /**
   * A parent of the same document, apart from the element: the element ends with its own text
   * children followed by the parent's children at even positions, and the parent keeps those at
   * odd positions.
   */
  lemma ReplaceAllSame(st: State, x: NodeId, p: NodeId)
    requires Valid(st) && Has(st, x) && Has(st, p) && Get(st, x).Element? && Apart(st, x, p)
    requires forall i :: 0 <= i < |Kids(Get(st, p))| ==> !Kids(Get(st, p))[i].DocRoot?
    ensures var r := ReplaceAll(st, Some(x), SameDocument(Some(p))); var X := Get(st, x); var P := Get(st, p);
      r.out == Ok(()) && Valid(r.st) && (forall y :: Has(r.st, y) <==> Has(st, y)) && Has(r.st, x) && Has(r.st, p)
      && Get(r.st, x) == WithKids(X, Texts(Kids(X)) + Evens(Kids(P)))
      && Get(r.st, p) == (if HasChildList(P) then WithKids(P, Odds(Kids(P))) else P)
  {
    var X := Get(st, x);
    var P := Get(st, p);
    var sr := Strip(st, x, []);
    assert Valid(sr.0) && Has(sr.0, x) && forall i :: 0 <= i < |sr.1| ==> Has(sr.0, sr.1[i]) by {
      PhaseOne(st, x);
    }
    var r2 := Restore(sr.0, x, sr.1);
    assert r2.out.Ok? && Valid(r2.st) && (forall y :: Has(r2.st, y) <==> Has(st, y)) && Has(r2.st, x)
      && Get(r2.st, x) == WithKids(X, Texts(Kids(X))) by {
      PhaseOne(st, x);
    }
    assert Has(r2.st, p) && Get(r2.st, p) == P && Apart(r2.st, p, x) by {
      PhaseOneApart(st, x, p);
    }
    var f := Refill(r2.st, x, SameDocument(Some(p)));
    assert f.out.Ok? && Valid(f.st) && (forall y :: Has(f.st, y) <==> Has(r2.st, y))
      && Get(f.st, x) == WithKids(X, Texts(Kids(X)) + Evens(Kids(P)))
      && Get(f.st, p) == (if HasChildList(P) then WithKids(P, Odds(Kids(P))) else P) by {
      assert Arranged(r2.st, x, p);
      RefillSame(r2.st, x, p);
    }
    assert ReplaceAll(st, Some(x), SameDocument(Some(p))).st == f.st
      && ReplaceAll(st, Some(x), SameDocument(Some(p))).out == f.out;
  }

  /** The same-document refill on an arranged pair: x gains the parent's children at even positions, the parent keeps the rest. */
  lemma RefillSame(s: State, x: NodeId, p: NodeId)
    requires Arranged(s, x, p)
    ensures var f := Refill(s, x, SameDocument(Some(p))); var X := Get(s, x); var P := Get(s, p);
      f.out.Ok? && Valid(f.st) && (forall y :: Has(f.st, y) <==> Has(s, y))
      && Get(f.st, x) == WithKids(X, Kids(X) + Evens(Kids(P)))
      && Get(f.st, p) == (if HasChildList(P) then WithKids(P, Odds(Kids(P))) else P)
  {
    var P := Get(s, p);
    var m := Moves(s, x, p, 0, |Kids(P)|);
    assert m.out.Ok? && Valid(m.st) && (forall y :: Has(m.st, y) <==> Has(s, y))
      && Get(m.st, x) == WithKids(Get(s, x), Kids(Get(s, x)) + Evens(Kids(P)))
      && Get(m.st, p) == (if HasChildList(P) then WithKids(P, Odds(Kids(P))) else P) by {
      MovesSpec(s, x, p, 0, |Kids(P)|);
      assert Kids(P)[0..] == Kids(P) && Kids(P)[..0] + Odds(Kids(P)) == Odds(Kids(P));
    }
  }

  /**
   * A parent of another document: the call succeeds exactly when every child of its root node can
   * be cloned, and fails with CLONE_FAILED otherwise; on success the element holds its own text
   * children followed by copies of the parent's children, equal to them but for identifiers.
   */
  lemma ReplaceAllOther(st: State, x: NodeId, n: Node)
    requires Valid(st) && Has(st, x) && Get(st, x).Element?
    ensures var r := ReplaceAll(st, Some(x), OtherDocument(Some(n)));
      Valid(r.st) && Has(r.st, x) && (forall y :: Has(st, y) ==> Has(r.st, y))
      && (r.out.Ok? <==> ClonableList(Kids(n)))
      && (!ClonableList(Kids(n)) ==> r.out == Fail(CLONE_FAILED_ERR))
    ensures var r := ReplaceAll(st, Some(x), OtherDocument(Some(n))); var X := Get(st, x); var T := Texts(Kids(X));
      r.out.Ok? ==>
        var R := Get(r.st, x);
        R.Element? && R == WithKids(X, Kids(R)) && |Kids(R)| >= |T| && Kids(R)[..|T|] == T
        && EraseList(Kids(R)[|T|..]) == EraseList(CanonicalList(Kids(n)))
  {
    var X := Get(st, x);
    var T := Texts(Kids(X));
    var sr := Strip(st, x, []);
    assert Valid(sr.0) && Has(sr.0, x) && forall i :: 0 <= i < |sr.1| ==> Has(sr.0, sr.1[i]) by {
      PhaseOne(st, x);
    }
    var r2 := Restore(sr.0, x, sr.1);
    assert r2.out.Ok? && Valid(r2.st) && (forall y :: Has(r2.st, y) <==> Has(st, y)) && Has(r2.st, x)
      && Get(r2.st, x) == WithKids(X, T) by {
      PhaseOne(st, x);
    }
    var f := Refill(r2.st, x, OtherDocument(Some(n)));
    assert Valid(f.st) && Has(f.st, x) && (forall y :: Has(r2.st, y) ==> Has(f.st, y))
      && (f.out.Ok? <==> ClonableList(Kids(n)))
      && (!ClonableList(Kids(n)) ==> f.out == Fail(CLONE_FAILED_ERR))
      && (f.out.Ok? ==>
            var R := Get(f.st, x);
            R.Element? && R == WithKids(Get(r2.st, x), Kids(R)) && |Kids(R)| >= |T| && Kids(R)[..|T|] == T
            && EraseList(Kids(R)[|T|..]) == EraseList(CanonicalList(Kids(n)))) by {
      RefillOther(r2.st, x, n);
    }
    assert ReplaceAll(st, Some(x), OtherDocument(Some(n))).st == f.st
      && ReplaceAll(st, Some(x), OtherDocument(Some(n))).out == f.out;
  }

  /** The other-document refill on an element: the copy loop, its failure rethrown unchanged. */
  lemma RefillOther(s: State, x: NodeId, n: Node)
    requires Valid(s) && Has(s, x) && Get(s, x).Element?
    ensures var f := Refill(s, x, OtherDocument(Some(n)));
      Valid(f.st) && Has(f.st, x) && (forall y :: Has(s, y) ==> Has(f.st, y))
      && (f.out.Ok? <==> ClonableList(Kids(n)))
      && (!ClonableList(Kids(n)) ==> f.out == Fail(CLONE_FAILED_ERR))
    ensures var f := Refill(s, x, OtherDocument(Some(n))); var X := Get(s, x); var K := Kids(X);
      f.out.Ok? ==>
        var R := Get(f.st, x);
        R.Element? && R == WithKids(X, Kids(R)) && |Kids(R)| >= |K| && Kids(R)[..|K|] == K
        && EraseList(Kids(R)[|K|..]) == EraseList(CanonicalList(Kids(n)))
  {
    var c := Copies(s, x, Kids(n));
    var K := Kids(Get(s, x));
    assert Valid(c.st) && Has(c.st, x) && (forall y :: Has(s, y) ==> Has(c.st, y))
      && (c.out.Ok? <==> ClonableList(Kids(n)))
      && (!ClonableList(Kids(n)) ==> c.out == Fail(CLONE_FAILED_ERR))
      && (c.out.Ok? ==>
            var R := Get(c.st, x);
            R.Element? && R == WithKids(Get(s, x), Kids(R)) && |Kids(R)| >= |K| && Kids(R)[..|K|] == K
            && EraseList(Kids(R)[|K|..]) == EraseList(CanonicalList(Kids(n)))) by {
      CopiesSpec(s, x, Kids(n));
    }
    assert Rethrow(REPLACE_ALL, CLONE_FAILED_ERR) == CLONE_FAILED_ERR by {
      X.CodeTable();
      RaisedAreXmlChecked(X.CLONE_FAILED, CLONE_DEBUG, NULL_POINTER);
    }
  }

  // ---------------------------------------------------------------- what every call keeps

  /** The same-document loop keeps any document valid, with the same nodes, whatever the two nodes are. */
  lemma {:induction false} MovesValid(st: State, x: NodeId, p: NodeId, cnt: nat, fuel: nat)
    requires Valid(st) && Has(st, x) && Has(st, p)
    ensures var r := Moves(st, x, p, cnt, fuel); Valid(r.st) && forall y :: Has(r.st, y) <==> Has(st, y)
    decreases fuel
  {
    var cs := Kids(Get(st, p));
    if fuel > 0 && cnt < |cs| {
      Placing.KidInState(st, p, cnt);
      var a := AppendChild(st, x, cs[cnt].id);
      if a.Ok? {
        MoveSpec(st, x, cs[cnt].id);
        MovesValid(a.value, x, p, cnt + 1, fuel - 1);
      }
    }
  }

  /** The other-document loop keeps any document valid and every node it had, whatever the receiver is. */
  lemma {:induction false} CopiesValid(st: State, x: NodeId, cs: seq<Node>)
    requires Valid(st) && Has(st, x)
    ensures var r := Copies(st, x, cs); Valid(r.st) && forall y :: Has(st, y) ==> Has(r.st, y)
    decreases |cs|
  {
    if cs != [] {
      ExamineSpec(st, Foreign(Some(cs[0])));
      var e := Examine(st, Foreign(Some(cs[0])));
      if e.out.Ok? {
        if e.out.value.None? {
          CopiesValid(e.st, x, cs[1..]);
        } else {
          var c := e.out.value.value;
          var a := AppendChild(e.st, x, c);
          if a.Ok? {
            MoveSpec(e.st, x, c);
            CopiesValid(a.value, x, cs[1..]);
          }
        }
      }
    }
  }

  /** replaceAllChildren, whatever it is given, leaves a valid document that still holds every node it had. */
  lemma ReplaceAllKeeps(st: State, root: Option<NodeId>, parent: Parent)
    requires Valid(st) && RootIn(st, root) && ParentIn(st, parent)
    ensures var r := ReplaceAll(st, root, parent); Valid(r.st) && RootIn(r.st, root) && forall y :: Has(st, y) ==> Has(r.st, y)
  {
    if root.Some? {
      var x := root.value;
      StripTexts(st, x);
      StripBasics(st, x, []);
      var (s1, ts) := Strip(st, x, []);
      RestoreValid(s1, x, ts);
      var r2 := Restore(s1, x, ts);
      if r2.out.Ok? {
        match parent
        case SameDocument(Some(p)) => MovesValid(r2.st, x, p, 0, |Kids(Get(r2.st, p))|);
        case OtherDocument(Some(n)) => CopiesValid(r2.st, x, Kids(n));
        case SameDocument(None) =>
        case OtherDocument(None) =>
      }
    }
  }

  /** One turn of the same-document loop: the cnt-th child of p appended to x, or the exception that stops the loop. */
  lemma MovesTurn(st: State, x: NodeId, p: NodeId, cnt: nat, fuel: nat)
    requires Valid(st) && Has(st, x) && Has(st, p) && fuel > 0 && cnt < |Kids(Get(st, p))|
    ensures var c := Kids(Get(st, p))[cnt].id;
      Has(st, c)
      && (AppendChild(st, x, c).Fail? ==>
            Moves(st, x, p, cnt, fuel).st == st && Moves(st, x, p, cnt, fuel).out == Fail(AppendChild(st, x, c).error))
      && (AppendChild(st, x, c).Ok? ==>
            var s := AppendChild(st, x, c).value;
            Valid(s) && Has(s, x) && Has(s, p)
            && Moves(st, x, p, cnt, fuel).st == Moves(s, x, p, cnt + 1, fuel - 1).st
            && Moves(st, x, p, cnt, fuel).out == Moves(s, x, p, cnt + 1, fuel - 1).out)
  {
    Placing.KidInState(st, p, cnt);
    var c := Kids(Get(st, p))[cnt].id;
    if AppendChild(st, x, c).Ok? {
      MoveSpec(st, x, c);
    }
  }
}
