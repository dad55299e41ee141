/**
 * Child paths: a path such as "order/line/item" is cut at every '/', empty segments are
 * dropped, and the segments are matched against node names from the current node downwards.
 */
module Paths {
  import opened Wrappers
  import opened DomTree

  const SEPARATOR: char := '/'

  /** A path segment: not empty, no separator. */
  predicate IsSegment(t: string)
  {
    |t| > 0 && SEPARATOR !in t
  }

  /** StringUtils.split(path, "/") and StringTokenizer(path, "/"): the separator-free runs, empty ones dropped. */
  function Split(path: string): (r: seq<string>)
    ensures forall i :: 0 <= i < |r| ==> IsSegment(r[i])
  {
    Tokens(path, [])
  }

  function Flush(cur: string): (r: seq<string>)
    requires SEPARATOR !in cur
    ensures forall i :: 0 <= i < |r| ==> IsSegment(r[i])
  {
    if cur == [] then [] else [cur]
  }

  /** The tokens of `rest`, the first of them continuing the run `cur`. */
  function Tokens(rest: string, cur: string): (r: seq<string>)
    requires SEPARATOR !in cur
    ensures forall i :: 0 <= i < |r| ==> IsSegment(r[i])
    decreases rest
  {
    if rest == [] then Flush(cur)
    else if rest[0] == SEPARATOR then Flush(cur) + Tokens(rest[1..], [])
    else Tokens(rest[1..], cur + [rest[0]])
  }

  lemma {:induction false} TokensConcat(a: string, b: string, cur: string)
    requires SEPARATOR !in cur
    ensures Tokens(a + [SEPARATOR] + b, cur) == Tokens(a, cur) + Tokens(b, [])
    decreases a
  {
    if a == [] {
      assert a + [SEPARATOR] + b == [SEPARATOR] + b;
      assert ([SEPARATOR] + b)[1..] == b;
    } else {
      assert (a + [SEPARATOR] + b)[0] == a[0];
      assert (a + [SEPARATOR] + b)[1..] == a[1..] + [SEPARATOR] + b;
      if a[0] == SEPARATOR {
        TokensConcat(a[1..], b, []);
      } else {
        TokensConcat(a[1..], b, cur + [a[0]]);
      }
    }
  }

  /** Cutting at a separator: the segments of the two sides, in order. */
  lemma SplitConcat(a: string, b: string)
    ensures Split(a + [SEPARATOR] + b) == Split(a) + Split(b)
  {
    TokensConcat(a, b, []);
  }

  /** A separator doubled, leading or trailing changes nothing: "a//b" and "/a/b/" resolve like "a/b". */
  lemma SplitIgnoresEmptySegments(a: string, b: string)
    ensures Split(a + "//" + b) == Split(a + "/" + b)
    ensures Split("/" + a) == Split(a) && Split(a + "/") == Split(a)
  {
    SplitConcat(a, [SEPARATOR] + b);
    SplitConcat(a, b);
    assert a + "//" + b == a + [SEPARATOR] + ([SEPARATOR] + b);
    SplitConcat([], b);
    assert [] + [SEPARATOR] + b == "/" + b;
    SplitConcat([], a);
    assert [] + [SEPARATOR] + a == "/" + a;
    SplitConcat(a, []);
    assert a + [SEPARATOR] + [] == a + "/";
    assert Split([]) == [];
  }

  /** A single segment splits into itself. */
  lemma {:induction false} SplitSegment(t: string)
    requires IsSegment(t)
    ensures Split(t) == [t]
  {
    TokensRun(t, []);
    assert [] + t == t;
  }

  lemma {:induction false} TokensRun(t: string, cur: string)
    requires SEPARATOR !in t && SEPARATOR !in cur && |cur + t| > 0
    ensures Tokens(t, cur) == [cur + t]
    decreases t
  {
    if t == [] {
      assert cur + t == cur;
    } else {
      assert (cur + [t[0]]) + t[1..] == cur + t;
      TokensRun(t[1..], cur + [t[0]]);
    }
  }

  lemma SplitExamples()
    ensures Split("a/b") == ["a", "b"]
    ensures Split("a//b") == ["a", "b"]
    ensures Split("/a/b/") == ["a", "b"]
    ensures Split("") == [] && Split("/") == []
  {
    SplitSegment("a");
    SplitSegment("b");
    SplitConcat("a", "b");
    assert "a" + [SEPARATOR] + "b" == "a/b";
    SplitIgnoresEmptySegments("a", "b");
    assert "a" + "//" + "b" == "a//b";
    assert "a" + "/" + "b" == "a/b";
    SplitIgnoresEmptySegments("a/b", "");
    SplitIgnoresEmptySegments("a/b/", "");
    assert "/" + ("a/b" + "/") == "/a/b/";
    SplitConcat("", "");
    assert "" + [SEPARATOR] + "" == "/";
  }

  // ---------------------------------------------------------------- resolution

  /**
   * getChildNodeByTag(n, tags, 0): no segment left gives n; otherwise the children are tried
   * in order, a child whose node name is the segment is searched for the rest of the path, and
   * the search goes on with the later children when that finds nothing.
   */
  function Resolve(n: Node, tags: seq<string>): Option<Node>
    decreases n, 1
  {
    if tags == [] then Some(n)
    else match n
      case Element(_, _, _, cs) => ResolveAmong(cs, tags)
      case DocRoot(_, cs) => ResolveAmong(cs, tags)
      case _ => None
  }

  /** The sibling loop of getChildNodeByTag, from cs[0] on. */
  function ResolveAmong(cs: seq<Node>, tags: seq<string>): Option<Node>
    requires tags != []
    decreases cs, 0
  {
    if cs == [] then None
    else if NodeName(cs[0]) == tags[0] && Resolve(cs[0], tags[1..]).Some? then Resolve(cs[0], tags[1..])
    else ResolveAmong(cs[1..], tags)
  }

  /** The i-th child leads to a node for the path: its name is the first segment and the rest resolves below it. */
  predicate Leads(cs: seq<Node>, i: nat, tags: seq<string>)
    requires tags != [] && i < |cs|
  {
    NodeName(cs[i]) == tags[0] && Resolve(cs[i], tags[1..]).Some?
  }

  /** The first child that leads somewhere decides: resolution backtracks past later ones only when earlier ones fail. */
  lemma {:induction false} ResolveAmongFirst(cs: seq<Node>, tags: seq<string>, i: nat)
    requires tags != [] && i < |cs| && Leads(cs, i, tags)
    requires forall j :: 0 <= j < i ==> !Leads(cs, j, tags)
    ensures ResolveAmong(cs, tags) == Resolve(cs[i], tags[1..])
    decreases i
  {
    if i > 0 {
      assert !Leads(cs, 0, tags);
      forall j | 0 <= j < i - 1
        ensures !Leads(cs[1..], j, tags)
      {
        assert cs[1..][j] == cs[j + 1];
        assert !Leads(cs, j + 1, tags);
      }
      assert cs[1..][i - 1] == cs[i];
      ResolveAmongFirst(cs[1..], tags, i - 1);
    }
  }

  /** Resolution among children fails exactly when no child leads anywhere. */
  lemma {:induction false} ResolveAmongNone(cs: seq<Node>, tags: seq<string>)
    requires tags != []
    ensures ResolveAmong(cs, tags).None? <==> forall j :: 0 <= j < |cs| ==> !Leads(cs, j, tags)
    decreases cs
  {
    if cs != [] && !Leads(cs, 0, tags) {
      ResolveAmongNone(cs[1..], tags);
      assert ResolveAmong(cs, tags) == ResolveAmong(cs[1..], tags);
      assert (forall j :: 0 <= j < |cs| ==> !Leads(cs, j, tags)) <==> (forall j :: 0 <= j < |cs[1..]| ==> !Leads(cs[1..], j, tags)) by {
        forall j | 0 <= j < |cs[1..]|
          ensures Leads(cs[1..], j, tags) == Leads(cs, j + 1, tags)
        {
          assert cs[1..][j] == cs[j + 1];
        }
        if forall j :: 0 <= j < |cs[1..]| ==> !Leads(cs[1..], j, tags) {
          forall j | 0 <= j < |cs|
            ensures !Leads(cs, j, tags)
          {
            if j > 0 {
              assert !Leads(cs[1..], j - 1, tags);
            }
          }
        }
      }
    }
  }

  /** What resolution finds lies in the tree, below the start for a non-empty path, and bears the last segment as name. */
  lemma {:induction false} ResolveSound(n: Node, tags: seq<string>)
    requires Resolve(n, tags).Some?
    ensures OccursIn(n, Resolve(n, tags).value)
    ensures tags != [] ==> NodeName(Resolve(n, tags).value) == tags[|tags| - 1] && Occurs(Kids(n), Resolve(n, tags).value)
    decreases n, 1
  {
    if tags != [] {
      match n
      case Element(_, _, _, cs) => ResolveAmongSound(cs, tags);
      case DocRoot(_, cs) => ResolveAmongSound(cs, tags);
    }
  }

  lemma {:induction false} ResolveAmongSound(cs: seq<Node>, tags: seq<string>)
    requires tags != [] && ResolveAmong(cs, tags).Some?
    ensures Occurs(cs, ResolveAmong(cs, tags).value)
    ensures NodeName(ResolveAmong(cs, tags).value) == tags[|tags| - 1]
    decreases cs, 0
  {
    if NodeName(cs[0]) == tags[0] && Resolve(cs[0], tags[1..]).Some? {
      ResolveSound(cs[0], tags[1..]);
    } else {
      ResolveAmongSound(cs[1..], tags);
    }
  }

  /** The example of backtracking: "x/z" over <x><y/></x><x><z/></x> finds z in the second x. */
  lemma BacktrackExample()
    ensures var z := Element(4, "z", [], []);
      var r := Element(0, "r", [], [Element(1, "x", [], [Element(2, "y", [], [])]), Element(3, "x", [], [z])]);
      Resolve(r, Split("x/z")) == Some(z)
  {
    SplitSegment("x");
    SplitSegment("z");
    SplitConcat("x", "z");
    assert "x" + [SEPARATOR] + "z" == "x/z";
    assert Split("x/z") == ["x", "z"];
    var y, z := Element(2, "y", [], []), Element(4, "z", [], []);
    var x1, x2 := Element(1, "x", [], [y]), Element(3, "x", [], [z]);
    assert ResolveAmong([y], ["z"]) == None;
    assert Resolve(x1, ["z"]) == None;
    assert ResolveAmong([z], ["z"]) == Some(z);
    assert Resolve(x2, ["z"]) == Some(z);
    assert ["x", "z"][1..] == ["z"];
    assert ResolveAmong([x2], ["x", "z"]) == Some(z);
    assert [x1, x2][1..] == [x2];
    assert ResolveAmong([x1, x2], ["x", "z"]) == Some(z);
  }

  /** Names are matched whatever the kind: "#comment" reaches a comment, "#text" a text node. */
  lemma AnyKindExample()
    ensures Resolve(Element(0, "r", [], [Comment(1, "c")]), ["#comment"]) == Some(Comment(1, "c"))
    ensures Resolve(Element(0, "r", [], [Text(1, Some("v"))]), ["#text"]) == Some(Text(1, Some("v")))
  {
  }

  /** getChildNodeByTag as written: recursion on the segment index, a loop over the siblings. */
  method ChildNodeByTag(n: Node, tags: seq<string>, index: nat) returns (r: Option<Node>)
    requires index <= |tags|
    ensures r == Resolve(n, tags[index..])
    decreases n
  {
    if index >= |tags| {
      return Some(n);
    }
    var rest := tags[index..];
    if !HasChildList(n) {
      return None;
    }
    var cs := Kids(n);
    var tagName := tags[index];
    var i := 0;
    while i < |cs|
      invariant 0 <= i <= |cs|
      invariant ResolveAmong(cs, rest) == ResolveAmong(cs[i..], rest)
    {
      assert cs[i..][1..] == cs[i + 1..];
      if NodeName(cs[i]) == tagName {
        var child := ChildNodeByTag(cs[i], tags, index + 1);
        assert tags[index + 1..] == rest[1..];
        if child.Some? {
          return child;
        }
      }
      i := i + 1;
    }
    return None;
  }

  // ---------------------------------------------------------------- the first-match walk of auto-creation

  /** The first child with the name: prvGetChildByName of a single segment. */
  function FirstNamed(cs: seq<Node>, t: string): (r: Option<nat>)
    ensures r.Some? ==> r.value < |cs| && NodeName(cs[r.value]) == t
    ensures r.Some? ==> forall j :: 0 <= j < r.value ==> NodeName(cs[j]) != t
    ensures r.None? ==> forall j :: 0 <= j < |cs| ==> NodeName(cs[j]) != t
    decreases cs
  {
    if cs == [] then None
    else if NodeName(cs[0]) == t then Some(0)
    else match FirstNamed(cs[1..], t)
      case None => None
      case Some(i) => Some(i + 1)
  }

  /** Resolving one segment finds the first child with that name. */
  lemma ResolveOne(n: Node, t: string)
    ensures Resolve(n, [t]) == match FirstNamed(Kids(n), t) case None => None case Some(i) => Some(Kids(n)[i])
  {
    var cs := Kids(n);
    match FirstNamed(cs, t)
    case None =>
      if HasChildList(n) {
        ResolveAmongNone(cs, [t]);
      }
    case Some(i) =>
      assert Leads(cs, i, [t]);
      ResolveAmongFirst(cs, [t], i);
  }

  /**
   * The loop of prgCreateChildByName up to its first miss: from n, the first child with each
   * segment's name in turn. Gives the node reached and how many segments it took.
   */
  function Walk(n: Node, tags: seq<string>): (r: (Node, nat))
    ensures r.1 <= |tags|
    decreases n
  {
    if tags == [] then (n, 0)
    else match n
      case Element(_, _, _, cs) =>
        (match FirstNamed(cs, tags[0])
         case None => (n, 0)
         case Some(i) => var w := Walk(cs[i], tags[1..]); (w.0, w.1 + 1))
      case DocRoot(_, cs) =>
        (match FirstNamed(cs, tags[0])
         case None => (n, 0)
         case Some(i) => var w := Walk(cs[i], tags[1..]); (w.0, w.1 + 1))
      case _ => (n, 0)
  }

  /** A walk that takes every segment reaches what resolution finds. */
  lemma {:induction false} WalkComplete(n: Node, tags: seq<string>)
    requires Walk(n, tags).1 == |tags|
    ensures Resolve(n, tags) == Some(Walk(n, tags).0)
    decreases n
  {
    if tags != [] {
      var cs := Kids(n);
      var i := FirstNamed(cs, tags[0]).value;
      WalkComplete(cs[i], tags[1..]);
      assert Leads(cs, i, tags);
      ResolveAmongFirst(cs, tags, i);
    }
  }

  /** A walk that stops early stops at a node without a child of the next segment's name. */
  lemma {:induction false} WalkStops(n: Node, tags: seq<string>)
    requires Walk(n, tags).1 < |tags|
    ensures FirstNamed(Kids(Walk(n, tags).0), tags[Walk(n, tags).1]).None?
    ensures OccursIn(n, Walk(n, tags).0)
    decreases n
  {
    var cs := Kids(n);
    if HasChildList(n) && FirstNamed(cs, tags[0]).Some? {
      var i := FirstNamed(cs, tags[0]).value;
      WalkStops(cs[i], tags[1..]);
      OccursAt(cs, i);
      assert OccursIn(n, cs[i]);
      OccursInTrans(n, cs[i], Walk(n, tags).0);
    }
  }

  /** One turn of the lookup loop: the walk goes on through the first child named after the segment. */
  lemma WalkOn(n: Node, ts: seq<string>, k: nat)
    requires ts != [] && FirstNamed(Kids(n), ts[0]) == Some(k)
    ensures k < |Kids(n)|
    ensures Walk(n, ts).0 == Walk(Kids(n)[k], ts[1..]).0 && Walk(n, ts).1 == Walk(Kids(n)[k], ts[1..]).1 + 1
  {
  }

  /** The lookup loop stops at the first segment no child is named after. */
  lemma WalkHalts(n: Node, ts: seq<string>)
    requires ts != [] && FirstNamed(Kids(n), ts[0]).None?
    ensures Walk(n, ts).0 == n && Walk(n, ts).1 == 0
  {
  }

}
