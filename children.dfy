/**
 * Element-only indexing and counting (getElementChildByIndex, getElementChildNodesLength):
 * both scan the full child list and count only the ELEMENT_NODE entries, so text, CDATA,
 * comment and processing-instruction children are invisible to getChild(int), removeChild(int),
 * replaceChild(int, _), getChildCount and getChildren.
 */
module Children {
  import opened Wrappers
  import opened Throwables
  import opened DomTree
  import X = XmlDocumentCheckedException
  import opened Outcomes

  /** The element children of a child list, in order. */
  function ElementKids(cs: seq<Node>): (r: seq<Node>)
    ensures |r| <= |cs|
    ensures forall i :: 0 <= i < |r| ==> r[i].Element? && r[i] in cs
    decreases cs
  {
    if cs == [] then []
    else (if cs[0].Element? then [cs[0]] else []) + ElementKids(cs[1..])
  }

  /** The debug string of getElementChildByIndex. */
  const BY_INDEX: string := Debug(".getElementChildByIndex(Node, int)")

  lemma {:induction false} ElementKidsConcat(a: seq<Node>, b: seq<Node>)
    ensures ElementKids(a + b) == ElementKids(a) + ElementKids(b)
    decreases a
  {
    if a != [] {
      assert (a + b)[0] == a[0] && (a + b)[1..] == a[1..] + b;
      ElementKidsConcat(a[1..], b);
      var h := if a[0].Element? then [a[0]] else [];
      calc {
        ElementKids(a + b);
        h + ElementKids(a[1..] + b);
        h + (ElementKids(a[1..]) + ElementKids(b));
        (h + ElementKids(a[1..])) + ElementKids(b);
      }
    } else {
      assert a + b == b;
    }
  }

  lemma ElementKidsOne(n: Node)
    ensures ElementKids([n]) == if n.Element? then [n] else []
  {
    assert [n][1..] == [];
  }

  /** Every element child is listed, and nothing else: a child is listed exactly when it is an element. */
  lemma {:induction false} ElementKidsComplete(cs: seq<Node>, i: nat)
    requires i < |cs|
    ensures cs[i].Element? ==> cs[i] in ElementKids(cs)
  {
    assert cs == cs[..i] + [cs[i]] + cs[i + 1..];
    ElementKidsConcat(cs[..i] + [cs[i]], cs[i + 1..]);
    ElementKidsConcat(cs[..i], [cs[i]]);
    ElementKidsOne(cs[i]);
  }

  /** A child that is not an element, wherever it sits, changes neither the indexes nor the count. */
  lemma NonElementInvisible(a: seq<Node>, n: Node, b: seq<Node>)
    requires !n.Element?
    ensures ElementKids(a + [n] + b) == ElementKids(a + b)
  {
    ElementKidsConcat(a + [n], b);
    ElementKidsConcat(a, [n]);
    ElementKidsOne(n);
    ElementKidsConcat(a, b);
  }

  /** The index-th element child sits after exactly index element children. */
  lemma {:induction false} ElementKidsPosition(cs: seq<Node>, i: nat)
    requires i < |cs| && cs[i].Element?
    ensures |ElementKids(cs[..i])| < |ElementKids(cs)|
    ensures ElementKids(cs)[|ElementKids(cs[..i])|] == cs[i]
  {
    assert cs == cs[..i] + ([cs[i]] + cs[i + 1..]);
    ElementKidsConcat(cs[..i], [cs[i]] + cs[i + 1..]);
    ElementKidsConcat([cs[i]], cs[i + 1..]);
    ElementKidsOne(cs[i]);
  }

  /** getElementChildNodesLength: the number of element children. */
  method ElementChildNodesLength(cs: seq<Node>) returns (size: nat)
    ensures size == |ElementKids(cs)|
  {
    size := 0;
    var i := 0;
    while i < |cs|
      invariant 0 <= i <= |cs|
      invariant size == |ElementKids(cs[..i])|
    {
      assert cs[..i + 1] == cs[..i] + [cs[i]];
      ElementKidsConcat(cs[..i], [cs[i]]);
      ElementKidsOne(cs[i]);
      if cs[i].Element? {
        size := size + 1;
      }
      i := i + 1;
    }
    assert cs[..i] == cs;
  }

  /**
   * getElementChildByIndex(parent, index): the index-th element child; INVALID_INDEX when there
   * is none (a negative index included); a null parent is a NullPointerException, wrapped.
   */
  function ElementAt(parent: Option<Node>, index: int): Outcome<Node>
  {
    if parent.None? then Fail(GeneralError(BY_INDEX, NULL_POINTER))
    else if 0 <= index < |ElementKids(Kids(parent.value))| then Ok(ElementKids(Kids(parent.value))[index])
    else Fail(Raise(X.INVALID_INDEX, BY_INDEX))
  }

  /** Where the k-th element child sits in the full child list: after exactly k element children. */
  function ElementPos(cs: seq<Node>, k: nat): (j: nat)
    requires k < |ElementKids(cs)|
    ensures j < |cs| && cs[j] == ElementKids(cs)[k] && |ElementKids(cs[..j])| == k
    decreases cs
  {
    if cs[0].Element? && k == 0 then
      assert cs[..0] == [];
      0
    else
      var k' := if cs[0].Element? then k - 1 else k;
      ElementPosStep(cs, k, k');
      var j' := ElementPos(cs[1..], k');
      ElementPosShift(cs, k, k', j');
      j' + 1
  }

  lemma {:induction false} ElementPosStep(cs: seq<Node>, k: nat, k': nat)
    requires k < |ElementKids(cs)| && !(cs[0].Element? && k == 0)
    requires k' == if cs[0].Element? then k - 1 else k
    ensures k' < |ElementKids(cs[1..])| && ElementKids(cs[1..])[k'] == ElementKids(cs)[k]
  {
    var h := if cs[0].Element? then [cs[0]] else [];
    assert ElementKids(cs) == h + ElementKids(cs[1..]);
  }

  lemma ElementPosShift(cs: seq<Node>, k: nat, k': nat, j': nat)
    requires cs != [] && k' == (if cs[0].Element? then k - 1 else k) && !(cs[0].Element? && k == 0)
    requires j' < |cs[1..]| && |ElementKids(cs[1..][..j'])| == k'
    ensures |ElementKids(cs[..j' + 1])| == k
  {
    assert cs[..j' + 1] == [cs[0]] + cs[1..][..j'];
    ElementKidsConcat([cs[0]], cs[1..][..j']);
    ElementKidsOne(cs[0]);
  }

  /**
   * An element child splits the element list where it splits the child list. Taking it out, or
   * putting another node in its place, takes it out of, or puts that node's entry in, the
   * element list at the same index.
   */
  lemma ElementKidsAround(cs: seq<Node>, j: nat, m: Node)
    requires j < |cs| && cs[j].Element?
    ensures var k := |ElementKids(cs[..j])|; var e := ElementKids(cs);
      k < |e| && e[k] == cs[j]
      && ElementKids(cs[..j] + cs[j + 1..]) == e[..k] + e[k + 1..]
      && ElementKids(cs[..j] + [m] + cs[j + 1..]) == e[..k] + ElementKids([m]) + e[k + 1..]
  {
    var a, b := cs[..j], cs[j + 1..];
    assert cs == a + ([cs[j]] + b);
    ElementKidsConcat(a, [cs[j]] + b);
    ElementKidsConcat([cs[j]], b);
    ElementKidsOne(cs[j]);
    var e := ElementKids(cs);
    var k := |ElementKids(a)|;
    assert e == ElementKids(a) + [cs[j]] + ElementKids(b);
    assert e[..k] == ElementKids(a) && e[k + 1..] == ElementKids(b);
    ElementKidsConcat(a, b);
    ElementKidsConcat(a + [m], b);
    ElementKidsConcat(a, [m]);
  }

  /** getElementChildByIndex: the loop counting element children up to the one asked for. */
  method ElementChildByIndex(parent: Option<Node>, index: int) returns (r: Outcome<Node>)
    ensures r == ElementAt(parent, index)
  {
    if parent.None? {
      return Fail(GeneralError(BY_INDEX, NULL_POINTER));
    }
    var cs := Kids(parent.value);
    var cnt := 0;
    var i := 0;
    while i < |cs|
      invariant 0 <= i <= |cs|
      invariant cnt == |ElementKids(cs[..i])|
      invariant index < 0 || cnt <= index
    {
      assert cs[..i + 1] == cs[..i] + [cs[i]];
      ElementKidsConcat(cs[..i], [cs[i]]);
      ElementKidsOne(cs[i]);
      if cs[i].Element? {
        if cnt == index {
          ElementKidsPosition(cs, i);
          return Ok(cs[i]);
        }
        cnt := cnt + 1;
      }
      i := i + 1;
    }
    assert cs[..i] == cs;
    return Fail(Raise(X.INVALID_INDEX, BY_INDEX));
  }
}
