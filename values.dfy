/**
 * The text and CDATA value of a node (getNodeTextValue, getCDATATextValue) and the two setters
 * (setTextValue, setCDATASection). A node's value is that of its FIRST child of the kind: the
 * text setter overwrites that child, or appends one when there is none and the value is not
 * empty; the CDATA setter only ever appends, so once a node has a CDATA child its observed CDATA
 * value no longer changes.
 */
module Values {
  import opened Wrappers
  import opened Throwables
  import opened DomTree
  import opened Dom
  import opened Outcomes
  import Creation
  import Placing

  /** getNodeTextValue(node): the value of the first text child (None for a null value), "" with none. */
  function TextValue(n: Node): Option<string>
  {
    match FirstText(Kids(n))
    case None => Some("")
    case Some(t) => t.text
  }

  /** getCDATATextValue(node): the data of the first CDATA child, "" with none. */
  function CDataValue(n: Node): string
  {
    match FirstCData(Kids(n))
    case None => ""
    case Some(c) => c.data
  }

  /** The child loop of getNodeTextValue. */
  method NodeTextValue(n: Node) returns (r: Option<string>)
    ensures r == TextValue(n)
  {
    var cs := Kids(n);
    var i := 0;
    while i < |cs|
      invariant 0 <= i <= |cs|
      invariant FirstText(cs[i..]) == FirstText(cs)
    {
      assert cs[i..][0] == cs[i] && cs[i..][1..] == cs[i + 1..];
      if cs[i].Text? {
        return cs[i].text;
      }
      i := i + 1;
    }
    return Some("");
  }

  /** The child loop of getCDATATextValue. */
  method CDataTextValue(n: Node) returns (r: string)
    ensures r == CDataValue(n)
  {
    var cs := Kids(n);
    var i := 0;
    while i < |cs|
      invariant 0 <= i <= |cs|
      invariant FirstCData(cs[i..]) == FirstCData(cs)
    {
      assert cs[i..][0] == cs[i] && cs[i..][1..] == cs[i + 1..];
      if cs[i].CData? {
        return cs[i].data;
      }
      i := i + 1;
    }
    return "";
  }

  // ---------------------------------------------------------------- first child of a kind

  /** The position of the first text child. */
  function TextPos(cs: seq<Node>): (i: nat)
    requires FirstText(cs).Some?
    ensures i < |cs| && cs[i] == FirstText(cs).value
    ensures forall j :: 0 <= j < i ==> !cs[j].Text?
    decreases cs
  {
    if cs[0].Text? then 0 else 1 + TextPos(cs[1..])
  }

  /** Overwriting the first text child with a text node makes it the first text child. */
  lemma {:induction false} FirstTextAt(cs: seq<Node>, i: nat, m: Node)
    requires i < |cs| && m.Text? && forall j :: 0 <= j < i ==> !cs[j].Text?
    ensures FirstText(cs[..i] + [m] + cs[i + 1..]) == Some(m)
    decreases i
  {
    var r := cs[..i] + [m] + cs[i + 1..];
    if i > 0 {
      FirstTextAt(cs[1..], i - 1, m);
      assert r[0] == cs[0] && r[1..] == cs[1..][..i - 1] + [m] + cs[1..][i..];
    } else {
      assert r[0] == m;
    }
  }

  /** Putting one non-CDATA child in place of another leaves the first CDATA child as it was. */
  lemma {:induction false} FirstCDataAt(cs: seq<Node>, i: nat, m: Node)
    requires i < |cs| && !m.CData? && !cs[i].CData?
    ensures FirstCData(cs[..i] + [m] + cs[i + 1..]) == FirstCData(cs)
    decreases i
  {
    var r := cs[..i] + [m] + cs[i + 1..];
    if i > 0 {
      FirstCDataAt(cs[1..], i - 1, m);
      assert r[0] == cs[0] && r[1..] == cs[1..][..i - 1] + [m] + cs[1..][i..];
    } else {
      assert r[0] == m && r[1..] == cs[1..];
    }
  }

  /** Appending a child: the first child of a kind stays, unless there was none and the child is of that kind. */
  lemma {:induction false} FirstAppend(cs: seq<Node>, n: Node)
    ensures FirstText(cs + [n]) == if FirstText(cs).Some? || !n.Text? then FirstText(cs) else Some(n)
    ensures FirstCData(cs + [n]) == if FirstCData(cs).Some? || !n.CData? then FirstCData(cs) else Some(n)
    decreases cs
  {
    if cs == [] {
      assert [n][1..] == [];
    } else {
      assert (cs + [n])[0] == cs[0] && (cs + [n])[1..] == cs[1..] + [n];
      FirstAppend(cs[1..], n);
    }
  }

  // ---------------------------------------------------------------- setters

  /** A successful append of a new node, or the exception with the node left created and unattached. */
  function AppendNew(st: State, x: NodeId, t: Node): Effect<()>
    requires Valid(st) && Has(st, x) && t.id == st.next && Ids(t) == [st.next]
  {
    Placing.AppendCreated(st, x, t);
    var s1 := Adopt(st, t, st.next + 1);
    match AppendChild(s1, x, t.id)
    case Ok(s2) => Effect(s2, Ok(()))
    case Fail(e) => Effect(s1, Fail(e))
  }

  /**
   * setTextValue(node, value): null is "". The first text child is given the value; with no text
   * child a non-empty value becomes a new last text child. A null node is a NullPointerException.
   */
  function SetText(st: State, node: Option<NodeId>, value: Option<string>): Effect<()>
    requires Valid(st) && (node.Some? ==> Has(st, node.value))
  {
    var v := value.GetOr("");
    if node.None? then Effect(st, Fail(NULL_POINTER))
    else
      var x := node.value;
      var cs := Kids(Get(st, x));
      match FirstText(cs)
      case Some(t) =>
        var i := TextPos(cs);
        Placing.KidInState(st, x, i);
        Effect(SetNode(st, t.id, Text(t.id, Some(v))), Ok(()))
      case None =>
        if |v| > 0 then AppendNew(st, x, Text(st.next, Some(v))) else Effect(st, Ok(()))
  }

  /**
   * setCDATASection(node, value): null is ""; a non-empty value is appended as a new CDATA
   * section, whatever CDATA children there are; an empty one changes nothing, even for a null node.
   */
  function SetCData(st: State, node: Option<NodeId>, value: Option<string>): Effect<()>
    requires Valid(st) && (node.Some? ==> Has(st, node.value))
  {
    var v := value.GetOr("");
    if |v| == 0 then Effect(st, Ok(()))
    else if node.None? then Effect(CreateCData(st, v), Fail(NULL_POINTER))
    else AppendNew(st, node.value, CData(st.next, v))
  }

  /** The effect of appending a new node: where it goes and what it leaves alone. */
  lemma AppendNewSpec(st: State, x: NodeId, t: Node)
    requires Valid(st) && Has(st, x) && t.id == st.next && Ids(t) == [st.next]
    ensures Valid(AppendNew(st, x, t).st) && Has(AppendNew(st, x, t).st, x)
    ensures forall y :: Has(st, y) ==> Has(AppendNew(st, x, t).st, y)
    ensures AppendNew(st, x, t).out.Ok? <==> KidAllowed(Get(st, x), t)
    ensures AppendNew(st, x, t).out.Fail? ==> AppendNew(st, x, t).out.error == HIERARCHY_REQUEST_ERR
    ensures AppendNew(st, x, t).out.Ok? ==>
      Get(AppendNew(st, x, t).st, x) == WithKids(Get(st, x), Kids(Get(st, x)) + [t])
      && forall y :: Has(st, y) && Apart(st, y, x) ==> Get(AppendNew(st, x, t).st, y) == Get(st, y)
  {
    Placing.AppendCreated(st, x, t);
    CreateSpec(st, t);
  }

  /**
   * setTextValue fails only on a null node, or when a non-empty value has to be appended to a
   * node that takes no text child. Otherwise the node's text value reads back as the value set
   * (null read as ""), its first CDATA child is untouched, and nodes apart from it are unchanged.
   */
  lemma SetThenGetText(st: State, node: Option<NodeId>, value: Option<string>)
    requires Valid(st) && (node.Some? ==> Has(st, node.value))
    ensures var r := SetText(st, node, value); Valid(r.st) && forall y :: Has(st, y) ==> Has(r.st, y)
    ensures SetText(st, node, value).out.Fail? <==>
      node.None? || (FirstText(Kids(Get(st, node.value))).None? && |value.GetOr("")| > 0 && !Get(st, node.value).Element?)
    ensures var r := SetText(st, node, value); r.out.Ok? ==>
      var x := node.value;
      TextValue(Get(r.st, x)) == Some(value.GetOr(""))
      && FirstCData(Kids(Get(r.st, x))) == FirstCData(Kids(Get(st, x)))
      && forall y :: Has(st, y) && Apart(st, y, x) ==> Get(r.st, y) == Get(st, y)
  {
    var v := value.GetOr("");
    if node.Some? {
      var x := node.value;
      var cs := Kids(Get(st, x));
      if FirstText(cs).Some? {
        SetFirstText(st, x, v);
      } else if |v| > 0 {
        var t := Text(st.next, Some(v));
        AppendNewSpec(st, x, t);
        FirstAppend(cs, t);
      }
    }
  }

  /** Giving the first text child of x a value: x's text value reads back as it, and nothing apart from x changes. */
  lemma SetFirstText(st: State, x: NodeId, v: string)
    requires Valid(st) && Has(st, x) && FirstText(Kids(Get(st, x))).Some?
    ensures var t := FirstText(Kids(Get(st, x))).value;
      Has(st, t.id) &&
      var r := SetNode(st, t.id, Text(t.id, Some(v)));
      Valid(r) && (forall y :: Has(st, y) ==> Has(r, y))
      && TextValue(Get(r, x)) == Some(v)
      && FirstCData(Kids(Get(r, x))) == FirstCData(Kids(Get(st, x)))
      && forall y :: Has(st, y) && Apart(st, y, x) ==> Get(r, y) == Get(st, y)
  {
    var p := Get(st, x);
    var cs := Kids(p);
    var i := TextPos(cs);
    var t := cs[i];
    var m := Text(t.id, Some(v));
    Placing.KidInState(st, x, i);
    IdsHead(t);
    assert Ids(t) == [t.id] && Ids(m) == [t.id];
    SetNodeSpec(st, t.id, m);
    FindIffIn(st.nodes, x);
    FoundOccurs(st.nodes, x);
    Creation.UniqueInside(st.nodes, p);
    Placing.ReplaceKid(p, i, m);
    FirstTextAt(cs, i, m);
    FirstCDataAt(cs, i, m);
    forall y | Has(st, y) && Apart(st, y, x)
      ensures Get(SetNode(st, t.id, m), y) == Get(st, y)
    {
      FindIffIn(st.nodes, y);
      if t.id in Ids(Get(st, y)) {
        Placing.ApartBelow(st, y, x, t.id);
      }
    }
  }

  /**
   * setCDATASection appends a non-empty value as the last child. The observed CDATA value becomes
   * the value only when the node had no CDATA child; otherwise it stays what it was. The text
   * value is untouched.
   */
  lemma SetCDataKeepsFirst(st: State, node: Option<NodeId>, value: Option<string>)
    requires Valid(st) && (node.Some? ==> Has(st, node.value))
    ensures var r := SetCData(st, node, value); Valid(r.st) && forall y :: Has(st, y) ==> Has(r.st, y)
    ensures SetCData(st, node, value).out.Fail? <==>
      |value.GetOr("")| > 0 && (node.None? || !Get(st, node.value).Element?)
    ensures var r := SetCData(st, node, value); r.out.Ok? && node.Some? ==>
      var x := node.value;
      Has(r.st, x)
      && CDataValue(Get(r.st, x)) == (if FirstCData(Kids(Get(st, x))).Some? || |value.GetOr("")| == 0 then CDataValue(Get(st, x)) else value.GetOr(""))
      && TextValue(Get(r.st, x)) == TextValue(Get(st, x))
  {
    var v := value.GetOr("");
    if |v| > 0 {
      if node.Some? {
        var t := CData(st.next, v);
        AppendNewSpec(st, node.value, t);
        FirstAppend(Kids(Get(st, node.value)), t);
      } else {
        CreateSpec(st, CData(st.next, v));
      }
    }
  }
}
