/**
 * The facade's objects. A Document is the DOM document every handle on it shares and changes in
 * place; an XmlDocument is a handle: a document and a current node in it (mDocument, mRootNode).
 * Each mutator changes the shared document as the corresponding function of the facade says,
 * and the loops of the source are written out here against those functions.
 */
module XmlDocuments {
  import opened Wrappers
  import opened Throwables
  import opened DomTree
  import opened Dom
  import opened Outcomes
  import opened Transfer
  import opened Lookup
  import opened Paths
  import Values
  import Creation
  import Placing
  import AttributeOps
  import Indexed
  import Queries
  import Rebuild
  import Handlers

  /** org.w3c.dom.Document: one arena of nodes, changed in place through every handle on it. */
  class Document {
    var state: State

    constructor (st: State)
      ensures state == st
    {
      state := st;
    }
  }

  class XmlDocument {
    var mDocument: Document?
    var mRootNode: Option<NodeId>

    /** A handle on a loaded document whose current node, if any, belongs to it. */
    ghost predicate Loaded()
      reads this, mDocument
    {
      mDocument != null && Valid(mDocument.state) && RootIn(mDocument.state, mRootNode)
    }

    /** XmlDocument(Node, Document), which create(node, doc) calls: a handle and nothing more. */
    constructor (node: Option<NodeId>, doc: Document?)
      ensures mDocument == doc && mRootNode == node
    {
      mDocument := doc;
      mRootNode := node;
    }

    /** create(node, mDocument): a new handle on a node of this handle's document. */
    method Create(node: Option<NodeId>) returns (h: XmlDocument)
      ensures fresh(h) && h.mDocument == mDocument && h.mRootNode == node
    {
      h := new XmlDocument(node, mDocument);
    }

    /**
     * replaceFromReader(reader), with the parser's answer given: a parsed document becomes the
     * handle's document with the document node current; a failure nulls both fields.
     */
    method ReplaceFromReader(parsed: Option<State>) returns (ok: bool)
      requires parsed.Some? ==> Valid(parsed.value)
      modifies this
      ensures ok <==> parsed.Some?
      ensures ok ==> Loaded() && fresh(mDocument) && mDocument.state == parsed.value && mRootNode == Some(parsed.value.nodes[0].id)
      ensures !ok ==> mDocument == null && mRootNode.None?
    {
      if parsed.None? {
        mDocument := null;
        mRootNode := None;
        return false;
      }
      var st := parsed.value;
      mDocument := new Document(st);
      mRootNode := Some(st.nodes[0].id);
      IdsHead(st.nodes[0]);
      assert Find(st.nodes, st.nodes[0].id) == FindIn(st.nodes[0], st.nodes[0].id);
      FindIffIn(st.nodes, st.nodes[0].id);
      return true;
    }

    /** getRootElement(): a handle on the document element, in the same document. */
    method GetRootElement() returns (h: XmlDocument)
      requires Loaded()
      ensures fresh(h) && h.mDocument == mDocument && h.mRootNode == DocElement(mDocument.state)
      ensures h.Loaded()
      ensures h.mRootNode.Some? ==> Get(mDocument.state, h.mRootNode.value) == FirstElement(Kids(mDocument.state.nodes[0])).value
    {
      Handlers.DocElementIn(mDocument.state);
      h := Create(DocElement(mDocument.state));
    }

    /** The node examineChild(child.getDocument(), child.getRootNode()) is handed; document identity decides move or copy. */
    function SourceOf(child: XmlDocument): Source
      reads this, child, child.mDocument
      requires child.Loaded()
    {
      if child.mDocument == mDocument then Local(child.mRootNode)
      else Foreign(match child.mRootNode case None => None case Some(c) => Some(Get(child.mDocument.state, c)))
    }

    /** The parent replaceAllChildren takes the children of: a node of this document or of another. */
    function ParentOf(parent: XmlDocument): Rebuild.Parent
      reads this, parent, parent.mDocument
      requires parent.Loaded()
    {
      if parent.mDocument == mDocument then Rebuild.SameDocument(parent.mRootNode)
      else Rebuild.OtherDocument(match parent.mRootNode case None => None case Some(c) => Some(Get(parent.mDocument.state, c)))
    }

    /** The document whose element addToChild appends: this handle's or the child's. */
    function DonorOf(child: XmlDocument): Handlers.Donor
      reads this, child, child.mDocument
      requires child.Loaded()
    {
      if child.mDocument == mDocument then Handlers.Here else Handlers.Elsewhere(child.mDocument.state)
    }

    // ------------------------------------------------------------ creating

    /** createChild(name, value): createNewChild, with a handle on the new element. */
    method CreateChild(name: string, value: Option<string>) returns (r: Outcome<XmlDocument>)
      requires Loaded()
      modifies mDocument
      ensures Loaded()
      ensures var e := Handlers.CreateChild(old(mDocument.state), mRootNode, name, value);
        mDocument.state == e.st && (r.Fail? <==> e.out.Fail?) && (r.Fail? ==> r.error == e.out.error)
        && (r.Ok? ==> fresh(r.value) && r.value.mDocument == mDocument && r.value.mRootNode == e.out.value && r.value.Loaded())
    {
      var st := mDocument.state;
      Handlers.CreateChildSpec(st, mRootNode, name, value);
      var e := Handlers.CreateChild(st, mRootNode, name, value);
      mDocument.state := e.st;
      if e.out.Fail? {
        return Fail(e.out.error);
      }
      var h := Create(e.out.value);
      return Ok(h);
    }

    /** createChildByName(path): prgCreateChildByName, with a handle on the node it answers with. */
    method CreateChildByName(path: string) returns (r: Outcome<XmlDocument>)
      requires Loaded()
      modifies mDocument
      ensures Loaded()
      ensures var e := Handlers.CreateChildByName(old(mDocument.state), mRootNode, path);
        mDocument.state == e.st && (r.Fail? <==> e.out.Fail?) && (r.Fail? ==> r.error == e.out.error)
        && (r.Ok? ==> fresh(r.value) && r.value.mDocument == mDocument && r.value.mRootNode == e.out.value)
    {
      var found := PrgCreateChildByName(path);
      if found.Fail? {
        return Fail(Rethrow(Handlers.CREATE_CHILD_BY_NAME, found.error));
      }
      var h := Create(found.value);
      return Ok(h);
    }

    /** createChildren(path): createChildByName, the facade's exceptions re-wrapped as (debugString, e). */
    method CreateChildren(path: string) returns (r: Outcome<XmlDocument>)
      requires Loaded()
      modifies mDocument
      ensures Loaded()
      ensures var e := Handlers.CreateChildren(old(mDocument.state), mRootNode, path);
        mDocument.state == e.st && (r.Fail? <==> e.out.Fail?) && (r.Fail? ==> r.error == e.out.error)
        && (r.Ok? ==> fresh(r.value) && r.value.mDocument == mDocument && r.value.mRootNode == e.out.value)
    {
      r := CreateChildByName(path);
      if r.Fail? {
        r := Fail(RewrapChecked(Handlers.CREATE_CHILDREN, r.error));
      }
    }

    // ------------------------------------------------------------ attaching

    /** addChild(child): the child's node moved here from this document, or copied from another. */
    method AddChild(child: XmlDocument) returns (r: Outcome<()>)
      requires Loaded() && child.Loaded()
      modifies mDocument
      ensures Loaded()
      ensures var e := Handlers.AddChild(old(mDocument.state), mRootNode, old(SourceOf(child)));
        mDocument.state == e.st && r == e.out
      ensures child.mDocument != mDocument ==> unchanged(child.mDocument)
    {
      var st := mDocument.state;
      var src := SourceOf(child);
      Handlers.AddChildSpec(st, mRootNode, src);
      var e := Handlers.AddChild(st, mRootNode, src);
      mDocument.state := e.st;
      r := e.out;
    }

    /** appendChildByName(parent, child): the child's node appended to the node the path leads to. */
    method AppendChildByName(parent: string, child: XmlDocument) returns (r: Outcome<()>)
      requires Loaded() && child.Loaded()
      modifies mDocument
      ensures Loaded()
      ensures var e := Handlers.AppendChildByName(old(mDocument.state), mRootNode, parent, old(SourceOf(child)));
        mDocument.state == e.st && r == e.out
      ensures child.mDocument != mDocument ==> unchanged(child.mDocument)
    {
      var st := mDocument.state;
      var src := SourceOf(child);
      Handlers.AppendChildByNameSpec(st, mRootNode, parent, src);
      var e := Handlers.AppendChildByName(st, mRootNode, parent, src);
      mDocument.state := e.st;
      r := e.out;
    }

    /** addToChild(child, parent): appendChildByName with the element of the child's document. */
    method AddToChild(child: XmlDocument, parent: string) returns (r: Outcome<()>)
      requires Loaded() && child.Loaded()
      modifies mDocument
      ensures Loaded()
      ensures var e := Handlers.AddToChild(old(mDocument.state), mRootNode, parent, old(DonorOf(child)));
        mDocument.state == e.st && r == e.out
      ensures child.mDocument != mDocument ==> unchanged(child.mDocument)
    {
      var st := mDocument.state;
      var donor := DonorOf(child);
      Handlers.AddToChildSpec(st, mRootNode, parent, donor);
      var e := Handlers.AddToChild(st, mRootNode, parent, donor);
      mDocument.state := e.st;
      r := e.out;
    }

    /** clone(deep): a handle, in this document, on a copy of the current node attached nowhere. */
    method Clone(deep: bool) returns (r: Outcome<XmlDocument>)
      requires Loaded() && (mRootNode.Some? ==> !Get(mDocument.state, mRootNode.value).DocRoot?)
      modifies mDocument
      ensures Loaded()
      ensures var e := Handlers.Clone(old(mDocument.state), mRootNode, deep);
        mDocument.state == e.st && (r.Fail? <==> e.out.Fail?) && (r.Fail? ==> r.error == e.out.error)
        && (r.Ok? ==> fresh(r.value) && r.value.mDocument == mDocument && r.value.mRootNode == e.out.value && r.value.Loaded())
    {
      var st := mDocument.state;
      Handlers.CloneSpec(st, mRootNode, deep);
      var e := Handlers.Clone(st, mRootNode, deep);
      mDocument.state := e.st;
      if e.out.Fail? {
        return Fail(e.out.error);
      }
      var h := Create(e.out.value);
      return Ok(h);
    }

    // ------------------------------------------------------------ removing and replacing

    /** removeChild(index): the index-th element child detached, and a handle on it. */
    method RemoveChildAt(index: int) returns (r: Outcome<XmlDocument>)
      requires Loaded()
      modifies mDocument
      ensures Loaded()
      ensures var e := Indexed.RemoveAt(old(mDocument.state), mRootNode, index);
        mDocument.state == e.st && (r.Fail? <==> e.out.Fail?) && (r.Fail? ==> r.error == e.out.error)
        && (r.Ok? ==> fresh(r.value) && r.value.mDocument == mDocument && r.value.mRootNode == Some(e.out.value))
    {
      var st := mDocument.state;
      Indexed.RemoveAtSpec(st, mRootNode, index);
      var e := Indexed.RemoveAt(st, mRootNode, index);
      mDocument.state := e.st;
      if e.out.Fail? {
        return Fail(e.out.error);
      }
      var h := Create(Some(e.out.value));
      return Ok(h);
    }

    /** removeChild(name): the node the path leads to detached, and a handle on it. */
    method RemoveChildNamed(path: string) returns (r: Outcome<XmlDocument>)
      requires Loaded()
      modifies mDocument
      ensures Loaded()
      ensures var e := RemoveNamed(old(mDocument.state), mRootNode, path);
        mDocument.state == e.st && (r.Fail? <==> e.out.Fail?) && (r.Fail? ==> r.error == e.out.error)
        && (r.Ok? ==> fresh(r.value) && r.value.mDocument == mDocument && r.value.mRootNode == Some(e.out.value) && r.value.Loaded())
    {
      var st := mDocument.state;
      RemoveNamedSpec(st, mRootNode, path);
      var e := RemoveNamed(st, mRootNode, path);
      mDocument.state := e.st;
      if e.out.Fail? {
        return Fail(e.out.error);
      }
      var h := Create(Some(e.out.value));
      return Ok(h);
    }

    /** replaceChild(index, newChild): the index-th element child replaced, and a handle on the replaced node. */
    method ReplaceChildAt(index: int, newChild: XmlDocument) returns (r: Outcome<XmlDocument>)
      requires Loaded() && newChild.Loaded()
      modifies mDocument
      ensures Loaded()
      ensures var e := Indexed.ReplaceAt(old(mDocument.state), mRootNode, index, old(SourceOf(newChild)));
        mDocument.state == e.st && (r.Fail? <==> e.out.Fail?) && (r.Fail? ==> r.error == e.out.error)
        && (r.Ok? ==> fresh(r.value) && r.value.mDocument == mDocument && r.value.mRootNode == Some(e.out.value))
      ensures newChild.mDocument != mDocument ==> unchanged(newChild.mDocument)
    {
      var st := mDocument.state;
      var src := SourceOf(newChild);
      Indexed.ReplaceAtSpec(st, mRootNode, index, src);
      var e := Indexed.ReplaceAt(st, mRootNode, index, src);
      mDocument.state := e.st;
      if e.out.Fail? {
        return Fail(e.out.error);
      }
      var h := Create(Some(e.out.value));
      return Ok(h);
    }

    /** replaceChild(name, newChild): the node the path leads to replaced, and a handle on it. */
    method ReplaceChildNamed(path: string, newChild: XmlDocument) returns (r: Outcome<XmlDocument>)
      requires Loaded() && newChild.Loaded()
      modifies mDocument
      ensures Loaded()
      ensures var e := Indexed.ReplaceNamed(old(mDocument.state), mRootNode, path, old(SourceOf(newChild)));
        mDocument.state == e.st && (r.Fail? <==> e.out.Fail?) && (r.Fail? ==> r.error == e.out.error)
        && (r.Ok? ==> fresh(r.value) && r.value.mDocument == mDocument && r.value.mRootNode == Some(e.out.value))
      ensures newChild.mDocument != mDocument ==> unchanged(newChild.mDocument)
    {
      var st := mDocument.state;
      var src := SourceOf(newChild);
      Indexed.ReplaceNamedSpec(st, mRootNode, path, src);
      var e := Indexed.ReplaceNamed(st, mRootNode, path, src);
      mDocument.state := e.st;
      if e.out.Fail? {
        return Fail(e.out.error);
      }
      var h := Create(Some(e.out.value));
      return Ok(h);
    }

    // ------------------------------------------------------------ values and attributes

    /** setValue(value): setTextValue on the current node. */
    method SetValue(value: Option<string>) returns (r: Outcome<()>)
      requires Loaded()
      modifies mDocument
      ensures Loaded()
      ensures var e := Values.SetText(old(mDocument.state), mRootNode, value); mDocument.state == e.st && r == e.out
      ensures r.Ok? ==> Handlers.GetValue(mDocument.state, mRootNode) == Ok(Some(value.GetOr("")))
    {
      var st := mDocument.state;
      Values.SetThenGetText(st, mRootNode, value);
      Handlers.SetValueThenGetValue(st, mRootNode, value);
      var e := Values.SetText(st, mRootNode, value);
      mDocument.state := e.st;
      r := e.out;
    }

    /** setCDATASection(value): a CDATA child appended to the current node for a non-empty value. */
    method SetCDataSection(value: Option<string>) returns (r: Outcome<()>)
      requires Loaded()
      modifies mDocument
      ensures Loaded()
      ensures var e := Values.SetCData(old(mDocument.state), mRootNode, value); mDocument.state == e.st && r == e.out
    {
      var st := mDocument.state;
      Values.SetCDataKeepsFirst(st, mRootNode, value);
      var e := Values.SetCData(st, mRootNode, value);
      mDocument.state := e.st;
      r := e.out;
    }

    /** setAttribute(name, value) on the current node. */
    method SetAttribute(name: string, value: string) returns (r: Outcome<()>)
      requires Loaded()
      modifies mDocument
      ensures Loaded()
      ensures var e := AttributeOps.SetAttribute(old(mDocument.state), mRootNode, name, value); mDocument.state == e.st && r == e.out
      ensures r.Ok? ==> AttributeOps.AttributeValue(mDocument.state, mRootNode, name) == Ok(value)
    {
      var st := mDocument.state;
      AttributeOps.AttributeEditsKeep(st, mRootNode, name, value);
      AttributeOps.SetThenGetAttribute(st, mRootNode, name, value, name + "'");
      var e := AttributeOps.SetAttribute(st, mRootNode, name, value);
      mDocument.state := e.st;
      r := e.out;
    }

    /** removeAttribute(name) on the current node. */
    method RemoveAttribute(name: string) returns (r: Outcome<()>)
      requires Loaded()
      modifies mDocument
      ensures Loaded()
      ensures var e := AttributeOps.RemoveAttribute(old(mDocument.state), mRootNode, name); mDocument.state == e.st && r == e.out
    {
      var st := mDocument.state;
      AttributeOps.AttributeEditsKeep(st, mRootNode, name, "");
      var e := AttributeOps.RemoveAttribute(st, mRootNode, name);
      mDocument.state := e.st;
      r := e.out;
    }

    /** removeChildAttribute(path, name): removeAttribute on the node the path leads to. */
    method RemoveChildAttribute(path: string, name: string) returns (r: Outcome<()>)
      requires Loaded()
      modifies mDocument
      ensures Loaded()
      ensures var e := AttributeOps.RemoveChildAttribute(old(mDocument.state), mRootNode, path, name); mDocument.state == e.st && r == e.out
    {
      var st := mDocument.state;
      AttributeOps.RemoveChildAttributeKeeps(st, mRootNode, path, name);
      var e := AttributeOps.RemoveChildAttribute(st, mRootNode, path, name);
      mDocument.state := e.st;
      r := e.out;
    }

    // ------------------------------------------------------------ the loops of the facade

    /**
     * prgCreateChildByName(path): the lookup of the whole path; failing that, one segment at a
     * time from the current node while a child of that name exists, then createElement and
     * appendChild for the first missing segment and each one after it.
     */
    method PrgCreateChildByName(path: string) returns (r: Outcome<Option<NodeId>>)
      requires Loaded()
      modifies mDocument
      ensures Loaded()
      ensures var e := Handlers.PrgCreateChildByName(old(mDocument.state), mRootNode, path);
        mDocument.state == e.st && r == e.out
    {
      if mRootNode.None? {
        r := Handlers.PrgCreateChildByName(mDocument.state, mRootNode, path).out;
        return;
      }
      r := CreateBelow(path);
    }

    /** prgCreateChildByName(path) from a current node: the lookup loop, then the creating loop. */
    method CreateBelow(path: string) returns (r: Outcome<Option<NodeId>>)
      requires Loaded() && mRootNode.Some?
      modifies mDocument
      ensures Loaded()
      ensures var e := Handlers.PrgCreateChildByName(old(mDocument.state), mRootNode, path);
        mDocument.state == e.st && r == e.out
    {
      var st := mDocument.state;
      var x := mRootNode.value;
      Handlers.CreateByNameKeeps(st, x, path);
      var tags := Split(path);
      assert tags[0..] == tags;
      var found := ChildNodeByTag(Get(st, x), tags, 0);
      if found.Some? {
        Creation.CreateExisting(st, x, tags);
        return Ok(Some(found.value.id));
      }
      var node, i := FirstMiss(st, x, tags);
      if i == |tags| {
        WalkComplete(Get(st, x), tags);
        assert false;
      }
      CreateAtStop(st, x, path, node, i);
      var made := AppendChain(st, node, tags, i);
      if made.Fail? {
        return Fail(GeneralError(Handlers.PRG_CREATE, made.error));
      }
      return made;
    }

    /**
     * The creating half of prgCreateChildByName: createElement for segment j, appended to d,
     * and then, under each new element, one for every later segment.
     */
    method AppendChain(st: State, d: Node, tags: seq<string>, j: nat) returns (r: Outcome<Option<NodeId>>)
      requires mDocument != null && mDocument.state == st
      requires Valid(st) && Has(st, d.id) && Get(st, d.id) == d && j < |tags|
      modifies mDocument
      ensures mDocument.state == Creation.CreateAt(st, d, tags, j).st && r == Creation.CreateAt(st, d, tags, j).result
    {
      var s1 := CreateElement(st, tags[j]);
      ghost var a := Creation.CreateAt(st, d, tags, j);
      FirstLink(st, d, tags, j, s1, a);
      var appended := AppendChild(s1, d.id, st.next);
      if appended.Fail? {
        mDocument.state := s1;
        return Fail(appended.error);
      }
      mDocument.state := appended.value;
      var last := ExtendChain(st, d, tags, j);
      return Ok(Some(last));
    }

    /** The inner while of prgCreateChildByName: one element per remaining segment, each under the last. */
    method ExtendChain(st: State, d: Node, tags: seq<string>, j: nat) returns (last: NodeId)
      requires Valid(st) && Has(st, d.id) && Get(st, d.id) == d && HasChildList(d) && j < |tags|
      requires mDocument != null && mDocument.state == Creation.Graft(st, d, Creation.Chain(tags[j..j + 1], st.next), 1)
      modifies mDocument
      ensures mDocument.state == Creation.Graft(st, d, Creation.Chain(tags[j..], st.next), |tags| - j)
      ensures last == st.next + |tags| - j - 1
    {
      last := st.next;
      var k := j + 1;
      while k < |tags|
        invariant j + 1 <= k <= |tags|
        invariant mDocument.state == Creation.Graft(st, d, Creation.Chain(tags[j..k], st.next), k - j)
        invariant last == st.next + (k - j) - 1
      {
        last := ExtendOnce(st, d, tags, j, k, last);
        k := k + 1;
      }
      assert tags[j..|tags|] == tags[j..];
    }

    /** One pass of that while: createElement for segment k, appended to the element made last. */
    method ExtendOnce(st: State, d: Node, tags: seq<string>, j: nat, k: nat, last: NodeId) returns (made: NodeId)
      requires Valid(st) && Has(st, d.id) && Get(st, d.id) == d && HasChildList(d) && j < k < |tags|
      requires mDocument != null && mDocument.state == Creation.Graft(st, d, Creation.Chain(tags[j..k], st.next), k - j)
      requires last == st.next + (k - j) - 1
      modifies mDocument
      ensures mDocument.state == Creation.Graft(st, d, Creation.Chain(tags[j..k + 1], st.next), k + 1 - j)
      ensures made == st.next + (k - j)
    {
      var cur := mDocument.state;
      var s2 := CreateElement(cur, tags[k]);
      ghost var grown := Creation.Graft(st, d, Creation.Chain(tags[j..k + 1], st.next), k + 1 - j);
      assert cur.next == st.next + (k - j) && Valid(s2) && Has(s2, last) && Has(s2, cur.next)
        && AppendChild(s2, last, cur.next).Ok? && AppendChild(s2, last, cur.next).value == grown by {
        NextLink(st, d, tags, j, k, cur, last);
      }
      mDocument.state := s2;
      var next := AppendChild(s2, last, cur.next);
      mDocument.state := next.value;
      made := cur.next;
    }

    /**
     * replaceAllChildren(parent): remove every child of the current node, put its text children
     * back, then append each child of the parent's node, moved when the parent is in this
     * document and copied when it is not.
     */
    method ReplaceAllChildren(parent: XmlDocument) returns (r: Outcome<()>)
      requires Loaded() && parent.Loaded()
      modifies mDocument
      ensures Loaded()
      ensures var e := Rebuild.ReplaceAll(old(mDocument.state), mRootNode, old(ParentOf(parent)));
        mDocument.state == e.st && r == e.out
      ensures parent.mDocument != mDocument ==> unchanged(parent.mDocument)
    {
      var st := mDocument.state;
      var pa := ParentOf(parent);
      Rebuild.ReplaceAllKeeps(st, mRootNode, pa);
      if mRootNode.None? {
        return Fail(GeneralError(Rebuild.REPLACE_ALL, NULL_POINTER));
      }
      var x := mRootNode.value;
      Rebuild.StripTexts(st, x);
      Rebuild.StripBasics(st, x, []);
      var texts := StripChildren(x);
      var s1 := mDocument.state;
      Rebuild.RestoreValid(s1, x, texts);
      var restored := RestoreTexts(x, texts);
      if restored.Fail? {
        return Fail(Rethrow(Rebuild.REPLACE_ALL, restored.error));
      }
      var appended: Outcome<()>;
      if pa.SameDocument? && pa.root.Some? {
        appended := MoveChildren(x, pa.root.value);
      } else if pa.OtherDocument? && pa.tree.Some? {
        appended := CopyChildren(x, Kids(pa.tree.value));
      } else {
        return Ok(());
      }
      if appended.Fail? {
        return Fail(Rethrow(Rebuild.REPLACE_ALL, appended.error));
      }
      return Ok(());
    }

    /** The removal loop of replaceAllChildren: removeChild(item(0)) until x has no child, buffering the texts. */
    method StripChildren(x: NodeId) returns (texts: seq<NodeId>)
      requires mDocument != null && Valid(mDocument.state) && Has(mDocument.state, x)
      modifies mDocument
      ensures mDocument.state == Rebuild.Strip(old(mDocument.state), x, []).0
      ensures texts == Rebuild.Strip(old(mDocument.state), x, []).1
    {
      ghost var st := mDocument.state;
      texts := [];
      while Kids(Get(mDocument.state, x)) != []
        invariant Valid(mDocument.state) && Has(mDocument.state, x)
        invariant Rebuild.Strip(mDocument.state, x, texts).0 == Rebuild.Strip(st, x, []).0
        invariant Rebuild.Strip(mDocument.state, x, texts).1 == Rebuild.Strip(st, x, []).1
        decreases |Kids(Get(mDocument.state, x))|
      {
        var cur := mDocument.state;
        var cs := Kids(Get(cur, x));
        Rebuild.StripFirst(cur, x);
        var child := cs[0];
        var removed := Detach(cur, child.id);
        mDocument.state := removed.value;
        if child.Text? {
          texts := texts + [child.id];
        }
        assert Kids(Get(mDocument.state, x)) == cs[1..];
      }
    }

    /** The second loop of replaceAllChildren: each buffered text appended to x again, in order. */
    method RestoreTexts(x: NodeId, ts: seq<NodeId>) returns (r: Outcome<()>)
      requires mDocument != null && Valid(mDocument.state) && Has(mDocument.state, x)
      requires forall i :: 0 <= i < |ts| ==> Has(mDocument.state, ts[i])
      modifies mDocument
      ensures mDocument.state == Rebuild.Restore(old(mDocument.state), x, ts).st
      ensures r == Rebuild.Restore(old(mDocument.state), x, ts).out
    {
      ghost var st := mDocument.state;
      var i := 0;
      assert ts[0..] == ts;
      while i < |ts|
        invariant 0 <= i <= |ts|
        invariant Valid(mDocument.state) && Has(mDocument.state, x)
        invariant forall y :: Has(mDocument.state, y) <==> Has(st, y)
        invariant Rebuild.Restore(mDocument.state, x, ts[i..]).st == Rebuild.Restore(st, x, ts).st
        invariant Rebuild.Restore(mDocument.state, x, ts[i..]).out == Rebuild.Restore(st, x, ts).out
      {
        var cur := mDocument.state;
        assert ts[i..][0] == ts[i] && ts[i..][1..] == ts[i + 1..];
        Rebuild.RestoreTurn(cur, x, ts[i..]);
        var a := AppendChild(cur, x, ts[i]);
        if a.Fail? {
          return Fail(a.error);
        }
        mDocument.state := a.value;
        i := i + 1;
      }
      return Ok(());
    }

    /**
     * The third loop of replaceAllChildren for a parent in this document: appendChild of
     * children.item(cnt++) while cnt is below the live list's length, for at most as many turns
     * as the list had children at the start.
     */
    method MoveChildren(x: NodeId, p: NodeId) returns (r: Outcome<()>)
      requires mDocument != null && Valid(mDocument.state) && Has(mDocument.state, x) && Has(mDocument.state, p)
      modifies mDocument
      ensures mDocument.state == Rebuild.Moves(old(mDocument.state), x, p, 0, |Kids(Get(old(mDocument.state), p))|).st
      ensures r == Rebuild.Moves(old(mDocument.state), x, p, 0, |Kids(Get(old(mDocument.state), p))|).out
    {
      ghost var st := mDocument.state;
      var bound := |Kids(Get(mDocument.state, p))|;
      var cnt := 0;
      ghost var fuel := bound;
      while cnt < |Kids(Get(mDocument.state, p))| && cnt < bound
        invariant cnt <= bound && fuel == bound - cnt
        invariant Valid(mDocument.state) && Has(mDocument.state, x) && Has(mDocument.state, p)
        invariant Rebuild.Moves(mDocument.state, x, p, cnt, fuel).st == Rebuild.Moves(st, x, p, 0, bound).st
        invariant Rebuild.Moves(mDocument.state, x, p, cnt, fuel).out == Rebuild.Moves(st, x, p, 0, bound).out
        decreases fuel
      {
        var cur := mDocument.state;
        var child := Kids(Get(cur, p))[cnt];
        Rebuild.MovesTurn(cur, x, p, cnt, fuel);
        cnt := cnt + 1;
        fuel := fuel - 1;
        var a := AppendChild(cur, x, child.id);
        if a.Fail? {
          return Fail(a.error);
        }
        mDocument.state := a.value;
      }
      return Ok(());
    }

    /**
     * The third loop of replaceAllChildren for a parent in another document: examineChild copies
     * each child into this document, and each copy that is not null is appended.
     */
    method CopyChildren(x: NodeId, cs: seq<Node>) returns (r: Outcome<()>)
      requires mDocument != null && Valid(mDocument.state) && Has(mDocument.state, x)
      modifies mDocument
      ensures mDocument.state == Rebuild.Copies(old(mDocument.state), x, cs).st
      ensures r == Rebuild.Copies(old(mDocument.state), x, cs).out
    {
      ghost var st := mDocument.state;
      var cnt := 0;
      assert cs[0..] == cs;
      while cnt < |cs|
        invariant cnt <= |cs|
        invariant Valid(mDocument.state) && Has(mDocument.state, x)
        invariant Rebuild.Copies(mDocument.state, x, cs[cnt..]).st == Rebuild.Copies(st, x, cs).st
        invariant Rebuild.Copies(mDocument.state, x, cs[cnt..]).out == Rebuild.Copies(st, x, cs).out
      {
        var cur := mDocument.state;
        var child := cs[cnt];
        assert cs[cnt..][0] == child && cs[cnt..][1..] == cs[cnt + 1..];
        ExamineSpec(cur, Foreign(Some(child)));
        var e := Examine(cur, Foreign(Some(child)));
        mDocument.state := e.st;
        cnt := cnt + 1;
        if e.out.Fail? {
          return Fail(e.out.error);
        }
        if e.out.value.Some? {
          var c := e.out.value.value;
          var a := AppendChild(e.st, x, c);
          if a.Fail? {
            return Fail(a.error);
          }
          MoveSpec(e.st, x, c);
          mDocument.state := a.value;
        }
      }
      return Ok(());
    }

    /**
     * removeChildrenWithXpath(query), the evaluator's answer given: each match detached from its
     * parent in turn and a handle made on it; null when nothing matches.
     */
    method RemoveChildrenWithXpath(answer: Outcome<seq<NodeId>>) returns (r: Outcome<Option<seq<XmlDocument>>>)
      requires Loaded() && Queries.AnswerIn(mDocument.state, answer)
      modifies mDocument
      ensures Loaded()
      ensures var e := Queries.RemoveMatches(old(mDocument.state), mRootNode, answer);
        mDocument.state == e.st && (r.Fail? <==> e.out.Fail?) && (r.Fail? ==> r.error == e.out.error)
        && (r.Ok? ==> (r.value.None? <==> e.out.value.None?))
        && (r.Ok? && r.value.Some? ==>
              |r.value.value| == |e.out.value.value|
              && forall i :: 0 <= i < |r.value.value| ==>
                   fresh(r.value.value[i]) && r.value.value[i].mDocument == mDocument
                   && r.value.value[i].mRootNode == Some(e.out.value.value[i]))
    {
      var st := mDocument.state;
      Queries.RemoveMatchesSpec(st, mRootNode, answer);
      var selected := Queries.SelectNodes(mRootNode, answer);
      if selected.Fail? {
        return Fail(GeneralError(Queries.REMOVE_MATCHES, selected.error));
      }
      var hits := selected.value;
      if hits == [] {
        return Ok(None);
      }
      var detached := DetachMatches(hits);
      if detached.Fail? {
        return Fail(GeneralError(Queries.REMOVE_MATCHES, detached.error));
      }
      var removed := HandlesOn(hits);
      return Ok(Some(removed));
    }

    /**
     * The loop of removeChildrenWithXpath: getParentNode().removeChild(match) for each match in
     * turn. (The handles it makes on the way are made by HandlesOn; they change no document.)
     */
    method DetachMatches(hits: seq<NodeId>) returns (r: Outcome<()>)
      requires mDocument != null && Valid(mDocument.state) && forall i :: 0 <= i < |hits| ==> Has(mDocument.state, hits[i])
      modifies mDocument
      ensures mDocument.state == Queries.DetachAll(old(mDocument.state), hits).st
      ensures r == Queries.DetachAll(old(mDocument.state), hits).out
    {
      ghost var st := mDocument.state;
      var i := 0;
      assert hits[0..] == hits;
      while i < |hits|
        invariant 0 <= i <= |hits|
        invariant Valid(mDocument.state) && forall y :: Has(mDocument.state, y) <==> Has(st, y)
        invariant Queries.DetachAll(mDocument.state, hits[i..]).st == Queries.DetachAll(st, hits).st
        invariant Queries.DetachAll(mDocument.state, hits[i..]).out == Queries.DetachAll(st, hits).out
      {
        var cur := mDocument.state;
        assert hits[i..][0] == hits[i] && hits[i..][1..] == hits[i + 1..];
        Queries.DetachAllTurn(cur, hits[i..]);
        if IsTop(cur.nodes, hits[i]) {
          return Fail(NULL_POINTER);
        }
        mDocument.state := Detach(cur, hits[i]).value;
        i := i + 1;
      }
      return Ok(());
    }

    /** create(match, mDocument) for each match: a new handle on each, in order. */
    method HandlesOn(ids: seq<NodeId>) returns (hs: seq<XmlDocument>)
      ensures |hs| == |ids|
      ensures forall i :: 0 <= i < |ids| ==> fresh(hs[i]) && hs[i].mDocument == mDocument && hs[i].mRootNode == Some(ids[i])
    {
      hs := [];
      var i := 0;
      while i < |ids|
        invariant 0 <= i <= |ids| && |hs| == i
        invariant forall j :: 0 <= j < i ==> fresh(hs[j]) && hs[j].mDocument == mDocument && hs[j].mRootNode == Some(ids[j])
      {
        var h := Create(Some(ids[i]));
        hs := hs + [h];
        i := i + 1;
      }
    }

    /** removeChildWithXpath(query): the first handle removeChildrenWithXpath answers; its null answer is a NullPointerException. */
    method RemoveChildWithXpath(answer: Outcome<seq<NodeId>>) returns (r: Outcome<XmlDocument>)
      requires Loaded() && Queries.AnswerIn(mDocument.state, answer)
      modifies mDocument
      ensures Loaded()
      ensures var e := Queries.RemoveMatch(old(mDocument.state), mRootNode, answer);
        mDocument.state == e.st && (r.Fail? <==> e.out.Fail?) && (r.Fail? ==> r.error == e.out.error)
        && (r.Ok? ==> fresh(r.value) && r.value.mDocument == mDocument && r.value.mRootNode == Some(e.out.value))
    {
      var removed := RemoveChildrenWithXpath(answer);
      if removed.Fail? {
        return Fail(GeneralError(Queries.REMOVE_MATCH, removed.error));
      }
      if removed.value.None? {
        return Fail(GeneralError(Queries.REMOVE_MATCH, NULL_POINTER));
      }
      return Ok(removed.value.value[0]);
    }
  }

  /**
   * The lookup loop of prgCreateChildByName: from node x, prvGetChildByName(token, rootNode) for
   * one segment after another, up to the first segment no child is named after.
   */
  method FirstMiss(st: State, x: NodeId, tags: seq<string>) returns (node: Node, i: nat)
    requires Valid(st) && Has(st, x)
    ensures i <= |tags| && Has(st, node.id) && Get(st, node.id) == node
    ensures Walk(Get(st, x), tags).0 == node && Walk(Get(st, x), tags).1 == i
  {
    var start := Get(st, x);
    node := start;
    i := 0;
    assert tags[0..] == tags;
    while i < |tags|
      invariant i <= |tags|
      invariant Has(st, node.id) && Get(st, node.id) == node
      invariant Walk(start, tags).0 == Walk(node, tags[i..]).0 && Walk(start, tags).1 == i + Walk(node, tags[i..]).1
    {
      assert [tags[i]][0..] == [tags[i]];
      var next := ChildNodeByTag(node, [tags[i]], 0);
      ResolveOne(node, tags[i]);
      if next.None? {
        assert tags[i..][0] == tags[i];
        WalkHalts(node, tags[i..]);
        return;
      }
      var k := FirstNamed(Kids(node), tags[i]).value;
      assert tags[i..][0] == tags[i] && tags[i..][1..] == tags[i + 1..];
      WalkOn(node, tags[i..], k);
      Placing.KidInState(st, node.id, k);
      node := Kids(node)[k];
      i := i + 1;
    }
    assert tags[i..] == [];
  }

  // ---------------------------------------------------------------- the steps of the creating loops

  /** Where the lookup loop stops is where the auto-creation grafts its chain. */
  lemma CreateAtStop(st: State, x: NodeId, path: string, d: Node, j: nat)
    requires Valid(st) && Has(st, x) && Resolve(Get(st, x), Split(path)).None?
    requires Walk(Get(st, x), Split(path)).0 == d && Walk(Get(st, x), Split(path)).1 == j && j < |Split(path)|
    ensures var e := Handlers.PrgCreateChildByName(st, Some(x), path); var a := Creation.CreateAt(st, d, Split(path), j);
      e.st == a.st && (a.result.Ok? ==> e.out == a.result)
      && (a.result.Fail? ==> e.out == Fail(GeneralError(Handlers.PRG_CREATE, a.result.error)))
  {
    var c := Creation.CreateByName(st, x, path);
    var a := Creation.CreateAt(st, d, Split(path), j);
    assert c.st == a.st && c.result == a.result by {
      Creation.CreateAtWalkStop(st, x, Split(path), d, j);
    }
  }

  /** The first appendChild of the creating half: it succeeds exactly when d takes an element, with a chain of one. */
  lemma FirstLink(st: State, d: Node, tags: seq<string>, j: nat, s1: State, c: Creation.Created)
    requires Valid(st) && Has(st, d.id) && Get(st, d.id) == d && j < |tags|
    requires s1 == CreateElement(st, tags[j]) && c == Creation.CreateAt(st, d, tags, j)
    ensures Valid(s1) && Has(s1, d.id) && Has(s1, st.next)
    ensures var a := AppendChild(s1, d.id, st.next);
      (a.Ok? <==> KidAllowed(d, Element(st.next, tags[j], [], [])))
      && (a.Ok? ==> HasChildList(d) && a.value == Creation.Graft(st, d, Creation.Chain(tags[j..j + 1], st.next), 1)
                    && c.st == Creation.Graft(st, d, Creation.Chain(tags[j..], st.next), |tags| - j)
                    && c.result.Ok? && c.result.value == Some(st.next + |tags| - j - 1))
      && (a.Fail? ==> a.error == HIERARCHY_REQUEST_ERR && c.st == s1 && c.result.Fail? && c.result.error == a.error)
  {
    Creation.CreateAtSpec(st, d, tags, j);
    var e := Element(st.next, tags[j], [], []);
    CreateSpec(st, e);
    assert Ids(e) == [st.next];
    assert tags[j..j + 1] == [tags[j]];
    if KidAllowed(d, e) {
      Creation.ChainStart(st, d, tags[j]);
    }
  }

  /** Each later appendChild of the creating half succeeds, and the chain grows by segment k. */
  lemma NextLink(st: State, d: Node, tags: seq<string>, j: nat, k: nat, cur: State, last: NodeId)
    requires Valid(st) && Has(st, d.id) && Get(st, d.id) == d && HasChildList(d) && j < k < |tags|
    requires cur == Creation.Graft(st, d, Creation.Chain(tags[j..k], st.next), k - j)
    requires last == st.next + (k - j) - 1
    ensures cur.next == st.next + (k - j)
    ensures var s2 := CreateElement(cur, tags[k]);
      Valid(s2) && Has(s2, last) && Has(s2, cur.next)
      && AppendChild(s2, last, cur.next).Ok?
      && AppendChild(s2, last, cur.next).value
         == Creation.Graft(st, d, Creation.Chain(tags[j..k + 1], st.next), k + 1 - j)
  {
    var ts := tags[j..k];
    assert |ts| == k - j && tags[j..k + 1] == ts + [tags[k]];
    Creation.ChainStep(st, d, ts, tags[k], cur, last);
  }

}
