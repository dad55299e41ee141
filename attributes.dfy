/**
 * The attribute map of an element (a DOM NamedNodeMap of attribute nodes), as a sequence of
 * name/value pairs in index order. Lookup takes the first pair with the name; the DOM keeps
 * names unique, and every update here keeps them unique.
 */
module Attributes {
  import opened Wrappers
  import opened DomTree

  /** The attribute names in index order. */
  function Names(attrs: seq<Attr>): (r: seq<string>)
    ensures |r| == |attrs|
    ensures forall i :: 0 <= i < |attrs| ==> r[i] == attrs[i].name
    decreases attrs
  {
    if attrs == [] then [] else [attrs[0].name] + Names(attrs[1..])
  }

  /** No name occurs twice. */
  predicate NamesUnique(attrs: seq<Attr>)
  {
    forall i, j :: 0 <= i < j < |attrs| ==> attrs[i].name != attrs[j].name
  }

  /** getNamedItem(name).getNodeValue(), or None for a missing item. */
  function GetAttr(attrs: seq<Attr>, name: string): (r: Option<string>)
    ensures r.Some? <==> name in Names(attrs)
    decreases attrs
  {
    if attrs == [] then None
    else if attrs[0].name == name then Some(attrs[0].value)
    else GetAttr(attrs[1..], name)
  }

  /** Inserting or updating an attribute: setNodeValue on the existing item, or setNamedItem of a new one. */
  function SetAttr(attrs: seq<Attr>, name: string, value: string): seq<Attr>
    decreases attrs
  {
    if attrs == [] then [Attr(name, value)]
    else if attrs[0].name == name then [Attr(name, value)] + attrs[1..]
    else [attrs[0]] + SetAttr(attrs[1..], name, value)
  }

  /** removeNamedItem: the map without the item, or None (NOT_FOUND_ERR) when there is none. */
  function RemoveAttr(attrs: seq<Attr>, name: string): Option<seq<Attr>>
    decreases attrs
  {
    if attrs == [] then None
    else if attrs[0].name == name then Some(attrs[1..])
    else match RemoveAttr(attrs[1..], name)
      case None => None
      case Some(rest) => Some([attrs[0]] + rest)
  }

  /** The attribute loop of cloneChildren: a new item set on the copy for each item of the source, in index order. */
  function CopyAttrs(src: seq<Attr>): seq<Attr>
  {
    CopyInto([], src)
  }

  function CopyInto(acc: seq<Attr>, src: seq<Attr>): seq<Attr>
    decreases src
  {
    if src == [] then acc else CopyInto(SetAttr(acc, src[0].name, src[0].value), src[1..])
  }

  // ---------------------------------------------------------------- properties

  /** After setting, the attribute reads back as the value set. */
  lemma {:induction false} GetAfterSet(attrs: seq<Attr>, name: string, value: string)
    ensures GetAttr(SetAttr(attrs, name, value), name) == Some(value)
    decreases attrs
  {
    if attrs != [] && attrs[0].name != name {
      GetAfterSet(attrs[1..], name, value);
    }
  }

  /** Setting one attribute leaves every other attribute as it was. */
  lemma {:induction false} GetAfterSetOther(attrs: seq<Attr>, name: string, value: string, other: string)
    requires other != name
    ensures GetAttr(SetAttr(attrs, name, value), other) == GetAttr(attrs, other)
    decreases attrs
  {
    if attrs != [] && attrs[0].name != name {
      GetAfterSetOther(attrs[1..], name, value, other);
    }
  }

  /** Setting replaces exactly when the name was present, so the names are the old ones, plus the new one at the end. */
  lemma {:induction false} SetAttrNames(attrs: seq<Attr>, name: string, value: string)
    ensures name in Names(attrs) ==> Names(SetAttr(attrs, name, value)) == Names(attrs)
    ensures name !in Names(attrs) ==> SetAttr(attrs, name, value) == attrs + [Attr(name, value)]
    decreases attrs
  {
    if attrs == [] {
      assert SetAttr(attrs, name, value) == attrs + [Attr(name, value)];
    } else {
      var rest := attrs[1..];
      assert attrs == [attrs[0]] + rest;
      NamesCons(attrs[0], rest);
      if attrs[0].name == name {
        NamesCons(Attr(name, value), rest);
      } else {
        SetAttrNames(rest, name, value);
        NamesCons(attrs[0], SetAttr(rest, name, value));
        assert name in Names(attrs) <==> name in Names(rest);
        if name !in Names(rest) {
          assert [attrs[0]] + (rest + [Attr(name, value)]) == attrs + [Attr(name, value)];
        }
      }
    }
  }

  lemma NamesCons(a: Attr, rest: seq<Attr>)
    ensures Names([a] + rest) == [a.name] + Names(rest)
  {
    assert ([a] + rest)[1..] == rest;
  }

  /** Setting keeps the names unique. */
  lemma SetAttrUnique(attrs: seq<Attr>, name: string, value: string)
    requires NamesUnique(attrs)
    ensures NamesUnique(SetAttr(attrs, name, value))
  {
    SetAttrNames(attrs, name, value);
    var r := SetAttr(attrs, name, value);
    if name in Names(attrs) {
      forall i, j | 0 <= i < j < |r|
        ensures r[i].name != r[j].name
      {
        assert Names(r)[i] == Names(attrs)[i] && Names(r)[j] == Names(attrs)[j];
      }
    } else {
      forall i, j | 0 <= i < j < |r|
        ensures r[i].name != r[j].name
      {
        if j == |attrs| {
          assert r[i] == attrs[i];
          assert Names(attrs)[i] == attrs[i].name;
        } else {
          assert r[i] == attrs[i] && r[j] == attrs[j];
        }
      }
    }
  }

  /** Removal fails exactly when the attribute is absent (NOT_FOUND_ERR), and otherwise leaves it unreadable and the rest alone. */
  lemma {:induction false} RemoveAttrSpec(attrs: seq<Attr>, name: string, other: string)
    requires NamesUnique(attrs)
    ensures RemoveAttr(attrs, name).None? <==> GetAttr(attrs, name).None?
    ensures RemoveAttr(attrs, name).Some? ==> GetAttr(RemoveAttr(attrs, name).value, name).None?
    ensures RemoveAttr(attrs, name).Some? && other != name ==> GetAttr(RemoveAttr(attrs, name).value, other) == GetAttr(attrs, other)
    decreases attrs
  {
    if attrs != [] {
      assert NamesUnique(attrs[1..]) by {
        forall i, j | 0 <= i < j < |attrs[1..]|
          ensures attrs[1..][i].name != attrs[1..][j].name
        {
          assert attrs[1..][i] == attrs[i + 1] && attrs[1..][j] == attrs[j + 1];
        }
      }
      if attrs[0].name == name {
        assert name !in Names(attrs[1..]);
      } else {
        RemoveAttrSpec(attrs[1..], name, other);
      }
    }
  }

  /** The copying loop reproduces a map whose names are unique: every attribute, with its value, in its place. */
  lemma CopyAttrsIdentity(src: seq<Attr>)
    requires NamesUnique(src)
    ensures CopyAttrs(src) == src
  {
    CopyIntoAppends([], src);
  }

  lemma {:induction false} CopyIntoAppends(acc: seq<Attr>, src: seq<Attr>)
    requires NamesUnique(acc + src)
    ensures CopyInto(acc, src) == acc + src
    decreases src
  {
    if src != [] {
      var a := src[0];
      assert a.name !in Names(acc) by {
        forall i | 0 <= i < |acc|
          ensures Names(acc)[i] != a.name
        {
          assert (acc + src)[i] == acc[i] && (acc + src)[|acc|] == a;
        }
      }
      SetAttrNames(acc, a.name, a.value);
      assert acc + src == (acc + [a]) + src[1..];
      CopyIntoAppends(acc + [a], src[1..]);
    }
  }
}
