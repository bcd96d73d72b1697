/**
 * `dictify`: the conversion of a parsed `package.xml` element tree into
 * nested dictionaries, and the extraction of authors, maintainers,
 * description and licence from the `package` dictionary.
 */
module XmlDict {
  import opened Wrappers
  import opened Strings

  /** A parsed XML element: tag, attributes, text (`None` or a string) and child elements. */
  datatype Element = Element(tag: string, attrib: map<string, string>, text: Option<string>, children: seq<Element>)

  /** The values `dictify` builds: strings, lists and dictionaries. */
  datatype Value = Str(s: string) | List(items: seq<Value>) | Dict(entries: map<string, Value>)

  const TextKey: string := "_text"

  /** Python's truth test `if r.text:`: present and non-empty. */
  predicate HasText(e: Element) {
    e.text.Some? && e.text.value != ""
  }

  function Tags(cs: seq<Element>): set<string> {
    set c | c in cs :: c.tag
  }

  /**
   * `dictify` completes on `e`: no child's tag names an attribute, or
   * `_text` while the text is stored, because appending to the string held
   * under that key raises.
   */
  predicate Dictifiable(e: Element)
    decreases e
  {
    (forall c :: c in e.children ==> c.tag !in e.attrib && !(HasText(e) && c.tag == TextKey))
    && (forall c :: c in e.children ==> Dictifiable(c))
  }

  /** The dictionary before any child is added: the attributes and the text. */
  function Base(e: Element): map<string, Value> {
    var attrs := map k | k in e.attrib :: Str(e.attrib[k]);
    if HasText(e) then attrs[TextKey := Str(e.text.value)] else attrs
  }

  /** The converted children of `cs` whose tag is `t`, in document order. */
  function Group(cs: seq<Element>, t: string): seq<Value>
    decreases cs, 0
  {
    if cs == [] then [] else (if cs[0].tag == t then [Dictified(cs[0])] else []) + Group(cs[1..], t)
  }

  /** `base` with one list per child tag of `cs`. */
  function Grouped(base: map<string, Value>, cs: seq<Element>): map<string, Value>
    decreases cs, 1
  {
    map k | k in base.Keys + Tags(cs) :: if k in Tags(cs) then List(Group(cs, k)) else base[k]
  }

  /** What `dictify(e, False)` returns. */
  function Dictified(e: Element): Value
    decreases e, 2
  {
    Dict(Grouped(Base(e), e.children))
  }

  /** Adding one more child extends only that child's group. */
  lemma {:induction false} GroupSnoc(cs: seq<Element>, x: Element, t: string)
    ensures Group(cs + [x], t) == Group(cs, t) + (if x.tag == t then [Dictified(x)] else [])
  {
    if cs != [] {
      GroupSnoc(cs[1..], x, t);
      assert (cs + [x])[1..] == cs[1..] + [x];
    } else {
      assert [x][1..] == [];
    }
  }

  lemma TagsSnoc(cs: seq<Element>, x: Element)
    ensures Tags(cs + [x]) == Tags(cs) + {x.tag}
  {
    assert forall c :: c in cs + [x] <==> c in cs || c == x;
  }

  /** The value under one key after adding a child. */
  lemma GroupedSnocAt(base: map<string, Value>, cs: seq<Element>, x: Element, k: string)
    requires x.tag in Tags(cs) || x.tag !in base
    requires k in base.Keys + Tags(cs + [x])
    ensures Grouped(base, cs + [x])[k] ==
      (if k == x.tag then List((if x.tag in Tags(cs) then Group(cs, x.tag) else []) + [Dictified(x)])
       else Grouped(base, cs)[k])
  {
    TagsSnoc(cs, x);
    if k in Tags(cs + [x]) {
      GroupSnoc(cs, x, k);
      if k == x.tag && x.tag !in Tags(cs) {
        GroupEmpty(cs, x.tag);
      }
    }
  }

  /** Adding a child whose tag is new or already grouped extends that group only. */
  lemma GroupedSnoc(base: map<string, Value>, cs: seq<Element>, x: Element)
    requires x.tag in Tags(cs) || x.tag !in base
    ensures Grouped(base, cs + [x]) ==
      Grouped(base, cs)[x.tag := List((if x.tag in Tags(cs) then Group(cs, x.tag) else []) + [Dictified(x)])]
  {
    var l := Grouped(base, cs + [x]);
    var r := Grouped(base, cs)[x.tag := List((if x.tag in Tags(cs) then Group(cs, x.tag) else []) + [Dictified(x)])];
    TagsSnoc(cs, x);
    assert l.Keys == r.Keys;
    forall k | k in l.Keys
      ensures l[k] == r[k]
    {
      GroupedSnocAt(base, cs, x, k);
    }
  }

  lemma {:induction false} GroupEmpty(cs: seq<Element>, t: string)
    requires t !in Tags(cs)
    ensures Group(cs, t) == []
  {
    if cs != [] {
      assert cs[0] in cs;
      assert Tags(cs[1..]) <= Tags(cs) by {
        forall c | c in cs[1..] ensures c in cs { }
      }
      GroupEmpty(cs[1..], t);
    }
  }

  /** One turn of the loop over the children: the next child joins its tag's list, started empty if new. */
  lemma DictifyStep(e: Element, i: nat)
    requires Dictifiable(e) && i < |e.children|
    ensures var d, x := Grouped(Base(e), e.children[..i]), e.children[i];
      && (x.tag in d ==> d[x.tag].List?)
      && Grouped(Base(e), e.children[..i + 1]) ==
         d[x.tag := List((if x.tag in d then d[x.tag].items else []) + [Dictified(x)])]
  {
    var x := e.children[i];
    assert e.children[..i + 1] == e.children[..i] + [x];
    assert x in e.children;
    GroupedSnoc(Base(e), e.children[..i], x);
  }

  /** `dictify(r, root)`: with `root`, the result is wrapped as `{tag: ...}`. */
  method Dictify(e: Element, root: bool) returns (v: Value)
    requires Dictifiable(e)
    ensures root ==> v == Dict(map[e.tag := Dictified(e)])
    ensures !root ==> v == Dictified(e)
    decreases e, root
  {
    if root {
      var inner := Dictify(e, false);
      return Dict(map[e.tag := inner]);
    }
    var d := Base(e);
    var i := 0;
    while i < |e.children|
      invariant 0 <= i <= |e.children|
      invariant d == Grouped(Base(e), e.children[..i])
    {
      var x := e.children[i];
      var child := Dictify(x, false);
      d := AppendChild(d, x, child, e, i);
      i := i + 1;
    }
    assert e.children[..i] == e.children;
    v := Dict(d);
  }

  /** `if x.tag not in d: d[x.tag] = []`, then `d[x.tag].append(child)`. */
  method AppendChild(d: map<string, Value>, x: Element, child: Value, ghost e: Element, ghost i: nat)
    returns (d': map<string, Value>)
    requires Dictifiable(e) && i < |e.children| && x == e.children[i]
    requires d == Grouped(Base(e), e.children[..i]) && child == Dictified(x)
    ensures d' == Grouped(Base(e), e.children[..i + 1])
  {
    DictifyStep(e, i);
    var group: seq<Value> := [];
    if x.tag in d {
      group := d[x.tag].items;
    }
    d' := d[x.tag := List(group + [child])];
  }

  /** The children of `cs` tagged `t`, in document order. */
  function Tagged(cs: seq<Element>, t: string): (r: seq<Element>)
    ensures forall c :: c in r <==> c in cs && c.tag == t
  {
    if cs == [] then [] else (if cs[0].tag == t then [cs[0]] else []) + Tagged(cs[1..], t)
  }

  /** Position `i` of a sequence with one element in front is position `i - 1` of the rest. */
  lemma ConsAt<T>(x: T, s: seq<T>, i: int)
    requires 1 <= i <= |s|
    ensures ([x] + s)[i] == s[i - 1]
  {
  }

  /** A group is the conversion of the children with that tag, one by one, in document order. */
  lemma {:induction false} GroupIsTagged(cs: seq<Element>, t: string)
    ensures |Group(cs, t)| == |Tagged(cs, t)|
    ensures forall i :: 0 <= i < |Group(cs, t)| ==> Group(cs, t)[i] == Dictified(Tagged(cs, t)[i])
  {
    if cs != [] {
      GroupIsTagged(cs[1..], t);
      var g, r := Group(cs[1..], t), Tagged(cs[1..], t);
      var gs, rs := Group(cs, t), Tagged(cs, t);
      if cs[0].tag == t {
        var d := [Dictified(cs[0])];
        assert gs == d + g;
        assert rs == [cs[0]] + r;
        forall i | 1 <= i < |gs|
          ensures gs[i] == Dictified(rs[i])
        {
          ConsAt(d[0], g, i);
          ConsAt(cs[0], r, i);
        }
      } else {
        assert gs == [] + g;
        assert rs == [] + r;
      }
    }
  }

  /** Each child tag of `e` holds the list of that tag's converted children. */
  lemma ChildrenGrouped(e: Element, t: string)
    requires t in Tags(e.children)
    ensures t in Dictified(e).entries
    ensures Dictified(e).entries[t] == List(Group(e.children, t))
    ensures |Group(e.children, t)| == |Tagged(e.children, t)| > 0
  {
    GroupIsTagged(e.children, t);
    var c :| c in e.children && c.tag == t;
    assert c in Tagged(e.children, t);
  }

  /** The key `_text` holds the text exactly when the text is non-empty (barring a same-named attribute or child). */
  lemma TextStored(e: Element)
    requires Dictifiable(e)
    ensures TextKey in Dictified(e).entries <==> HasText(e) || TextKey in e.attrib || TextKey in Tags(e.children)
    ensures HasText(e) ==> Dictified(e).entries[TextKey] == Str(e.text.value)
  {
    if HasText(e) {
      assert TextKey !in Tags(e.children);
    }
  }

  /** An attribute that no child and no text overrides is stored as a string. */
  lemma AttributeKept(e: Element, k: string)
    requires k in e.attrib && k !in Tags(e.children) && !(k == TextKey && HasText(e))
    ensures k in Dictified(e).entries && Dictified(e).entries[k] == Str(e.attrib[k])
  {
  }

  /** The dictionary holds the attributes, `_text` when there is text, and one key per child tag, nothing else. */
  lemma DictifiedKeys(e: Element)
    ensures Dictified(e).entries.Keys ==
      e.attrib.Keys + Tags(e.children) + (if HasText(e) then {TextKey} else {})
  {
  }
}
