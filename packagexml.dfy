module PackageXml {
  import opened Wrappers
  import opened Strings
  import opened XmlDict

  /** The fields read from a `package.xml`: authors and maintainers stay lists (or `''` when absent). */
  datatype PackageInfo = PackageInfo(authors: Value, maintainers: Value, description: string, license: string)

  /** The `_text` of every item iterated over in `[a['_text'] for a in v]`; `None` where that raises. */
  function ItemTexts(items: seq<Value>): Option<seq<Value>> {
    if items == [] then Some([])
    else if items[0].Dict? && TextKey in items[0].entries then
      match ItemTexts(items[1..])
      case Some(rest) => Some([items[0].entries[TextKey]] + rest)
      case None => None
    else None
  }

  /** `[a['_text'] for a in v]`: iterating a string or dictionary is only harmless when it is empty. */
  function TextsOf(v: Value): Option<seq<Value>> {
    match v
    case List(items) => ItemTexts(items)
    case Str(s) => if s == "" then Some([]) else None
    case Dict(m) => if m == map[] then Some([]) else None
  }

  /** The strings of a list of values; `None` when one is not a string (so `' '.join` raises). */
  function Strs(vs: seq<Value>): Option<seq<string>> {
    if vs == [] then Some([])
    else if vs[0].Str? then
      match Strs(vs[1..])
      case Some(rest) => Some([vs[0].s] + rest)
      case None => None
    else None
  }

  /** A list-valued field (`authors`, `maintainers`): the texts, or `''` when the key is absent. */
  function ListField(px: map<string, Value>, key: string): Option<Value> {
    if key in px then
      match TextsOf(px[key])
      case Some(vs) => Some(List(vs))
      case None => None
    else Some(Str(""))
  }

  /** A text field (`description`, `license`): the texts joined by one space, or `''` when absent. */
  function TextField(px: map<string, Value>, key: string): Option<string> {
    if key in px then
      match TextsOf(px[key])
      case Some(vs) => (match Strs(vs) case Some(ss) => Some(Join(ss, " ")) case None => None)
      case None => None
    else Some("")
  }

  /** `_extract_from_package_xml(px)`; `None` where the comprehension or the join raises. */
  function Extract(px: map<string, Value>): Option<PackageInfo> {
    var a := ListField(px, "author");
    var m := ListField(px, "maintainer");
    var d := TextField(px, "description");
    var l := TextField(px, "license");
    if a.Some? && m.Some? && d.Some? && l.Some? then Some(PackageInfo(a.value, m.value, d.value, l.value))
    else None
  }

  /** `parse_package_xml(p)['package']`: the root must be a `package` element. */
  function PackageDict(root: Element): Option<map<string, Value>> {
    if root.tag == "package" then Some(Dictified(root).entries) else None
  }

  /** The texts of the children of `cs` tagged `t`, in document order. */
  function TaggedTexts(cs: seq<Element>, t: string): seq<string>
    requires forall c :: c in cs && c.tag == t ==> HasText(c)
  {
    if cs == [] then []
    else (if cs[0].tag == t then assert cs[0] in cs && HasText(cs[0]); [cs[0].text.value] else []) + TaggedTexts(cs[1..], t)
  }

  function AsStrs(ss: seq<string>): (vs: seq<Value>)
    ensures |vs| == |ss| && forall i :: 0 <= i < |ss| ==> vs[i] == Str(ss[i])
  {
    if ss == [] then [] else [Str(ss[0])] + AsStrs(ss[1..])
  }

  lemma {:induction false} StrsOfAsStrs(ss: seq<string>)
    ensures Strs(AsStrs(ss)) == Some(ss)
  {
    if ss != [] {
      StrsOfAsStrs(ss[1..]);
      var vs := AsStrs(ss);
      assert vs == [Str(ss[0])] + AsStrs(ss[1..]);
      assert vs[1..] == AsStrs(ss[1..]);
      assert ss == [ss[0]] + ss[1..];
    }
  }

  lemma {:induction false} TaggedTextsEmpty(cs: seq<Element>, t: string)
    requires t !in Tags(cs)
    ensures TaggedTexts(cs, t) == []
  {
    if cs != [] {
      assert cs[0] in cs;
      assert Tags(cs[1..]) <= Tags(cs) by {
        forall c | c in cs[1..] ensures c in cs { }
      }
      TaggedTextsEmpty(cs[1..], t);
    }
  }

  /** Children that all have text give the list of their texts. */
  lemma {:induction false} GroupTexts(cs: seq<Element>, t: string)
    requires forall c :: c in cs && c.tag == t ==> HasText(c) && Dictifiable(c)
    ensures ItemTexts(Group(cs, t)) == Some(AsStrs(TaggedTexts(cs, t)))
  {
    if cs != [] {
      GroupTexts(cs[1..], t);
      var g := Group(cs[1..], t);
      var ts := TaggedTexts(cs[1..], t);
      if cs[0].tag == t {
        var d := Dictified(cs[0]);
        TextStored(cs[0]);
        assert Group(cs, t) == [d] + g;
        assert ([d] + g)[1..] == g;
        assert TaggedTexts(cs, t) == [cs[0].text.value] + ts;
        assert AsStrs([cs[0].text.value] + ts) == [Str(cs[0].text.value)] + AsStrs(ts);
      } else {
        assert Group(cs, t) == g;
        assert TaggedTexts(cs, t) == ts;
      }
    }
  }

  /** One item without `_text` makes the comprehension raise. */
  lemma {:induction false} ItemTextsMissing(items: seq<Value>, i: nat)
    requires i < |items| && items[i].Dict? && TextKey !in items[i].entries
    ensures ItemTexts(items) == None
  {
    if i > 0 {
      ItemTextsMissing(items[1..], i - 1);
    }
  }

  /** `authors`/`maintainers` as extracted from a `package` element: its texts, or `''` without such children. */
  function TextList(e: Element, key: string): Value
    requires forall c :: c in e.children && c.tag == key ==> HasText(c)
  {
    if key in Tags(e.children) then List(AsStrs(TaggedTexts(e.children, key))) else Str("")
  }

  /** One field of the `package` dictionary when every child with that tag has text. */
  lemma FieldFromElement(e: Element, key: string)
    requires Dictifiable(e)
    requires key !in e.attrib && key != TextKey
    requires forall c :: c in e.children && c.tag == key ==> HasText(c)
    ensures ListField(Dictified(e).entries, key) == Some(TextList(e, key))
    ensures TextField(Dictified(e).entries, key) == Some(Join(TaggedTexts(e.children, key), " "))
  {
    DictifiedKeys(e);
    if key in Tags(e.children) {
      ChildrenGrouped(e, key);
      GroupTexts(e.children, key);
      StrsOfAsStrs(TaggedTexts(e.children, key));
    } else {
      TaggedTextsEmpty(e.children, key);
    }
  }

  /**
   * Extracting from a `package` element whose author, maintainer, description
   * and licence children all have text yields their texts in document order.
   */
  lemma ExtractFromElement(e: Element)
    requires Dictifiable(e)
    requires "author" !in e.attrib && "maintainer" !in e.attrib
    requires "description" !in e.attrib && "license" !in e.attrib
    requires forall c :: c in e.children && c.tag in {"author", "maintainer", "description", "license"} ==> HasText(c)
    ensures Extract(Dictified(e).entries) == Some(PackageInfo(
      TextList(e, "author"), TextList(e, "maintainer"),
      Join(TaggedTexts(e.children, "description"), " "),
      Join(TaggedTexts(e.children, "license"), " ")))
  {
    FieldFromElement(e, "author");
    FieldFromElement(e, "maintainer");
    FieldFromElement(e, "description");
    FieldFromElement(e, "license");
  }

  /** A field child with neither text nor a `_text` attribute or child makes the extraction raise. */
  lemma ExtractFailsWithoutText(e: Element, c: Element)
    requires Dictifiable(e)
    requires c in e.children && c.tag in {"author", "maintainer", "description", "license"}
    requires c.tag !in e.attrib
    requires !HasText(c) && TextKey !in c.attrib && TextKey !in Tags(c.children)
    ensures Extract(Dictified(e).entries) == None
  {
    var key := c.tag;
    assert key in Tags(e.children);
    ChildrenGrouped(e, key);
    GroupIsTagged(e.children, key);
    assert c in Tagged(e.children, key);
    var i :| 0 <= i < |Tagged(e.children, key)| && Tagged(e.children, key)[i] == c;
    var g := Group(e.children, key);
    assert g[i] == Dictified(c);
    assert TextKey !in Dictified(c).entries by { TextStored(c); }
    ItemTextsMissing(g, i);
    FieldFails(Dictified(e).entries, key);
  }

  /** One of the four fields whose items cannot be read makes the whole extraction fail. */
  lemma FieldFails(px: map<string, Value>, key: string)
    requires key in {"author", "maintainer", "description", "license"}
    requires key in px && TextsOf(px[key]) == None
    ensures Extract(px) == None
  {
  }
}
