/** The footer as the decoder sees it: an XML element tree, and the nested-dictionary view
    that `xmltodict.parse` gives of it, which the decoder indexes key by key.

    In that view an element with neither attributes nor children is a plain string (its
    text) or None (no text); any other element is a dictionary holding `@name` for each
    attribute, `#text` for non-empty text, and one entry per child tag, whose value is a
    list when the tag repeats. Indexing a string, None or a list with a tag fails. */
module XmlTree {
  import opened Results

  datatype Attribute = Attribute(name: string, value: string)

  /** One element: its tag, attributes in document order, children in document order, and
      its text with surrounding whitespace removed (None when no text is left). */
  datatype Element = Element(tag: string, attributes: seq<Attribute>, children: seq<Element>, text: Option<string>)

  /** A value of the nested-dictionary view. */
  datatype Value =
    | Text(s: string)
    | Null
    | Mapping(element: Element)
    | List(elements: seq<Element>)

  /** Whether an element becomes a dictionary rather than a plain string or None. */
  predicate IsMapping(e: Element)
  {
    e.attributes != [] || e.children != []
  }

  function ValueOf(e: Element): (v: Value)
    ensures v.Mapping? <==> IsMapping(e)
    ensures v.Mapping? ==> v.element == e
    ensures v.Text? <==> !IsMapping(e) && e.text.Some?
  {
    if IsMapping(e) then Mapping(e)
    else if e.text.Some? then Text(e.text.value)
    else Null
  }

  /** The whole parsed document: a dictionary with the root tag as its one key. */
  function Document(root: Element): Element
  {
    Element("", [], [root], None)
  }

  /** The children with the given tag, in document order. */
  function Tagged(children: seq<Element>, tag: string): (found: seq<Element>)
    ensures |found| <= |children|
  {
    if children == [] then []
    else (if children[0].tag == tag then [children[0]] else []) + Tagged(children[1..], tag)
  }

  /** The children with the tag are exactly the children that carry it. */
  lemma {:induction false} TaggedMembers(children: seq<Element>, tag: string)
    ensures forall c :: c in Tagged(children, tag) <==> c in children && c.tag == tag
  {
    if children != [] {
      TaggedMembers(children[1..], tag);
      assert children == [children[0]] + children[1..];
    }
  }

  /** `v[tag]` for a child tag. */
  function Index(v: Value, tag: string): (r: Result<Value>)
    ensures r.Ok? <==> v.Mapping? && Tagged(v.element.children, tag) != []
    ensures r.Ok? && |Tagged(v.element.children, tag)| == 1 ==> r.value == ValueOf(Tagged(v.element.children, tag)[0])
    ensures r.Ok? && |Tagged(v.element.children, tag)| > 1 ==> r.value == List(Tagged(v.element.children, tag))
    ensures r.Err? ==> r.error == if v.Mapping? then MissingKey(tag) else NotAMapping(tag)
  {
    match v
    case Mapping(e) =>
      var found := Tagged(e.children, tag);
      if |found| == 0 then Err(MissingKey(tag))
      else if |found| == 1 then Ok(ValueOf(found[0]))
      else Ok(List(found))
    case _ => Err(NotAMapping(tag))
  }

  /** `v[path[0]][path[1]]...`, stopping at the first failing step. */
  function Lookup(v: Value, path: seq<string>): Result<Value>
    decreases |path|, v
  {
    if path == [] then Ok(v)
    else
      var next :- Index(v, path[0]);
      Lookup(next, path[1..])
  }

  /** The value of the first attribute called `name`. */
  function AttributeValue(attributes: seq<Attribute>, name: string): Option<string>
  {
    if attributes == [] then None
    else if attributes[0].name == name then Some(attributes[0].value)
    else AttributeValue(attributes[1..], name)
  }

  /** An attribute is found exactly when one of that name is present, and what is found is
      the value of the first one. */
  lemma {:induction false} AttributeValueFound(attributes: seq<Attribute>, name: string)
    ensures AttributeValue(attributes, name).Some? <==> exists a :: a in attributes && a.name == name
    ensures AttributeValue(attributes, name).Some? ==>
              exists k :: 0 <= k < |attributes| && attributes[k] == Attribute(name, AttributeValue(attributes, name).value)
                          && forall j :: 0 <= j < k ==> attributes[j].name != name
  {
    if attributes != [] {
      AttributeValueFound(attributes[1..], name);
      assert attributes == [attributes[0]] + attributes[1..];
      if attributes[0].name != name && AttributeValue(attributes, name).Some? {
        var k :| 0 <= k < |attributes| - 1 && attributes[1..][k] == Attribute(name, AttributeValue(attributes, name).value)
                 && forall j :: 0 <= j < k ==> attributes[1..][j].name != name;
        assert attributes[k + 1] == attributes[1..][k];
        assert forall j :: 1 <= j < k + 1 ==> attributes[j] == attributes[1..][j - 1];
      }
    }
  }

  /** `v['@' + name]`. */
  function AttrOf(v: Value, name: string): Result<string>
  {
    match v
    case Mapping(e) =>
      (match AttributeValue(e.attributes, name)
       case Some(s) => Ok(s)
       case None => Err(MissingKey("@" + name)))
    case _ => Err(NotAMapping("@" + name))
  }

  /** `v['#text']`. */
  function TextOf(v: Value): Result<string>
  {
    match v
    case Mapping(e) => if e.text.Some? then Ok(e.text.value) else Err(MissingKey("#text"))
    case _ => Err(NotAMapping("#text"))
  }

  /** The attribute `name` of the node at `path` from the document root. */
  function AttrAt(root: Element, path: seq<string>, name: string): Result<string>
  {
    var v :- Lookup(ValueOf(Document(root)), path);
    AttrOf(v, name)
  }

  /** The text of the node at `path` from the document root. */
  function TextAt(root: Element, path: seq<string>): Result<string>
  {
    var v :- Lookup(ValueOf(Document(root)), path);
    TextOf(v)
  }

  /** The element reached from `e` by taking, at each step, the only child with that tag;
      None when some step finds no child or several. */
  function Descend(e: Element, path: seq<string>): Option<Element>
    decreases |path|
  {
    if path == [] then Some(e)
    else
      var found := Tagged(e.children, path[0]);
      if |found| == 1 then Descend(found[0], path[1..]) else None
  }

  /** Indexing composes: looking up `p + q` is looking up `p`, then `q` from there. */
  lemma {:induction false} LookupAppend(v: Value, p: seq<string>, q: seq<string>)
    ensures Lookup(v, p + q) == match Lookup(v, p) case Ok(x) => Lookup(x, q) case Err(err) => Err(err)
    decreases |p|
  {
    if p == [] {
      assert p + q == q;
    } else {
      assert (p + q)[1..] == p[1..] + q;
      match Index(v, p[0])
      case Ok(next) => LookupAppend(next, p[1..], q);
      case Err(_) =>
    }
  }

  /** The dictionary view reaches a dictionary exactly where the element tree has a path of
      unique children, ending at an element with attributes or children. */
  lemma {:induction false} LookupIsDescend(e: Element, path: seq<string>)
    requires IsMapping(e)
    ensures var r := Lookup(Mapping(e), path);
            var d := Descend(e, path);
            (r.Ok? && r.value.Mapping?) <==> (d.Some? && IsMapping(d.value))
    ensures var r := Lookup(Mapping(e), path);
            r.Ok? && r.value.Mapping? ==> r.value.element == Descend(e, path).value
    decreases |path|
  {
    if path != [] {
      var found := Tagged(e.children, path[0]);
      var rest := path[1..];
      if |found| == 1 {
        var c := found[0];
        if IsMapping(c) {
          LookupIsDescend(c, rest);
        } else if rest != [] {
          assert Lookup(ValueOf(c), rest) == Err(NotAMapping(rest[0]));
        }
      } else if |found| > 1 && rest != [] {
        assert Lookup(List(found), rest) == Err(NotAMapping(rest[0]));
      }
    }
  }

  /** An attribute is found at `path` exactly when the path leads through unique children to
      an element that carries it. */
  lemma AttrAtElement(root: Element, path: seq<string>, name: string)
    ensures var d := Descend(Document(root), path);
            AttrAt(root, path, name).Ok? <==> d.Some? && AttributeValue(d.value.attributes, name).Some?
    ensures var d := Descend(Document(root), path);
            AttrAt(root, path, name).Ok? ==> AttrAt(root, path, name).value == AttributeValue(d.value.attributes, name).value
  {
    LookupIsDescend(Document(root), path);
  }

  /** Text is found at `path` exactly when the path leads through unique children to an
      element that has text AND attributes or children: a bare `<Tag>text</Tag>` is a plain
      string in the dictionary view, so asking it for `#text` fails. */
  lemma TextAtElement(root: Element, path: seq<string>)
    ensures var d := Descend(Document(root), path);
            TextAt(root, path).Ok? <==> d.Some? && IsMapping(d.value) && d.value.text.Some?
    ensures var d := Descend(Document(root), path);
            TextAt(root, path).Ok? ==> TextAt(root, path).value == d.value.text.value
  {
    LookupIsDescend(Document(root), path);
  }
}
