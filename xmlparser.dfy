/**
 * Gamebox's XML catalog reader.  A catalog is either an IFMES document,
 * whose RDF:RDF root holds game elements and RDF:Seq/RDF:Bag containers
 * that group them, or an iFiction document, whose ifindex root holds story
 * elements.  The document tree libxml2 builds is modelled as a datatype;
 * its strings stand for UTF-8 byte strings, and every property read from
 * it is converted to ISO-8859-1 before it reaches the game set.
 */
module XmlParsers {
  import opened Text
  import opened Utf
  import opened GameSets
  import opened GameGroups

  // ---------------------------------------------------------------------
  // The document tree
  // ---------------------------------------------------------------------

  datatype Attribute = Attribute(name: string, ns: Option<string>, value: string)

  /** A node of the parsed document; `ns` is the namespace URI, if any. */
  datatype XmlNode =
    | Element(name: string, ns: Option<string>, attributes: seq<Attribute>, children: seq<XmlNode>)
    | TextNode(content: string)
    | OtherNode

  function Children(n: XmlNode): seq<XmlNode>
  {
    if n.Element? then n.children else []
  }

  function Concat(parts: seq<string>): string
  {
    if |parts| == 0 then "" else Concat(parts[..|parts| - 1]) + parts[|parts| - 1]
  }

  /** The contents of the text nodes of a list, in order. */
  function Texts(nodes: seq<XmlNode>): (r: seq<string>)
  {
    if |nodes| == 0 then []
    else
      var last := nodes[|nodes| - 1];
      Texts(nodes[..|nodes| - 1]) + (if last.TextNode? then [last.content] else [])
  }

  /**
   * `xmlNodeListGetString`: the text of a node list, or nothing when it
   * holds no text.  Entity references are not modelled.
   */
  function ListString(nodes: seq<XmlNode>): (r: Option<string>)
    ensures r.None? <==> forall k :: 0 <= k < |nodes| ==> !nodes[k].TextNode?
  {
    var texts := Texts(nodes);
    NoTexts(nodes);
    if |texts| == 0 then None else Some(Concat(texts))
  }

  lemma {:induction false} NoTexts(nodes: seq<XmlNode>)
    ensures |Texts(nodes)| == 0 <==> forall k :: 0 <= k < |nodes| ==> !nodes[k].TextNode?
  {
    if |nodes| > 0 {
      NoTexts(nodes[..|nodes| - 1]);
      assert forall k :: 0 <= k < |nodes| - 1 ==> nodes[..|nodes| - 1][k] == nodes[k];
    }
  }

  /**
   * `xml_node_element_matches`: an element with that name and, when a
   * namespace is asked for, that namespace.
   */
  predicate Matches(n: XmlNode, name: string, ns: Option<string>)
  {
    n.Element? && n.name == name && (ns.None? || n.ns == ns)
  }

  /** The first node of the list that matches. */
  function FirstMatch(nodes: seq<XmlNode>, name: string, ns: Option<string>): (r: Option<nat>)
    ensures r.None? <==> forall k :: 0 <= k < |nodes| ==> !Matches(nodes[k], name, ns)
    ensures r.Some? ==> r.value < |nodes| && Matches(nodes[r.value], name, ns)
    ensures r.Some? ==> forall k :: 0 <= k < r.value ==> !Matches(nodes[k], name, ns)
  {
    if |nodes| == 0 then None
    else if Matches(nodes[0], name, ns) then Some(0)
    else
      var rest := FirstMatch(nodes[1..], name, ns);
      if rest.None? then None else Some(rest.value + 1)
  }

  /** `xml_node_find_child_element`: the first child that matches, by position. */
  method FindChild(n: XmlNode, name: string, ns: Option<string>) returns (child: Option<nat>)
    ensures child == FirstMatch(Children(n), name, ns)
  {
    var children := Children(n);
    var k := 0;
    while k < |children|
      invariant 0 <= k <= |children|
      invariant forall j :: 0 <= j < k ==> !Matches(children[j], name, ns)
    {
      if Matches(children[k], name, ns) {
        FirstMatchIs(children, name, ns, k);
        return Some(k);
      }
      k := k + 1;
    }
    return None;
  }

  lemma FirstMatchIs(nodes: seq<XmlNode>, name: string, ns: Option<string>, k: nat)
    requires k < |nodes| && Matches(nodes[k], name, ns)
    requires forall j :: 0 <= j < k ==> !Matches(nodes[j], name, ns)
    ensures FirstMatch(nodes, name, ns) == Some(k)
  {
  }

  /**
   * `xmlGetNsProp`: the value of the first attribute with that name and
   * that namespace (no namespace when none is given).
   */
  function Attr(attributes: seq<Attribute>, name: string, ns: Option<string>): (r: Option<string>)
    decreases |attributes|, 1
  {
    if |attributes| == 0 then None else AttrFrom(attributes, name, ns)
  }

  /**
   * The search of `Attr` on a non-empty list.  It is a separate function so
   * that a proof which only mentions an attribute lookup does not unfold
   * the name comparison.
   */
  function AttrFrom(attributes: seq<Attribute>, name: string, ns: Option<string>): (r: Option<string>)
    requires |attributes| > 0
    decreases |attributes|, 0
  {
    if attributes[0].name == name && attributes[0].ns == ns then Some(attributes[0].value)
    else
      Attr(attributes[1..], name, ns)
  }

  function NodeAttr(n: XmlNode, name: string, ns: Option<string>): (r: Option<string>)
  {
    if n.Element? then Attr(n.attributes, name, ns) else None
  }

  // ---------------------------------------------------------------------
  // RDF properties
  // ---------------------------------------------------------------------

  /** One more value on a property: the value alone, or appended after ", ". */
  function Append(prev: Option<string>, text: Option<string>): Option<string>
  {
    if text.None? then prev else if prev.None? then text else Some(prev.value + ", " + text.value)
  }

  /** The text a child adds to the property: its text when it matches, else nothing. */
  function ChildText(child: XmlNode, name: string, ns: Option<string>): Option<string>
  {
    if Matches(child, name, ns) then ListString(Children(child)) else None
  }

  /**
   * The property gathered from `attr` and the children in `nodes`, in
   * document order, as the loop of `xml_get_rdf_node_property` builds it.
   */
  function Gathered(nodes: seq<XmlNode>, attr: Option<string>, name: string, ns: Option<string>): Option<string>
    decreases |nodes|, 1
  {
    if |nodes| == 0 then attr else GatheredTo(nodes, attr, name, ns)
  }

  /**
   * `Gathered` on a non-empty list.  Like `AttrFrom`, it keeps the name
   * comparison out of proofs that only mention a property.
   */
  function GatheredTo(nodes: seq<XmlNode>, attr: Option<string>, name: string, ns: Option<string>): Option<string>
    requires |nodes| > 0
    decreases |nodes|, 0
  {
    Append(Gathered(nodes[..|nodes| - 1], attr, name, ns), ChildText(nodes[|nodes| - 1], name, ns))
  }

  /** What `xml_get_rdf_node_property` finds on a node. */
  function RdfPropertyOf(n: XmlNode, name: string, ns: Option<string>): Option<string>
  {
    Gathered(Children(n), NodeAttr(n, name, ns), name, ns)
  }

  lemma GatheredStep(nodes: seq<XmlNode>, i: nat, attr: Option<string>, name: string, ns: Option<string>)
    requires i < |nodes|
    ensures Gathered(nodes[..i + 1], attr, name, ns) ==
      Append(Gathered(nodes[..i], attr, name, ns), ChildText(nodes[i], name, ns))
  {
    assert nodes[..i + 1][..i] == nodes[..i];
    assert Gathered(nodes[..i + 1], attr, name, ns) == GatheredTo(nodes[..i + 1], attr, name, ns);
  }

  /** `xml_get_rdf_node_property`, with its loop over the children. */
  method RdfProperty(n: XmlNode, name: string, ns: Option<string>) returns (property: Option<string>)
    ensures property == RdfPropertyOf(n, name, ns)
  {
    var a := NodeAttr(n, name, ns);
    property := a;
    var children := Children(n);
    assert children[..0] == [];
    for i := 0 to |children|
      invariant property == Gathered(children[..i], a, name, ns)
    {
      GatheredStep(children, i, a, name, ns);
      var child := children[i];
      if Matches(child, name, ns) {
        var content := ListString(Children(child));
        if content.Some? {
          if property.Some? {
            property := Some(property.value + ", " + content.value);
          } else {
            property := Some(content.value);
          }
        }
      }
    }
    assert children[..|children|] == children;
  }

  // The same property stated as a whole: the parts, joined.

  /** The text of every matching child that has some, in document order. */
  function ChildValues(nodes: seq<XmlNode>, name: string, ns: Option<string>): (r: seq<string>)
  {
    if |nodes| == 0 then []
    else
      var text := ChildText(nodes[|nodes| - 1], name, ns);
      ChildValues(nodes[..|nodes| - 1], name, ns) + (if text.Some? then [text.value] else [])
  }

  /** The parts of an RDF property: the attribute value, then the matching children's text. */
  function RdfParts(n: XmlNode, name: string, ns: Option<string>): seq<string>
  {
    var a := NodeAttr(n, name, ns);
    (if a.Some? then [a.value] else []) + ChildValues(Children(n), name, ns)
  }

  /** Parts joined with ", ", or nothing when there are no parts. */
  function Joined(parts: seq<string>): (r: Option<string>)
    ensures r.None? <==> |parts| == 0
  {
    if |parts| == 0 then None else Some(Join(parts, ", "))
  }

  /**
   * The property of a node is its attribute value followed by the text of
   * each matching child, joined with ", "; nothing when there is neither.
   */
  lemma RdfPropertyJoins(n: XmlNode, name: string, ns: Option<string>)
    ensures RdfPropertyOf(n, name, ns) == Joined(RdfParts(n, name, ns))
    ensures RdfPropertyOf(n, name, ns).None? <==> NodeAttr(n, name, ns).None? && |ChildValues(Children(n), name, ns)| == 0
  {
    var a := NodeAttr(n, name, ns);
    GatheredJoins(Children(n), a, if a.Some? then [a.value] else [], name, ns);
  }

  lemma {:induction false} GatheredJoins(nodes: seq<XmlNode>, attr: Option<string>, head: seq<string>, name: string, ns: Option<string>)
    requires head == if attr.Some? then [attr.value] else []
    ensures Gathered(nodes, attr, name, ns) == Joined(head + ChildValues(nodes, name, ns))
    decreases |nodes|
  {
    if |nodes| == 0 {
      assert head + [] == head;
      if attr.Some? {
        assert Join(head, ", ") == attr.value;
      }
    } else {
      var prefix := nodes[..|nodes| - 1];
      GatheredJoins(prefix, attr, head, name, ns);
      var text := ChildText(nodes[|nodes| - 1], name, ns);
      assert Gathered(nodes, attr, name, ns) == Append(Gathered(prefix, attr, name, ns), text);
      if text.Some? {
        JoinedSnoc(head + ChildValues(prefix, name, ns), text.value);
        assert head + ChildValues(nodes, name, ns) == (head + ChildValues(prefix, name, ns)) + [text.value];
      } else {
        assert head + ChildValues(nodes, name, ns) == head + ChildValues(prefix, name, ns);
      }
    }
  }

  /** Joining one more part appends the separator and the part. */
  lemma {:induction false} JoinSnoc(parts: seq<string>, x: string, sep: string)
    requires |parts| > 0
    ensures Join(parts + [x], sep) == Join(parts, sep) + sep + x
    decreases |parts|
  {
    if |parts| == 1 {
      assert (parts + [x])[1..] == [x];
    } else {
      assert (parts + [x])[1..] == parts[1..] + [x];
      JoinSnoc(parts[1..], x, sep);
    }
  }

  lemma JoinedSnoc(parts: seq<string>, x: string)
    ensures Joined(parts + [x]) == Some(if |parts| == 0 then x else Joined(parts).value + ", " + x)
  {
    if |parts| > 0 {
      JoinSnoc(parts, x, ", ");
    } else {
      assert parts + [x] == [x];
    }
  }

  // ---------------------------------------------------------------------
  // Binding tables
  // ---------------------------------------------------------------------

  /** The variables a binding table can write. */
  datatype Field =
    | About | Ifid | Author | Byline | Desc | Genre | Headline | Length
    | Publisher | ReleaseDate | Title | Version | Resource | GroupName

  /** `binding_t`: the property `name` in `ns` goes to `field`. */
  datatype Binding = Binding(name: string, ns: Option<string>, field: Field)

  /** `double_binding_t`: the property `name` in the first `parent` child goes to `field`. */
  datatype DoubleBinding = DoubleBinding(parent: string, parentNs: Option<string>,
                                         name: string, ns: Option<string>, field: Field)

  /** What each row of a table found, in table order. */
  type Found = seq<(Field, Option<string>)>

  /** The last row of the table that found a value for `f`. */
  function LastFound(found: Found, f: Field): (r: Option<nat>)
    ensures r.None? <==> forall k :: 0 <= k < |found| ==> !(found[k].0 == f && found[k].1.Some?)
    ensures r.Some? ==> r.value < |found| && found[r.value].0 == f && found[r.value].1.Some?
    ensures r.Some? ==> forall k :: r.value < k < |found| ==> !(found[k].0 == f && found[k].1.Some?)
  {
    if |found| == 0 then None
    else if found[|found| - 1].0 == f && found[|found| - 1].1.Some? then Some(|found| - 1)
    else LastFound(found[..|found| - 1], f)
  }

  /**
   * The variables after the table has been run: each starts out NULL and
   * every row that finds a value overwrites its variable with the value
   * converted to ISO-8859-1, so the last row that finds one wins.
   */
  function Assign(found: Found): map<Field, string>
  {
    if |found| == 0 then map[]
    else
      var last := found[|found| - 1];
      var m := Assign(found[..|found| - 1]);
      if last.1.Some? then m[last.0 := Utf8ToIso8859(last.1.value)] else m
  }

  /** A variable is set exactly when some row found it, and holds what the last such row found. */
  lemma {:induction false} AssignLast(found: Found, f: Field)
    ensures f in Assign(found) <==> LastFound(found, f).Some?
    ensures f in Assign(found) ==> Assign(found)[f] == Utf8ToIso8859(found[LastFound(found, f).value].1.value)
    decreases |found|
  {
    if |found| > 0 {
      AssignLast(found[..|found| - 1], f);
    }
  }

  lemma AssignSnoc(found: Found, e: (Field, Option<string>))
    ensures Assign(found + [e]) == if e.1.Some? then Assign(found)[e.0 := Utf8ToIso8859(e.1.value)] else Assign(found)
  {
    assert forall k :: 0 <= k < |found| ==> found[k] == (found + [e])[k];
    assert (found + [e])[|found|] == e;
    assert (found + [e])[..|found|] == found;
  }

  function Get(m: map<Field, string>, f: Field): Option<string>
  {
    if f in m then Some(m[f]) else None
  }

  /** A field found by exactly one row of its table: present exactly when that row found it. */
  lemma OnlyRow(found: Found, f: Field, k: nat)
    requires k < |found| && found[k].0 == f
    requires forall j :: 0 <= j < |found| && j != k ==> found[j].0 != f
    ensures Get(Assign(found), f) == IsoOpt(found[k].1)
  {
    AssignLast(found, f);
  }

  /** A property converted to ISO-8859-1, when there is one. */
  function IsoOpt(p: Option<string>): Option<string>
  {
    if p.Some? then Some(Utf8ToIso8859(p.value)) else None
  }

  /** What each row of a table finds on a node, row by row. */
  function RdfFound(n: XmlNode, bindings: seq<Binding>): (r: Found)
    ensures |r| == |bindings|
  {
    if |bindings| == 0 then []
    else
      var b := bindings[|bindings| - 1];
      RdfFound(n, bindings[..|bindings| - 1]) + [(b.field, RdfPropertyOf(n, b.name, b.ns))]
  }

  lemma {:induction false} RdfFoundAt(n: XmlNode, bindings: seq<Binding>, k: nat)
    requires k < |bindings|
    ensures RdfFound(n, bindings)[k] == (bindings[k].field, RdfPropertyOf(n, bindings[k].name, bindings[k].ns))
    decreases |bindings|
  {
    if k < |bindings| - 1 {
      RdfFoundAt(n, bindings[..|bindings| - 1], k);
    }
  }

  lemma RdfFoundFields(n: XmlNode, bindings: seq<Binding>)
    ensures forall k :: 0 <= k < |bindings| ==> RdfFound(n, bindings)[k].0 == bindings[k].field
  {
    forall k | 0 <= k < |bindings| {
      RdfFoundAt(n, bindings, k);
    }
  }

  /** A row whose variable no other row writes leaves that variable with the row's property. */
  lemma TableRow(n: XmlNode, bindings: seq<Binding>, k: nat)
    requires k < |bindings|
    requires forall j :: 0 <= j < |bindings| && j != k ==> bindings[j].field != bindings[k].field
    ensures Get(Assign(RdfFound(n, bindings)), bindings[k].field) == IsoOpt(RdfPropertyOf(n, bindings[k].name, bindings[k].ns))
  {
    var found := RdfFound(n, bindings);
    RdfFoundFields(n, bindings);
    RdfFoundAt(n, bindings, k);
    OnlyRow(found, bindings[k].field, k);
  }

  /** `xml_get_rdf_node_properties`: run the table on a node; with no node, every variable is NULL. */
  method RdfProperties(node: Option<XmlNode>, bindings: seq<Binding>) returns (values: map<Field, string>)
    ensures node.None? ==> values == map[]
    ensures node.Some? ==> values == Assign(RdfFound(node.value, bindings))
  {
    values := map[];
    if node.Some? {
      for i := 0 to |bindings|
        invariant values == Assign(RdfFound(node.value, bindings[..i]))
      {
        RdfFoundStep(node.value, bindings, i);
        var property := RdfProperty(node.value, bindings[i].name, bindings[i].ns);
        if property.Some? {
          values := values[bindings[i].field := Utf8ToIso8859(property.value)];
        }
      }
      assert bindings[..|bindings|] == bindings;
    }
  }

  lemma RdfFoundStep(n: XmlNode, bindings: seq<Binding>, i: nat)
    requires i < |bindings|
    ensures RdfPropertyOf(n, bindings[i].name, bindings[i].ns).Some? ==>
      Assign(RdfFound(n, bindings[..i + 1])) ==
      Assign(RdfFound(n, bindings[..i]))[bindings[i].field := Utf8ToIso8859(RdfPropertyOf(n, bindings[i].name, bindings[i].ns).value)]
    ensures RdfPropertyOf(n, bindings[i].name, bindings[i].ns).None? ==>
      Assign(RdfFound(n, bindings[..i + 1])) == Assign(RdfFound(n, bindings[..i]))
  {
    assert bindings[..i + 1][..i] == bindings[..i];
    AssignSnoc(RdfFound(n, bindings[..i]), (bindings[i].field, RdfPropertyOf(n, bindings[i].name, bindings[i].ns)));
  }

  // ---------------------------------------------------------------------
  // IFMES documents
  // ---------------------------------------------------------------------

  const RdfNs: Option<string> := Some("http://www.w3.org/1999/02/22-rdf-syntax-ns#")
  const IfNs: Option<string> := Some("http://purl.org/int-fiction/metadata/1.1/")
  const BafNs: Option<string> := Some("http://wurb.com/if/")
  const IfmNs: Option<string> := Some("http://www.logicalshift.org.uk/IF/metadata/")
  const DcNs: Option<string> := Some("http://purl.org/dc/elements/1.1/")

  const UnknownGame := "[Unknown Game]"
  const UnknownGroup := "[Unknown Game Group]"

  /** The table `xml_parse_rdf_game_element` runs on a game element. */
  const GameBindings: seq<Binding> := [
    Binding("about", RdfNs, About), Binding("author", IfNs, Author),
    Binding("byline", IfNs, Byline), Binding("desc", IfNs, Desc),
    Binding("genre", IfNs, Genre), Binding("headline", IfNs, Headline),
    Binding("length", IfNs, Length), Binding("publisher", IfNs, Publisher),
    Binding("releaseDate", IfNs, ReleaseDate), Binding("title", IfNs, Title),
    Binding("version", IfNs, Version)]

  /** The table `xml_parse_rdf_container_element` runs on a container's description. */
  const ContainerBindings: seq<Binding> := [
    Binding("about", RdfNs, About), Binding("title", DcNs, Title), Binding("description", DcNs, Desc)]

  const ResourceBindings: seq<Binding> := [Binding("resource", RdfNs, Resource)]

  function Opt<T>(o: Option<T>): (r: seq<T>)
    ensures o.Some? ==> r == [o.value]
    ensures o.None? ==> r == []
  {
    if o.Some? then [o.value] else []
  }

  function DetailsOf(v: map<Field, string>): Details
  {
    Details(Get(v, Author), Get(v, Byline), Get(v, Desc), Get(v, Genre), Get(v, Headline),
            Get(v, Length), Get(v, Publisher), Get(v, ReleaseDate), Get(v, Version))
  }

  function IfProperty(n: XmlNode, name: string): Option<string>
  {
    IsoOpt(RdfPropertyOf(n, name, IfNs))
  }

  /** Each IF property of a game element, in the detail of the same name. */
  function RdfDetails(n: XmlNode): Details
  {
    Details(IfProperty(n, "author"), IfProperty(n, "byline"), IfProperty(n, "desc"),
            IfProperty(n, "genre"), IfProperty(n, "headline"), IfProperty(n, "length"),
            IfProperty(n, "publisher"), IfProperty(n, "releaseDate"), IfProperty(n, "version"))
  }

  /**
   * The game a BAF:game or IFM:story element adds: one only when it has an
   * `RDF:about`, which is its location; its title is `IF:title`, or
   * "[Unknown Game]" without one.
   */
  function RdfGame(n: XmlNode, id: nat): Option<Game>
  {
    var about := IsoOpt(RdfPropertyOf(n, "about", RdfNs));
    var title := IfProperty(n, "title");
    if about.None? then None
    else Some(Game(about.value, if title.Some? then title.value else UnknownGame, RdfDetails(n), id))
  }

  /** `xml_parse_rdf_game_element` */
  method ParseRdfGame(n: XmlNode, gs: GameSet)
    requires gs.Valid()
    modifies gs
    ensures gs.Valid()
    ensures gs.games == old(gs.games) + Opt(RdfGame(n, |old(gs.games)|))
  {
    var values := RdfProperties(Some(n), GameBindings);
    GameTableReads(n);
    if About in values {
      var title := if Title in values then values[Title] else UnknownGame;
      var game := gs.AddGame(values[About], title, DetailsOf(values));
    }
  }

  /** The game table reads `RDF:about`, `IF:title` and each IF detail into its own variable. */
  lemma GameTableReads(n: XmlNode)
    ensures var v := Assign(RdfFound(n, GameBindings));
      Get(v, About) == IsoOpt(RdfPropertyOf(n, "about", RdfNs))
      && Get(v, Title) == IfProperty(n, "title")
      && DetailsOf(v) == RdfDetails(n)
  {
    GameRow(n, 0);
    GameRow(n, 1);
    GameRow(n, 2);
    GameRow(n, 3);
    GameRow(n, 4);
    GameRow(n, 5);
    GameRow(n, 6);
    GameRow(n, 7);
    GameRow(n, 8);
    GameRow(n, 9);
    GameRow(n, 10);
  }

  /** Each row of the game table binds a field no other row binds. */
  lemma GameRow(n: XmlNode, k: nat)
    requires k < |GameBindings|
    ensures Get(Assign(RdfFound(n, GameBindings)), GameBindings[k].field) ==
      IsoOpt(RdfPropertyOf(n, GameBindings[k].name, GameBindings[k].ns))
  {
    TableRow(n, GameBindings, k);
  }

  /** An RDF:Description peer that describes `about`. */
  predicate Describes(n: XmlNode, about: string)
  {
    Matches(n, "Description", RdfNs) && RdfPropertyOf(n, "about", RdfNs) == Some(about)
  }

  /** The first peer that describes `about`. */
  function DescriptionFor(siblings: seq<XmlNode>, about: string): (r: Option<nat>)
    ensures r.Some? ==> r.value < |siblings|
    decreases |siblings|, 1
  {
    if |siblings| == 0 then None else DescriptionFrom(siblings, about)
  }

  /** `DescriptionFor` on a non-empty list, kept apart like `AttrFrom`. */
  function DescriptionFrom(siblings: seq<XmlNode>, about: string): (r: Option<nat>)
    requires |siblings| > 0
    ensures r.Some? ==> r.value < |siblings|
    decreases |siblings|, 0
  {
    if Describes(siblings[0], about) then Some(0)
    else
      var rest := DescriptionFor(siblings[1..], about);
      if rest.None? then None else Some(rest.value + 1)
  }

  /** The peer the search finds describes `about`, and no earlier peer does. */
  lemma {:induction false} DescriptionForFound(siblings: seq<XmlNode>, about: string)
    ensures DescriptionFor(siblings, about).Some? ==>
      DescriptionFor(siblings, about).value < |siblings| && Describes(siblings[DescriptionFor(siblings, about).value], about)
      && forall j :: 0 <= j < DescriptionFor(siblings, about).value ==> !Describes(siblings[j], about)
    decreases |siblings|
  {
    if |siblings| > 0 {
      assert DescriptionFor(siblings, about) == DescriptionFrom(siblings, about);
      if !Describes(siblings[0], about) {
        DescriptionForFound(siblings[1..], about);
        assert forall j :: 1 <= j < |siblings| ==> siblings[j] == siblings[1..][j - 1];
      }
    }
  }

  /** The search finds the first peer that describes `about`. */
  lemma {:induction false} DescriptionForIs(siblings: seq<XmlNode>, about: string, k: nat)
    requires k < |siblings| && Describes(siblings[k], about)
    requires forall j :: 0 <= j < k ==> !Describes(siblings[j], about)
    ensures DescriptionFor(siblings, about) == Some(k)
    decreases k
  {
    assert DescriptionFor(siblings, about) == DescriptionFrom(siblings, about);
    if k > 0 {
      assert siblings[1..][k - 1] == siblings[k];
      DescriptionForIs(siblings[1..], about, k - 1);
    }
  }

  /** With no peer that describes `about`, the search finds nothing. */
  lemma {:induction false} DescriptionForNone(siblings: seq<XmlNode>, about: string)
    requires forall j :: 0 <= j < |siblings| ==> !Describes(siblings[j], about)
    ensures DescriptionFor(siblings, about).None?
    decreases |siblings|
  {
    if |siblings| > 0 {
      assert DescriptionFor(siblings, about) == DescriptionFrom(siblings, about);
      assert !Describes(siblings[0], about);
      DescriptionForNone(siblings[1..], about);
    }
  }

  /** The peer that describes a container: the first RDF:Description with the container's `about`. */
  function DescriptorOf(siblings: seq<XmlNode>, node: XmlNode): (r: Option<nat>)
    ensures r.Some? ==> r.value < |siblings|
  {
    var about := RdfPropertyOf(node, "about", RdfNs);
    if about.None? then None else DescriptionFor(siblings, about.value)
  }

  /** `xml_get_rdf_container`: search the container's peers, itself included. */
  method RdfContainer(siblings: seq<XmlNode>, node: XmlNode) returns (descriptor: Option<nat>)
    ensures descriptor == DescriptorOf(siblings, node)
  {
    var about := RdfProperty(node, "about", RdfNs);
    if about.None? {
      return None;
    }
    var k := 0;
    while k < |siblings|
      invariant k <= |siblings|
      invariant forall j :: 0 <= j < k ==> !Describes(siblings[j], about.value)
    {
      if Matches(siblings[k], "Description", RdfNs) {
        var property := RdfProperty(siblings[k], "about", RdfNs);
        if property.Some? && property.value == about.value {
          DescriptionForIs(siblings, about.value, k);
          return Some(k);
        }
      }
      k := k + 1;
    }
    DescriptionForNone(siblings, about.value);
    return None;
  }

  /** The group a container makes: only one whose descriptor has an `about`. */
  function RdfGroup(siblings: seq<XmlNode>, node: XmlNode, id: nat): (r: Option<Group>)
    ensures r.Some? ==> r.value.id == id && r.value.contents == []
  {
    match DescriptorOf(siblings, node)
    case None => None
    case Some(k) =>
      var about := IsoOpt(RdfPropertyOf(siblings[k], "about", RdfNs));
      var title := IsoOpt(RdfPropertyOf(siblings[k], "title", DcNs));
      if about.None? then None
      else Some(Group(about.value, if title.Some? then title.value else UnknownGroup,
                      IsoOpt(RdfPropertyOf(siblings[k], "description", DcNs)), [], id))
  }

  /** The container table reads `RDF:about`, `DC:title` and `DC:description` into their own variables. */
  lemma ContainerTableReads(n: XmlNode)
    ensures var v := Assign(RdfFound(n, ContainerBindings));
      Get(v, About) == IsoOpt(RdfPropertyOf(n, "about", RdfNs))
      && Get(v, Title) == IsoOpt(RdfPropertyOf(n, "title", DcNs))
      && Get(v, Desc) == IsoOpt(RdfPropertyOf(n, "description", DcNs))
  {
    TableRow(n, ContainerBindings, 0);
    TableRow(n, ContainerBindings, 1);
    TableRow(n, ContainerBindings, 2);
  }

  /** `xml_parse_rdf_container_element`: the group is made empty; its contents come later. */
  method ParseRdfContainer(siblings: seq<XmlNode>, node: XmlNode, reg: Registry) returns (group: Option<nat>)
    requires reg.Valid()
    modifies reg
    ensures reg.Valid() && reg.root == old(reg.root)
    ensures reg.groups == old(reg.groups) + Opt(RdfGroup(siblings, node, |old(reg.groups)|))
    ensures group == if RdfGroup(siblings, node, |old(reg.groups)|).Some? then Some(|old(reg.groups)|) else None
  {
    var descriptor := RdfContainer(siblings, node);
    var values := RdfProperties(if descriptor.Some? then Some(siblings[descriptor.value]) else None, ContainerBindings);
    if descriptor.Some? {
      ContainerTableReads(siblings[descriptor.value]);
    }
    if About in values {
      var title := if Title in values then values[Title] else UnknownGroup;
      var index := reg.AddGroup(values[About], title, Get(values, Desc));
      group := Some(index);
    } else {
      group := None;
    }
  }

  /**
   * A container makes a group exactly when a peer RDF:Description carries
   * its `about`; the group's `about` is the container's, converted.
   */
  lemma RdfGroupRule(siblings: seq<XmlNode>, node: XmlNode, id: nat)
    ensures RdfGroup(siblings, node, id).Some? <==> DescriptorOf(siblings, node).Some?
    ensures RdfGroup(siblings, node, id).Some? ==>
      RdfGroup(siblings, node, id).value.about == Utf8ToIso8859(RdfPropertyOf(node, "about", RdfNs).value)
  {
    var about := RdfPropertyOf(node, "about", RdfNs);
    if about.Some? {
      DescriptionForFound(siblings, about.value);
    }
  }

  /** The resource an RDF:li names, converted; other nodes name none. */
  function ItemResource(n: XmlNode): Option<string>
  {
    if Matches(n, "li", RdfNs) then IsoOpt(RdfPropertyOf(n, "resource", RdfNs)) else None
  }

  /** The resource of each RDF:li that has one, in document order. */
  function Resources(nodes: seq<XmlNode>): seq<string>
  {
    if |nodes| == 0 then []
    else Resources(nodes[..|nodes| - 1]) + Opt(ItemResource(nodes[|nodes| - 1]))
  }

  /**
   * Where a resource lands in a group: the newest game at that location,
   * else the newest group with that `about`, else nowhere.
   */
  function Placement(r: string, games: seq<Game>, groups: seq<Group>): seq<Node>
  {
    match Latest(games, r)
    case Some(i) => [GameNode(i)]
    case None =>
      match LatestGroup(groups, r)
      case Some(k) => [GroupNode(k)]
      case None => []
  }

  function Placements(resources: seq<string>, games: seq<Game>, groups: seq<Group>): seq<Node>
  {
    if |resources| == 0 then []
    else Placements(resources[..|resources| - 1], games, groups) + Placement(resources[|resources| - 1], games, groups)
  }

  /** Group lists that agree on every `about`. */
  predicate SameAbouts(a: seq<Group>, b: seq<Group>)
  {
    |a| == |b| && forall k :: 0 <= k < |a| ==> a[k].about == b[k].about
  }

  lemma {:induction false} LatestGroupSameAbouts(a: seq<Group>, b: seq<Group>, about: string)
    requires SameAbouts(a, b)
    ensures LatestGroup(a, about) == LatestGroup(b, about)
    decreases |a|
  {
    if |a| > 0 {
      LatestGroupSameAbouts(a[..|a| - 1], b[..|b| - 1], about);
    }
  }

  lemma {:induction false} PlacementsSameAbouts(resources: seq<string>, games: seq<Game>, a: seq<Group>, b: seq<Group>)
    requires SameAbouts(a, b)
    ensures Placements(resources, games, a) == Placements(resources, games, b)
    decreases |resources|
  {
    if |resources| > 0 {
      PlacementsSameAbouts(resources[..|resources| - 1], games, a, b);
      LatestGroupSameAbouts(a, b, resources[|resources| - 1]);
    }
  }

  lemma ResourcesStep(nodes: seq<XmlNode>, i: nat)
    requires i < |nodes|
    ensures Resources(nodes[..i + 1]) == Resources(nodes[..i]) + Opt(ItemResource(nodes[i]))
  {
    assert nodes[..i + 1][..i] == nodes[..i];
  }

  lemma {:induction false} PlacementsAppend(a: seq<string>, b: seq<string>, games: seq<Game>, groups: seq<Group>)
    ensures Placements(a + b, games, groups) == Placements(a, games, groups) + Placements(b, games, groups)
    decreases |b|
  {
    if |b| > 0 {
      var b' := b[..|b| - 1];
      assert (a + b)[..|a + b| - 1] == a + b';
      PlacementsAppend(a, b', games, groups);
    } else {
      assert a + b == a;
    }
  }

  /** The resource table reads `RDF:resource` into its variable. */
  lemma ResourceRow(n: XmlNode)
    ensures Get(Assign(RdfFound(n, ResourceBindings)), Resource) == IsoOpt(RdfPropertyOf(n, "resource", RdfNs))
  {
    TableRow(n, ResourceBindings, 0);
  }

  /**
   * `xml_add_rdf_container_resources`: each resource goes in as a game if
   * one is at that location, else as a group with that `about`, else it is
   * dropped.  Lookups see the groups as they stood before the call.
   */
  method AddContainerResources(node: XmlNode, g: nat, gs: GameSet, reg: Registry)
    requires gs.Valid() && reg.Valid() && g < |reg.groups|
    modifies reg
    ensures reg.Valid() && reg.root == old(reg.root) && reg.hasVector == old(reg.hasVector)
    ensures reg.groups == old(reg.groups)[g := old(reg.groups)[g].(contents :=
      old(reg.groups)[g].contents + Placements(Resources(Children(node)), gs.games, old(reg.groups)))]
  {
    ghost var start := reg.groups;
    var children := Children(node);
    assert children[..0] == [] && start[g].contents + [] == start[g].contents;
    assert start[g := start[g]] == start;
    for i := 0 to |children|
      invariant reg.Valid() && reg.root == old(reg.root) && reg.hasVector == old(reg.hasVector)
      invariant reg.groups == start[g := start[g].(contents :=
        start[g].contents + Placements(Resources(children[..i]), gs.games, start))]
    {
      ResourcesStep(children, i);
      PlacementsAppend(Resources(children[..i]), Opt(ItemResource(children[i])), gs.games, start);
      AddItem(children[i], g, gs, reg, start, Placements(Resources(children[..i]), gs.games, start));
    }
    assert children[..|children|] == children;
  }

  /** One resource of a container: the newest game at that location, else the newest group with that `about`. */
  method AddResource(g: nat, r: string, gs: GameSet, reg: Registry)
    requires gs.Valid() && reg.Valid() && g < |reg.groups|
    modifies reg
    ensures reg.Valid() && reg.root == old(reg.root) && reg.hasVector == old(reg.hasVector)
    ensures reg.groups == old(reg.groups)[g := old(reg.groups)[g].(contents :=
      old(reg.groups)[g].contents + Placement(r, gs.games, old(reg.groups)))]
  {
    var added := reg.AddGameToGroup(g, r, gs);
    if !added {
      assert reg.groups == old(reg.groups) && Latest(gs.games, r).None?;
      added := reg.AddGroupToGroup(g, r);
      if !added {
        assert Placement(r, gs.games, old(reg.groups)) == [];
        ghost var before := old(reg.groups);
        assert before[g].contents + [] == before[g].contents;
        assert before[g].(contents := before[g].contents) == before[g];
        assert before[g := before[g]] == before;
      }
    }
  }

  /** The body of the loop of `xml_add_rdf_container_resources`, on one child. */
  method AddItem(child: XmlNode, g: nat, gs: GameSet, reg: Registry, ghost start: seq<Group>, ghost done: seq<Node>)
    requires gs.Valid() && reg.Valid() && g < |start|
    requires reg.groups == start[g := start[g].(contents := start[g].contents + done)]
    modifies reg
    ensures reg.Valid() && reg.root == old(reg.root) && reg.hasVector == old(reg.hasVector)
    ensures reg.groups == start[g := start[g].(contents :=
      start[g].contents + (done + Placements(Opt(ItemResource(child)), gs.games, start)))]
  {
    var resource: Option<string> := None;
    if Matches(child, "li", RdfNs) {
      var values := RdfProperties(Some(child), ResourceBindings);
      ItemResourceOf(child, values);
      if Resource in values {
        resource := Some(values[Resource]);
      }
    }
    if resource.Some? {
      AddPlaced(g, resource.value, gs, reg, start, done);
    } else {
      assert done + [] == done;
    }
  }

  /** The resource an RDF:li carries, read through the resource table. */
  lemma ItemResourceOf(child: XmlNode, values: map<Field, string>)
    requires Matches(child, "li", RdfNs) && values == Assign(RdfFound(child, ResourceBindings))
    ensures ItemResource(child) == if Resource in values then Some(values[Resource]) else None
  {
    ResourceRow(child);
  }

  /** A found resource goes to the end of group `g`, looked up in the groups as they stood at `start`. */
  method AddPlaced(g: nat, r: string, gs: GameSet, reg: Registry, ghost start: seq<Group>, ghost done: seq<Node>)
    requires gs.Valid() && reg.Valid() && g < |start|
    requires reg.groups == start[g := start[g].(contents := start[g].contents + done)]
    modifies reg
    ensures reg.Valid() && reg.root == old(reg.root) && reg.hasVector == old(reg.hasVector)
    ensures reg.groups == start[g := start[g].(contents :=
      start[g].contents + (done + Placements([r], gs.games, start)))]
  {
    ghost var placed := Placement(r, gs.games, start);
    assert Placements([r], gs.games, start) == placed;
    PlacementIgnoresContents(start, g, start[g].contents + done, r, gs.games);
    AddResource(g, r, gs, reg);
    Associative(start[g].contents, done, placed);
  }

  lemma PlacementIgnoresContents(groups: seq<Group>, k: nat, contents: seq<Node>, r: string, games: seq<Game>)
    requires k < |groups|
    ensures Placement(r, games, groups[k := groups[k].(contents := contents)]) == Placement(r, games, groups)
  {
    LatestGroupIgnoresContents(groups, k, contents, r);
  }

  predicate IsGameElement(n: XmlNode)
  {
    Matches(n, "game", BafNs) || Matches(n, "story", IfmNs)
  }

  predicate IsContainer(n: XmlNode)
  {
    Matches(n, "Seq", RdfNs) || Matches(n, "Bag", RdfNs)
  }

  /** The games the game elements among `nodes` add, ids counted from `start`. */
  function RdfGames(nodes: seq<XmlNode>, start: nat): (r: seq<Game>)
  {
    if |nodes| == 0 then []
    else
      var prefix := RdfGames(nodes[..|nodes| - 1], start);
      var last := nodes[|nodes| - 1];
      prefix + (if IsGameElement(last) then Opt(RdfGame(last, start + |prefix|)) else [])
  }

  /** The containers among `nodes` that make a group, each with its group, ids counted from `start`. */
  function RdfContainers(siblings: seq<XmlNode>, nodes: seq<XmlNode>, start: nat): (r: seq<(XmlNode, Group)>)
        ensures forall k :: 0 <= k < |r| ==> r[k].1.id == start + k && r[k].1.contents == []
  {
    if |nodes| == 0 then []
    else
      var prefix := RdfContainers(siblings, nodes[..|nodes| - 1], start);
      var last := nodes[|nodes| - 1];
      var made := if IsContainer(last) then RdfGroup(siblings, last, start + |prefix|) else None;
      prefix + (if made.Some? then [(last, made.value)] else [])
  }

  function GroupsOf(cs: seq<(XmlNode, Group)>): (r: seq<Group>)
    ensures |r| == |cs| && forall k :: 0 <= k < |cs| ==> r[k] == cs[k].1
  {
    seq(|cs|, k requires 0 <= k < |cs| => cs[k].1)
  }

  /**
   * The group list once every container's resources are in: the pairs are
   * filled in order, each resource looked up in `all`, the list as it
   * stood when every group had been made.
   */
  function Filled(all: seq<Group>, pairs: seq<(XmlNode, nat)>, games: seq<Game>): (r: seq<Group>)
    ensures SameAbouts(r, all)
  {
    if |pairs| == 0 then all
    else
      var prev := Filled(all, pairs[..|pairs| - 1], games);
      var (node, g) := pairs[|pairs| - 1];
      if g < |prev| then
        prev[g := prev[g].(contents := prev[g].contents + Placements(Resources(Children(node)), games, all))]
      else prev
  }

  /** Phase one of `xml_parse_rdf_root_element`: every game element. */
  method AddRdfGames(nodes: seq<XmlNode>, gs: GameSet)
    requires gs.Valid()
    modifies gs
    ensures gs.Valid()
    ensures gs.games == old(gs.games) + RdfGames(nodes, |old(gs.games)|)
  {
    for i := 0 to |nodes|
      invariant gs.Valid()
      invariant gs.games == old(gs.games) + RdfGames(nodes[..i], |old(gs.games)|)
    {
      RdfGamesStep(nodes, i, |old(gs.games)|);
      ghost var done := RdfGames(nodes[..i], |old(gs.games)|);
      if IsGameElement(nodes[i]) {
        Associative(old(gs.games), done, Opt(RdfGame(nodes[i], |old(gs.games)| + |done|)));
        ParseRdfGame(nodes[i], gs);
      } else {
        assert done + [] == done;
      }
    }
    assert nodes[..|nodes|] == nodes;
  }

  lemma {:induction false} RdfGamesStep(nodes: seq<XmlNode>, i: nat, start: nat)
    requires i < |nodes|
    ensures RdfGames(nodes[..i + 1], start) == RdfGames(nodes[..i], start) +
      (if IsGameElement(nodes[i]) then Opt(RdfGame(nodes[i], start + |RdfGames(nodes[..i], start)|)) else [])
  {
    assert nodes[..i + 1][..i] == nodes[..i];
  }

  lemma {:induction false} RdfContainersStep(nodes: seq<XmlNode>, i: nat, start: nat)
    requires i < |nodes|
    ensures var cs := RdfContainers(nodes, nodes[..i], start);
      var made := if IsContainer(nodes[i]) then RdfGroup(nodes, nodes[i], start + |cs|) else None;
      RdfContainers(nodes, nodes[..i + 1], start) == cs + (if made.Some? then [(nodes[i], made.value)] else [])
  {
    assert nodes[..i + 1][..i] == nodes[..i];
  }

  /** Phase two: every container that makes a group, paired with its group's index. */
  method AddRdfContainers(nodes: seq<XmlNode>, reg: Registry) returns (pairs: seq<(XmlNode, nat)>)
    requires reg.Valid()
    modifies reg
    ensures reg.Valid() && reg.root == old(reg.root)
    ensures reg.groups == old(reg.groups) + GroupsOf(RdfContainers(nodes, nodes, |old(reg.groups)|))
    ensures pairs == PairsOf(RdfContainers(nodes, nodes, |old(reg.groups)|), |old(reg.groups)|)
  {
    pairs := [];
    ghost var before := reg.groups;
    for i := 0 to |nodes|
      invariant reg.Valid() && reg.root == old(reg.root)
      invariant reg.groups == before + GroupsOf(RdfContainers(nodes, nodes[..i], |before|))
      invariant pairs == PairsOf(RdfContainers(nodes, nodes[..i], |before|), |before|)
    {
      RdfContainersStep(nodes, i, |before|);
      pairs := AddContainer(nodes, nodes[i], reg, before, RdfContainers(nodes, nodes[..i], |before|), pairs);
    }
    assert nodes[..|nodes|] == nodes;
  }

  /** One peer of the root: a container that makes a group adds it and its pair. */
  method AddContainer(siblings: seq<XmlNode>, node: XmlNode, reg: Registry,
                      ghost before: seq<Group>, ghost cs: seq<(XmlNode, Group)>,
                      pairs: seq<(XmlNode, nat)>) returns (next: seq<(XmlNode, nat)>)
    requires reg.Valid() && reg.groups == before + GroupsOf(cs) && pairs == PairsOf(cs, |before|)
    modifies reg
    ensures reg.Valid() && reg.root == old(reg.root)
    ensures var made := if IsContainer(node) then RdfGroup(siblings, node, |before| + |cs|) else None;
      var after := cs + (if made.Some? then [(node, made.value)] else []);
      reg.groups == before + GroupsOf(after) && next == PairsOf(after, |before|)
  {
    next := pairs;
    if IsContainer(node) {
      var group := ParseRdfContainer(siblings, node, reg);
      if group.Some? {
        ContainersSnoc(cs, node, RdfGroup(siblings, node, |before| + |cs|).value, |before|);
        next := pairs + [(node, group.value)];
      }
    }
  }

  lemma ContainersSnoc(cs: seq<(XmlNode, Group)>, node: XmlNode, made: Group, base: nat)
    ensures GroupsOf(cs + [(node, made)]) == GroupsOf(cs) + [made]
    ensures PairsOf(cs + [(node, made)], base) == PairsOf(cs, base) + [(node, base + |cs|)]
  {
  }

  /** Phase three: fill the groups, now that every group exists. */
  method FillRdfGroups(pairs: seq<(XmlNode, nat)>, gs: GameSet, reg: Registry)
    requires forall k :: 0 <= k < |pairs| ==> pairs[k].1 < |reg.groups|
    requires gs.Valid() && reg.Valid()
    modifies reg
    ensures reg.Valid() && reg.root == old(reg.root)
    ensures reg.groups == Filled(old(reg.groups), pairs, gs.games)
  {
    ghost var all := reg.groups;
    for i := 0 to |pairs|
      invariant reg.Valid() && reg.root == old(reg.root)
      invariant reg.groups == Filled(all, pairs[..i], gs.games)
    {
      assert pairs[..i + 1][..i] == pairs[..i];
      PlacementsSameAbouts(Resources(Children(pairs[i].0)), gs.games, reg.groups, all);
      AddContainerResources(pairs[i].0, pairs[i].1, gs, reg);
    }
    assert pairs[..|pairs|] == pairs;
  }

  /**
   * `xml_parse_rdf_root_element`: games first, then every group, and only
   * then the groups' contents, so that a container may name a group
   * defined after it.
   */
  method ParseRdfRoot(root: XmlNode, gs: GameSet, reg: Registry)
    requires gs.Valid() && reg.Valid()
    modifies gs, reg
    ensures gs.Valid() && reg.Valid() && reg.root == old(reg.root)
    ensures gs.games == old(gs.games) + RdfGames(Children(root), |old(gs.games)|)
    ensures reg.groups == Filled(old(reg.groups) + GroupsOf(RdfContainers(Children(root), Children(root), |old(reg.groups)|)),
                                 PairsOf(RdfContainers(Children(root), Children(root), |old(reg.groups)|), |old(reg.groups)|),
                                 gs.games)
  {
    var children := Children(root);
    AddRdfGames(children, gs);
    ghost var cs := RdfContainers(children, children, |old(reg.groups)|);
    var pairs := AddRdfContainers(children, reg);
    FillRdfGroups(pairs, gs, reg);
  }

  function PairsOf(cs: seq<(XmlNode, Group)>, start: nat): (r: seq<(XmlNode, nat)>)
    ensures |r| == |cs| && forall k :: 0 <= k < |cs| ==> r[k] == (cs[k].0, start + k)
  {
    seq(|cs|, k requires 0 <= k < |cs| => (cs[k].0, start + k))
  }

  /**
   * After the root pass, each container's group holds the placements of
   * its resources, looked up among all the groups the document defines,
   * those after the container included; every `about` is unchanged.
   */
  lemma {:induction false} FilledGroups(all: seq<Group>, pairs: seq<(XmlNode, nat)>, games: seq<Game>, j: nat)
    requires forall k, l :: 0 <= k < l < |pairs| ==> pairs[k].1 < pairs[l].1
    requires j < |pairs| && pairs[j].1 < |all|
    ensures Filled(all, pairs, games)[pairs[j].1] ==
      all[pairs[j].1].(contents := all[pairs[j].1].contents + Placements(Resources(Children(pairs[j].0)), games, all))
    decreases |pairs|
  {
    var prefix := pairs[..|pairs| - 1];
    if j < |pairs| - 1 {
      FilledGroups(all, prefix, games, j);
    } else {
      FilledUntouched(all, prefix, games, pairs[j].1);
    }
  }

  lemma {:induction false} FilledUntouched(all: seq<Group>, pairs: seq<(XmlNode, nat)>, games: seq<Game>, g: nat)
    requires forall k :: 0 <= k < |pairs| ==> pairs[k].1 != g
    requires g < |all|
    ensures Filled(all, pairs, games)[g] == all[g]
    decreases |pairs|
  {
    if |pairs| > 0 {
      FilledUntouched(all, pairs[..|pairs| - 1], games, g);
    }
  }

  /** Every group the root pass makes holds exactly its container's resolved resources. */
  lemma RdfRootGroups(before: seq<Group>, siblings: seq<XmlNode>, games: seq<Game>, j: nat)
    requires j < |RdfContainers(siblings, siblings, |before|)|
    ensures var cs := RdfContainers(siblings, siblings, |before|);
      var all := before + GroupsOf(cs);
      Filled(all, PairsOf(cs, |before|), games)[|before| + j] ==
      cs[j].1.(contents := Placements(Resources(Children(cs[j].0)), games, all))
  {
    var cs := RdfContainers(siblings, siblings, |before|);
    assert cs[j].1.contents == [];
    FilledPairs(before, cs, games, j);
  }

  lemma FilledPairs(before: seq<Group>, cs: seq<(XmlNode, Group)>, games: seq<Game>, j: nat)
    requires j < |cs| && cs[j].1.contents == []
    ensures Filled(before + GroupsOf(cs), PairsOf(cs, |before|), games)[|before| + j] ==
      cs[j].1.(contents := Placements(Resources(Children(cs[j].0)), games, before + GroupsOf(cs)))
  {
    var all := before + GroupsOf(cs);
    var pairs := PairsOf(cs, |before|);
    PairsIncrease(cs, |before|);
    assert pairs[j] == (cs[j].0, |before| + j);
    FilledGroups(all, pairs, games, j);
    assert all[|before| + j] == cs[j].1;
  }

  lemma PairsIncrease(cs: seq<(XmlNode, Group)>, base: nat)
    ensures forall k, l :: 0 <= k < l < |cs| ==> PairsOf(cs, base)[k].1 < PairsOf(cs, base)[l].1
  {
  }

  // ---------------------------------------------------------------------
  // iFiction descriptions
  // ---------------------------------------------------------------------

  predicate IsBlank(c: char) { c == ' ' }

  /** Step one of normalisation: every whitespace character becomes a space. */
  function Blanked(s: string): (r: string)
    ensures |r| == |s|
    ensures forall k :: 0 <= k < |s| ==> r[k] == if IsSpace(s[k]) then ' ' else s[k]
  {
    seq(|s|, k requires 0 <= k < |s| => if IsSpace(s[k]) then ' ' else s[k])
  }

  /** Step two: every run of spaces becomes one space. */
  function Collapse(s: string): (r: string)
    ensures |r| <= |s|
  {
    if |s| <= 1 then s
    else if s[0] == ' ' && s[1] == ' ' then Collapse(s[1..])
    else [s[0]] + Collapse(s[1..])
  }

  predicate NoDoubleSpace(s: string)
  {
    forall k :: 0 <= k < |s| - 1 ==> !(s[k] == ' ' && s[k + 1] == ' ')
  }

  function StripLeading(s: string): (r: string)
  {
    if |s| > 0 && IsSpace(s[0]) then s[1..] else s
  }

  /**
   * Step three: drop one leading and one trailing whitespace character.
   * The trailing test is made only on a non-empty string.
   */
  function Trimmed(s: string): (r: string)
  {
    var t := StripLeading(s);
    if |t| > 0 && IsSpace(t[|t| - 1]) then t[..|t| - 1] else t
  }

  /** `strncmp (s + i, "<br/>", 5) == 0` */
  predicate BreakAt(s: string, i: nat)
  {
    i + 5 <= |s| && s[i] == '<' && s[i + 1] == 'b' && s[i + 2] == 'r' && s[i + 3] == '/' && s[i + 4] == '>'
  }

  /** Step four: each `<br/>`, scanning left to right, becomes a newline. */
  function ReplaceBreaks(s: string): (r: string)
    ensures |r| <= |s|
  {
    if |s| == 0 then ""
    else if BreakAt(s, 0) then "\n" + ReplaceBreaks(s[5..])
    else [s[0]] + ReplaceBreaks(s[1..])
  }

  /** What `xml_normalize_babel_description` intends for a description. */
  function Normalized(s: string): string
  {
    ReplaceBreaks(Trimmed(Collapse(Blanked(s))))
  }

  /**
   * A normalised description never grows, keeps no whitespace but spaces
   * and newlines, has no two spaces in a row and neither begins nor ends
   * with a space.
   */
  lemma NormalizedShape(s: string)
    ensures |Normalized(s)| <= |s|
    ensures forall k :: 0 <= k < |Normalized(s)| && IsSpace(Normalized(s)[k]) ==>
      Normalized(s)[k] == ' ' || Normalized(s)[k] == '\n'
    ensures NoDoubleSpace(Normalized(s))
    ensures |Normalized(s)| > 0 ==> Normalized(s)[0] != ' ' && Normalized(s)[|Normalized(s)| - 1] != ' '
  {
    var c := Collapse(Blanked(s));
    CollapsedShape(s);
    TrimmedShape(c);
    BreaksShape(Trimmed(c));
  }

  /** After the first two steps the only whitespace left is single spaces. */
  lemma CollapsedShape(s: string)
    ensures NoDoubleSpace(Collapse(Blanked(s))) && |Collapse(Blanked(s))| <= |s|
    ensures forall k :: 0 <= k < |Collapse(Blanked(s))| && IsSpace(Collapse(Blanked(s))[k]) ==>
      Collapse(Blanked(s))[k] == ' '
  {
    var b := Blanked(s);
    var c := Collapse(b);
    CollapseNoDouble(b);
    CollapseChars(b);
    forall k | 0 <= k < |c| && IsSpace(c[k])
      ensures c[k] == ' '
    {
      var j :| 0 <= j < |b| && b[j] == c[k];
    }
  }

  /** Collapsing keeps only characters of its input, with no two spaces in a row. */
  lemma {:induction false} CollapseNoDouble(s: string)
    ensures NoDoubleSpace(Collapse(s))
    ensures |s| > 0 ==> |Collapse(s)| > 0 && Collapse(s)[0] == s[0]
  {
    if |s| > 1 {
      CollapseNoDouble(s[1..]);
    }
  }

  lemma {:induction false} CollapseChars(s: string)
    ensures forall k :: 0 <= k < |Collapse(s)| ==> Collapse(s)[k] in s
  {
    if |s| > 1 {
      CollapseChars(s[1..]);
      assert forall c :: c in s[1..] ==> c in s;
    }
  }

  lemma TrimmedShape(c: string)
    requires NoDoubleSpace(c)
    requires forall k :: 0 <= k < |c| && IsSpace(c[k]) ==> c[k] == ' '
    ensures NoDoubleSpace(Trimmed(c)) && |Trimmed(c)| <= |c|
    ensures forall k :: 0 <= k < |Trimmed(c)| ==> !IsSpace(Trimmed(c)[k]) || Trimmed(c)[k] == ' '
    ensures |Trimmed(c)| > 0 ==> Trimmed(c)[0] != ' ' && Trimmed(c)[|Trimmed(c)| - 1] != ' '
  {
    LeadingShape(c);
    TrailingShape(StripLeading(c));
  }

  /** Dropping a leading space leaves a string that starts with no space. */
  lemma LeadingShape(c: string)
    requires NoDoubleSpace(c)
    requires forall k :: 0 <= k < |c| && IsSpace(c[k]) ==> c[k] == ' '
    ensures var t := StripLeading(c);
      NoDoubleSpace(t) && |t| <= |c| && (forall k :: 0 <= k < |t| && IsSpace(t[k]) ==> t[k] == ' ')
      && (|t| > 0 ==> t[0] != ' ')
  {
    var t := StripLeading(c);
    if |c| > 0 && IsSpace(c[0]) {
      assert forall k :: 0 <= k < |t| ==> t[k] == c[k + 1];
      if |t| > 0 {
        assert c[0] == ' ' && t[0] == c[1];
      }
    }
  }

  /** Dropping a trailing whitespace character from such a string leaves no space at either end. */
  lemma TrailingShape(t: string)
    requires NoDoubleSpace(t) && (|t| > 0 ==> t[0] != ' ')
    requires forall k :: 0 <= k < |t| && IsSpace(t[k]) ==> t[k] == ' '
    ensures var r := if |t| > 0 && IsSpace(t[|t| - 1]) then t[..|t| - 1] else t;
      NoDoubleSpace(r) && |r| <= |t| && (forall k :: 0 <= k < |r| && IsSpace(r[k]) ==> r[k] == ' ')
      && (|r| > 0 ==> r[0] != ' ' && r[|r| - 1] != ' ')
  {
    if |t| > 0 && IsSpace(t[|t| - 1]) {
      var r := t[..|t| - 1];
      assert forall k :: 0 <= k < |r| ==> r[k] == t[k];
      if |r| > 0 {
        assert t[|t| - 1] == ' ' && r[|r| - 1] == t[|t| - 2];
      }
    }
  }

  lemma {:induction false} BreaksShape(t: string)
    requires NoDoubleSpace(t)
    requires forall k :: 0 <= k < |t| ==> !IsSpace(t[k]) || t[k] == ' '
    requires |t| > 0 ==> t[0] != ' ' && t[|t| - 1] != ' '
    ensures forall k :: 0 <= k < |ReplaceBreaks(t)| && IsSpace(ReplaceBreaks(t)[k]) ==>
      ReplaceBreaks(t)[k] == ' ' || ReplaceBreaks(t)[k] == '\n'
    ensures NoDoubleSpace(ReplaceBreaks(t))
    ensures |ReplaceBreaks(t)| > 0 ==> ReplaceBreaks(t)[0] != ' ' && ReplaceBreaks(t)[|ReplaceBreaks(t)| - 1] != ' '
  {
    BreaksKeepChars(t);
    BreaksKeep(t);
  }

  /** Replacing breaks adds no whitespace but newlines. */
  lemma {:induction false} BreaksKeepChars(t: string)
    requires forall k :: 0 <= k < |t| ==> !IsSpace(t[k]) || t[k] == ' '
    ensures forall k :: 0 <= k < |ReplaceBreaks(t)| ==> !IsSpace(ReplaceBreaks(t)[k]) || ReplaceBreaks(t)[k] in " \n"
    decreases |t|
  {
    if |t| > 0 {
      var n := if BreakAt(t, 0) then 5 else 1;
      BreaksCons(t, n);
      BreaksKeepChars(t[n..]);
    }
  }

  /**
   * Replacing breaks keeps every character but the replaced tags, so a
   * space in the result sits between the same neighbours as in the input.
   */
  lemma {:induction false} BreaksKeep(t: string)
    ensures NoDoubleSpace(t) ==> NoDoubleSpace(ReplaceBreaks(t))
    ensures |ReplaceBreaks(t)| > 0 && ReplaceBreaks(t)[0] == ' ' ==> |t| > 0 && t[0] == ' '
    ensures |ReplaceBreaks(t)| > 0 && ReplaceBreaks(t)[|ReplaceBreaks(t)| - 1] == ' ' ==> |t| > 0 && t[|t| - 1] == ' '
    decreases |t|
  {
    if |t| > 0 {
      var n := if BreakAt(t, 0) then 5 else 1;
      var rest := t[n..];
      BreaksKeep(rest);
      BreaksCons(t, n);
    }
  }

  /** How the result of replacing breaks in `t` is made from the result for the rest of `t`. */
  lemma BreaksCons(t: string, n: nat)
    requires |t| > 0 && n == if BreakAt(t, 0) then 5 else 1
    ensures var r, rr := ReplaceBreaks(t), ReplaceBreaks(t[n..]);
      |r| == |rr| + 1 && r[0] == (if n == 5 then '\n' else t[0])
      && (forall k :: 1 <= k < |r| ==> r[k] == rr[k - 1])
    ensures var rest := t[n..];
      (forall k :: 0 <= k < |rest| ==> rest[k] == t[k + n])
      && (NoDoubleSpace(t) ==> NoDoubleSpace(rest))
      && (|rest| > 0 ==> rest[|rest| - 1] == t[|t| - 1])
  {
    var rr := ReplaceBreaks(t[n..]);
    assert ReplaceBreaks(t) == (if n == 5 then "\n" else [t[0]]) + rr;
    DropKeeps(t, n);
  }

  lemma DropKeeps(t: string, n: nat)
    requires n <= |t|
    ensures var rest := t[n..];
      (forall k :: 0 <= k < |rest| ==> rest[k] == t[k + n])
      && (NoDoubleSpace(t) ==> NoDoubleSpace(rest))
      && (|rest| > 0 ==> rest[|rest| - 1] == t[|t| - 1])
  {
  }

  /**
   * `xml_normalize_babel_description`: its passes over one buffer, which
   * never grows.  The trailing-whitespace test is made only when something
   * is left to test.
   */
  method NormalizeDescription(description: string) returns (d: string)
    ensures d == Normalized(description)
    ensures |d| <= |description|
  {
    d := description;
    for i := 0 to |d|
      invariant |d| == |description|
      invariant forall k :: 0 <= k < i ==> d[k] == Blanked(description)[k]
      invariant forall k :: i <= k < |d| ==> d[k] == description[k]
    {
      if IsSpace(d[i]) {
        d := d[i := ' '];
      }
    }
    assert d == Blanked(description);
    d := CollapseSpaces(d);
    if |d| > 0 && IsSpace(d[0]) {
      d := d[1..];
    }
    if |d| > 0 && IsSpace(d[|d| - 1]) {
      d := d[..|d| - 1];
    }
    d := ReplaceBreakTags(d);
    NormalizedShape(description);
  }

  /** The second pass: at each position, a run of spaces is cut down to one. */
  method CollapseSpaces(s: string) returns (d: string)
    ensures d == Collapse(s)
  {
    d := s;
    var i := 0;
    while i < |d| - 1
      invariant i <= |d|
      invariant Collapse(d) == Collapse(s)
      invariant forall k :: 0 <= k < i && k + 1 < |d| ==> !(d[k] == ' ' && d[k + 1] == ' ')
      decreases |d| - i
    {
      var extent := Span(d, i, IsBlank) - i;
      if extent > 1 {
        DropSpaces(d, i, extent);
        d := d[..i + 1] + d[i + extent..];
      }
      i := i + 1;
    }
    CollapseIdle(d);
  }

  /** Removing one of two adjacent spaces does not change the collapsed string. */
  lemma {:induction false} DropOne(d: string, i: nat)
    requires i + 1 < |d| && d[i] == ' ' && d[i + 1] == ' '
    ensures Collapse(d[..i] + d[i + 1..]) == Collapse(d)
    decreases i
  {
    var e := d[..i] + d[i + 1..];
    if i == 0 {
      assert e == d[1..];
    } else {
      assert e[0] == d[0] && e[1] == d[1];
      assert e[1..] == d[1..][..i - 1] + d[1..][i..];
      DropOne(d[1..], i - 1);
    }
  }

  lemma {:induction false} DropSpaces(d: string, i: nat, extent: nat)
    requires 1 <= extent && i + extent <= |d|
    requires forall k :: i <= k < i + extent ==> d[k] == ' '
    ensures Collapse(d[..i + 1] + d[i + extent..]) == Collapse(d)
    decreases extent
  {
    if extent == 1 {
      assert d[..i + 1] + d[i + 1..] == d;
    } else {
      var e := d[..i] + d[i + 1..];
      DropOne(d, i);
      assert forall k :: i <= k < i + extent - 1 ==> e[k] == d[k + 1];
      DropSpaces(e, i, extent - 1);
      DropOneSlices(d, i, i + extent - 1);
    }
  }

  /** With `d[i]` dropped from a pair of equal characters, the slices around it line up. */
  lemma DropOneSlices(d: string, i: nat, j: nat)
    requires i < j < |d| && d[i] == d[i + 1]
    ensures var e := d[..i] + d[i + 1..];
      e[..i + 1] == d[..i + 1] && e[j..] == d[j + 1..]
  {
    var e := d[..i] + d[i + 1..];
    assert e[..i + 1] == d[..i] + [d[i + 1]];
    assert d[..i + 1] == d[..i] + [d[i]];
  }

  /** A string with no two spaces in a row is its own collapse. */
  lemma {:induction false} CollapseIdle(s: string)
    requires NoDoubleSpace(s)
    ensures Collapse(s) == s
  {
    if |s| > 1 {
      CollapseIdle(s[1..]);
      assert [s[0]] + s[1..] == s;
    }
  }

  /** The last pass: each `<br/>` met scanning forward becomes a newline. */
  method ReplaceBreakTags(s: string) returns (d: string)
    ensures d == ReplaceBreaks(s)
  {
    d := s;
    var i := 0;
    while i < |d|
      invariant i <= |d|
      invariant d[..i] + ReplaceBreaks(d[i..]) == ReplaceBreaks(s)
      decreases |d| - i
    {
      ReplaceStep(d, i);
      if BreakAt(d, i) {
        d := d[..i] + "\n" + d[i + 5..];
      }
      i := i + 1;
    }
    assert d[i..] == [];
  }

  /** One step of that pass leaves the string it will produce unchanged. */
  lemma ReplaceStep(d: string, i: nat)
    requires i < |d|
    ensures BreakAt(d, i) ==> var e := d[..i] + "\n" + d[i + 5..];
      i < |e| && e[..i + 1] + ReplaceBreaks(e[i + 1..]) == d[..i] + ReplaceBreaks(d[i..])
    ensures !BreakAt(d, i) ==> d[..i + 1] + ReplaceBreaks(d[i + 1..]) == d[..i] + ReplaceBreaks(d[i..])
  {
    var rest := d[i..];
    if BreakAt(d, i) {
      assert BreakAt(rest, 0);
      var e := d[..i] + "\n" + d[i + 5..];
      assert rest[5..] == d[i + 5..] == e[i + 1..];
      assert e[..i + 1] == d[..i] + "\n";
    } else {
      assert rest[1..] == d[i + 1..];
      assert d[..i + 1] == d[..i] + [d[i]];
    }
  }

  /**
   * The index the C code reads for its trailing-whitespace test: one less
   * than the length left once the leading space is gone.
   */
  function TrailingReadAsWritten(s: string): (i: int)
    ensures i >= -1
  {
    |StripLeading(Collapse(Blanked(s)))| - 1
  }

  /**
   * The trailing test reads inside the string exactly when the description
   * holds a character that is not whitespace; for an empty or blank
   * description it reads the byte before the buffer.
   */
  lemma TrailingReadInBounds(s: string)
    ensures TrailingReadAsWritten(s) >= 0 <==> exists k :: 0 <= k < |s| && !IsSpace(s[k])
  {
    var b := Blanked(s);
    if exists k :: 0 <= k < |s| && !IsSpace(s[k]) {
      var k :| 0 <= k < |s| && !IsSpace(s[k]);
      CollapseKeeps(b, k);
      var c := Collapse(b);
      CollapseChars(b);
      var j :| 0 <= j < |c| && c[j] != ' ';
      var i :| 0 <= i < |b| && b[i] == c[j];
      assert !IsSpace(c[j]);
      if j == 0 {
        assert StripLeading(c) == c;
      }
    } else {
      assert forall k :: 0 <= k < |b| ==> b[k] == ' ';
      CollapseBlank(b);
    }
  }

  lemma BlankDescriptionReadsOutside(s: string)
    requires forall k :: 0 <= k < |s| ==> IsSpace(s[k])
    ensures TrailingReadAsWritten(s) == -1
  {
    TrailingReadInBounds(s);
  }

  lemma {:induction false} CollapseKeeps(s: string, k: nat)
    requires k < |s| && s[k] != ' '
    ensures exists j :: 0 <= j < |Collapse(s)| && Collapse(s)[j] != ' '
    decreases |s|
  {
    if |s| > 1 {
      if k == 0 {
        CollapseNoDouble(s);
        assert Collapse(s)[0] != ' ';
      } else {
        CollapseKeeps(s[1..], k - 1);
        var j :| 0 <= j < |Collapse(s[1..])| && Collapse(s[1..])[j] != ' ';
        if s[0] == ' ' && s[1] == ' ' {
          assert Collapse(s)[j] != ' ';
        } else {
          assert Collapse(s)[j + 1] != ' ';
        }
      }
    } else {
      assert Collapse(s)[k] != ' ';
    }
  }

  lemma {:induction false} CollapseBlank(s: string)
    requires forall k :: 0 <= k < |s| ==> s[k] == ' '
    ensures |Collapse(s)| <= 1
    ensures |Collapse(s)| == 1 ==> Collapse(s)[0] == ' '
  {
    if |s| > 1 {
      CollapseBlank(s[1..]);
    }
  }
}
