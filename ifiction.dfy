/**
 * The iFiction half of Gamebox's XML catalog reader, and the entry point
 * that tells the two kinds of catalog apart.  An iFiction document's
 * ifindex root holds story elements; iFiction keeps every property in a
 * child element, so a property is looked up as a child of a child of the
 * story (a double binding).
 */
module IFiction {
  import opened Text
  import opened Utf
  import opened GameSets
  import opened GameGroups
  import opened XmlParsers

  // ---------------------------------------------------------------------
  // Properties held in child elements
  // ---------------------------------------------------------------------

  /** The first child of `n` that matches, if any. */
  function ChildNamed(n: XmlNode, name: string, ns: Option<string>): (r: Option<XmlNode>)
    ensures r.Some? <==> FirstMatch(Children(n), name, ns).Some?
    ensures r.Some? ==> Matches(r.value, name, ns) && r.value in Children(n)
  {
    var k := FirstMatch(Children(n), name, ns);
    if k.Some? then Some(Children(n)[k.value]) else None
  }

  /** `xml_get_babel_node_property`: the text of the first matching child. */
  function BabelPropertyOf(n: XmlNode, name: string, ns: Option<string>): (r: Option<string>)
    ensures r.Some? ==> ChildNamed(n, name, ns).Some?
  {
    var child := ChildNamed(n, name, ns);
    if child.None? then None else ListString(Children(child.value))
  }

  method BabelProperty(n: XmlNode, name: string, ns: Option<string>) returns (property: Option<string>)
    ensures property == BabelPropertyOf(n, name, ns)
  {
    var k := FindChild(n, name, ns);
    property := None;
    if k.Some? {
      property := ListString(Children(Children(n)[k.value]));
    }
  }

  /** What one row of a double binding finds: the property in the first matching parent child. */
  function DoubleProperty(n: XmlNode, b: DoubleBinding): (r: Option<string>)
    ensures r.Some? ==> ChildNamed(n, b.parent, b.parentNs).Some?
  {
    ChildProperty(n, b.parent, b.parentNs, b.name, b.ns)
  }

  /** The property `name` of the first `parent` child of `n`. */
  function ChildProperty(n: XmlNode, parent: string, parentNs: Option<string>, name: string, ns: Option<string>): (r: Option<string>)
    ensures r.Some? ==> ChildNamed(n, parent, parentNs).Some?
  {
    var p := ChildNamed(n, parent, parentNs);
    if p.None? then None else BabelPropertyOf(p.value, name, ns)
  }

  /** What each row of a double-binding table finds on a node, row by row. */
  function BabelFound(n: XmlNode, bindings: seq<DoubleBinding>): (r: Found)
    ensures |r| == |bindings|
  {
    if |bindings| == 0 then []
    else
      var b := bindings[|bindings| - 1];
      BabelFound(n, bindings[..|bindings| - 1]) + [(b.field, DoubleProperty(n, b))]
  }

  lemma {:induction false} BabelFoundAt(n: XmlNode, bindings: seq<DoubleBinding>, k: nat)
    requires k < |bindings|
    ensures BabelFound(n, bindings)[k] == (bindings[k].field, DoubleProperty(n, bindings[k]))
    decreases |bindings|
  {
    if k < |bindings| - 1 {
      BabelFoundAt(n, bindings[..|bindings| - 1], k);
    }
  }

  lemma BabelFoundStep(n: XmlNode, bindings: seq<DoubleBinding>, i: nat)
    requires i < |bindings|
    ensures DoubleProperty(n, bindings[i]).Some? ==>
      Assign(BabelFound(n, bindings[..i + 1])) ==
      Assign(BabelFound(n, bindings[..i]))[bindings[i].field := Utf8ToIso8859(DoubleProperty(n, bindings[i]).value)]
    ensures DoubleProperty(n, bindings[i]).None? ==>
      Assign(BabelFound(n, bindings[..i + 1])) == Assign(BabelFound(n, bindings[..i]))
  {
    assert bindings[..i + 1][..i] == bindings[..i];
    AssignSnoc(BabelFound(n, bindings[..i]), (bindings[i].field, DoubleProperty(n, bindings[i])));
  }

  /**
   * `xml_get_babel_node_properties`: every variable of the table is first
   * cleared, then each row whose parent and property are both present
   * overwrites its variable with the ISO-8859-1 form of the property.
   */
  method BabelProperties(n: XmlNode, bindings: seq<DoubleBinding>) returns (values: map<Field, string>)
    ensures values == Assign(BabelFound(n, bindings))
  {
    values := map[];
    for i := 0 to |bindings|
      invariant values == Assign(BabelFound(n, bindings[..i]))
    {
      BabelFoundStep(n, bindings, i);
      var b := bindings[i];
      var parent := FindChild(n, b.parent, b.parentNs);
      if parent.Some? {
        var property := BabelProperty(Children(n)[parent.value], b.name, b.ns);
        if property.Some? {
          values := values[b.field := Utf8ToIso8859(property.value)];
        }
      }
    }
    assert bindings[..|bindings|] == bindings;
  }

  // ---------------------------------------------------------------------
  // Which row wins
  // ---------------------------------------------------------------------

  /** `later` when it is present, else `earlier`. */
  function Prefer(later: Option<string>, earlier: Option<string>): (r: Option<string>)
    ensures r.Some? <==> later.Some? || earlier.Some?
  {
    if later.Some? then later else earlier
  }

  /** What the rows `rows` found, the later row preferred. */
  function PreferLast(found: Found, rows: seq<nat>): Option<string>
    requires forall i :: 0 <= i < |rows| ==> rows[i] < |found|
  {
    if |rows| == 0 then None
    else Prefer(found[rows[|rows| - 1]].1, PreferLast(found, rows[..|rows| - 1]))
  }

  /** `rows`, in increasing order, are rows of `found` that write `f`. */
  predicate RowsOf(found: Found, f: Field, rows: seq<nat>)
  {
    (forall i :: 0 <= i < |rows| ==> rows[i] < |found| && found[rows[i]].0 == f)
    && (forall i, j :: 0 <= i < j < |rows| ==> rows[i] < rows[j])
  }

  /**
   * When `rows` are every row that writes `f`, the variable holds what the
   * latest of them found, converted; it is unset when none found anything.
   */
  lemma LastRowWins(found: Found, f: Field, rows: seq<nat>)
    requires RowsOf(found, f, rows)
    requires forall k :: 0 <= k < |found| && found[k].0 == f ==> k in rows
    ensures Get(Assign(found), f) == IsoOpt(PreferLast(found, rows))
  {
    LastFoundOfRows(found, f, rows);
    AssignLast(found, f);
  }

  lemma {:induction false} LastFoundOfRows(found: Found, f: Field, rows: seq<nat>)
    requires RowsOf(found, f, rows)
    requires forall k :: 0 <= k < |found| && found[k].0 == f && found[k].1.Some? ==> k in rows
    ensures LastFound(found, f).None? <==> PreferLast(found, rows).None?
    ensures LastFound(found, f).Some? ==> found[LastFound(found, f).value].1 == PreferLast(found, rows)
    decreases |rows|
  {
    if |rows| > 0 {
      var last := rows[|rows| - 1];
      var prefix := rows[..|rows| - 1];
      assert RowsOf(found, f, prefix);
      if found[last].1.Some? {
        var r := LastFound(found, f).value;
        var i :| 0 <= i < |rows| && rows[i] == r;
        assert r == last;
      } else {
        forall k | 0 <= k < |found| && found[k].0 == f && found[k].1.Some?
          ensures k in prefix
        {
          var i :| 0 <= i < |rows| && rows[i] == k;
          assert i < |rows| - 1 && prefix[i] == k;
        }
        LastFoundOfRows(found, f, prefix);
      }
    }
  }

  // ---------------------------------------------------------------------
  // Story tables
  // ---------------------------------------------------------------------

  const BabelNs: Option<string> := Some("http://babel.ifarchive.org/protocol/iFiction/")
  const DefaultDownload := "http://babel.ifarchive.org/download/"

  /**
   * The table `xml_parse_babel_story_element` runs on a story.  The
   * release date and the version each have several rows, and a later row
   * that finds a value overrides an earlier one.
   */
  const StoryBindings: seq<DoubleBinding> := [
    DoubleBinding("identification", None, "ifid", None, Ifid),
    DoubleBinding("bibliographic", None, "author", None, Author),
    DoubleBinding("bibliographic", None, "genre", None, Genre),
    DoubleBinding("bibliographic", None, "headline", None, Headline),
    DoubleBinding("bibliographic", None, "firstpublished", None, ReleaseDate),
    DoubleBinding("bibliographic", None, "title", None, Title),
    DoubleBinding("bibliographic", None, "group", None, Publisher),
    DoubleBinding("tads2", None, "releasedate", None, ReleaseDate),
    DoubleBinding("tads2", None, "version", None, Version),
    DoubleBinding("tads3", None, "releasedate", None, ReleaseDate),
    DoubleBinding("tads3", None, "version", None, Version),
    DoubleBinding("zcode", None, "release", None, Version),
    DoubleBinding("glulx", None, "release", None, Version)]

  /** The table run on a story's annotation element. */
  const GameboxBindings: seq<DoubleBinding> := [
    DoubleBinding("gamebox", None, "about", None, About),
    DoubleBinding("gamebox", None, "group", None, GroupName)]

  /** A property held in the first `parent` child of a story. */
  function StoryProperty(n: XmlNode, parent: string, name: string): Option<string>
  {
    IsoOpt(ChildProperty(n, parent, None, name, None))
  }

  /** The first `parent` child, or an empty stand-in that holds no property. */
  function FirstChildOrNone(n: XmlNode, parent: string): XmlNode
  {
    var child := ChildNamed(n, parent, None);
    if child.Some? then child.value else OtherNode
  }

  /** The release date: `tads3` over `tads2` over `bibliographic/firstpublished`. */
  function StoryReleaseDate(n: XmlNode): Option<string>
  {
    Prefer(StoryProperty(n, "tads3", "releasedate"),
           Prefer(StoryProperty(n, "tads2", "releasedate"), StoryProperty(n, "bibliographic", "firstpublished")))
  }

  /** The version: `glulx` release over `zcode` release over `tads3` over `tads2` version. */
  function StoryVersion(n: XmlNode): Option<string>
  {
    Prefer(StoryProperty(n, "glulx", "release"),
           Prefer(StoryProperty(n, "zcode", "release"),
                  Prefer(StoryProperty(n, "tads3", "version"), StoryProperty(n, "tads2", "version"))))
  }

  function StoryVars(n: XmlNode): map<Field, string>
  {
    Assign(BabelFound(n, StoryBindings))
  }

  /** What the rows `rows` of a table find on `n`, the later row preferred. */
  function PreferRows(n: XmlNode, bindings: seq<DoubleBinding>, rows: seq<nat>): Option<string>
    requires forall i :: 0 <= i < |rows| ==> rows[i] < |bindings|
  {
    if |rows| == 0 then None
    else Prefer(DoubleProperty(n, bindings[rows[|rows| - 1]]), PreferRows(n, bindings, rows[..|rows| - 1]))
  }

  lemma {:induction false} PreferRowsFound(n: XmlNode, bindings: seq<DoubleBinding>, rows: seq<nat>)
    requires forall i :: 0 <= i < |rows| ==> rows[i] < |bindings|
    requires forall k :: 0 <= k < |bindings| ==> BabelFound(n, bindings)[k].1 == DoubleProperty(n, bindings[k])
    ensures PreferLast(BabelFound(n, bindings), rows) == PreferRows(n, bindings, rows)
    decreases |rows|
  {
    if |rows| > 0 {
      PreferRowsFound(n, bindings, rows[..|rows| - 1]);
    }
  }

  /**
   * When `rows`, in increasing order, are every row of a table that writes
   * `f`, the variable holds what the latest of them that finds a value
   * found, converted.
   */
  lemma DoubleTableRows(n: XmlNode, bindings: seq<DoubleBinding>, f: Field, rows: seq<nat>)
    requires forall i :: 0 <= i < |rows| ==> rows[i] < |bindings| && bindings[rows[i]].field == f
    requires forall i, j :: 0 <= i < j < |rows| ==> rows[i] < rows[j]
    requires forall k :: 0 <= k < |bindings| && bindings[k].field == f ==> k in rows
    ensures Get(Assign(BabelFound(n, bindings)), f) == IsoOpt(PreferRows(n, bindings, rows))
  {
    var found := BabelFound(n, bindings);
    forall k | 0 <= k < |bindings|
      ensures found[k] == (bindings[k].field, DoubleProperty(n, bindings[k]))
    {
      BabelFoundAt(n, bindings, k);
    }
    PreferRowsFound(n, bindings, rows);
    LastRowWins(found, f, rows);
  }

  /** A row of a table whose variable no other row writes. */
  lemma DoubleTableRow(n: XmlNode, bindings: seq<DoubleBinding>, k: nat)
    requires k < |bindings|
    requires forall j :: 0 <= j < |bindings| && j != k ==> bindings[j].field != bindings[k].field
    ensures Get(Assign(BabelFound(n, bindings)), bindings[k].field) == IsoOpt(DoubleProperty(n, bindings[k]))
  {
    DoubleTableRows(n, bindings, bindings[k].field, [k]);
    assert [k][..0] == [];
  }

  /** The IFID comes from its one row; so do the author, title and publisher. */
  lemma StoryIfid(n: XmlNode)
    ensures Get(StoryVars(n), Ifid) == StoryProperty(n, "identification", "ifid")
  {
    DoubleTableRow(n, StoryBindings, 0);
  }

  lemma StoryAuthorRow(n: XmlNode)
    ensures Get(StoryVars(n), Author) == StoryProperty(n, "bibliographic", "author")
  {
    DoubleTableRow(n, StoryBindings, 1);
  }

  lemma StoryTitle(n: XmlNode)
    ensures Get(StoryVars(n), Title) == StoryProperty(n, "bibliographic", "title")
  {
    DoubleTableRow(n, StoryBindings, 5);
  }

  /** `bibliographic/group` is read as the publisher. */
  lemma StoryPublisher(n: XmlNode)
    ensures Get(StoryVars(n), Publisher) == StoryProperty(n, "bibliographic", "group")
  {
    DoubleTableRow(n, StoryBindings, 6);
  }

  /** The rows of the story table that write the release date, and those that write the version. */
  lemma RowsOfTable(bindings: seq<DoubleBinding>, f: Field, rows: seq<nat>)
    requires bindings == StoryBindings
    requires (f == ReleaseDate && rows == [4, 7, 9]) || (f == Version && rows == [8, 10, 11, 12])
    ensures forall i :: 0 <= i < |rows| ==> rows[i] < |bindings| && bindings[rows[i]].field == f
    ensures forall i, j :: 0 <= i < j < |rows| ==> rows[i] < rows[j]
    ensures forall k :: 0 <= k < |bindings| && bindings[k].field == f ==> k in rows
  {
  }

  /** The release date comes from the latest of its three rows that finds one. */
  lemma StoryReleaseDateRows(n: XmlNode)
    ensures Get(StoryVars(n), ReleaseDate) == StoryReleaseDate(n)
  {
    var rows: seq<nat> := [4, 7, 9];
    RowsOfTable(StoryBindings, ReleaseDate, rows);
    DoubleTableRows(n, StoryBindings, ReleaseDate, rows);
    ThreeRows(n, StoryBindings, 4, 7, 9);
    StoryRowsAre();
    var p4 := DoubleProperty(n, StoryBindings[4]);
    var p7 := DoubleProperty(n, StoryBindings[7]);
    var p9 := DoubleProperty(n, StoryBindings[9]);
    PreferIso(p9, Prefer(p7, p4));
    PreferIso(p7, p4);
  }

  /** The version comes from the latest of its four rows that finds one. */
  lemma StoryVersionRows(n: XmlNode)
    ensures Get(StoryVars(n), Version) == StoryVersion(n)
  {
    var rows: seq<nat> := [8, 10, 11, 12];
    RowsOfTable(StoryBindings, Version, rows);
    DoubleTableRows(n, StoryBindings, Version, rows);
    FourRows(n, StoryBindings, 8, 10, 11, 12);
    StoryRowsAre();
    var p8 := DoubleProperty(n, StoryBindings[8]);
    var p10 := DoubleProperty(n, StoryBindings[10]);
    var p11 := DoubleProperty(n, StoryBindings[11]);
    var p12 := DoubleProperty(n, StoryBindings[12]);
    PreferIso(p12, Prefer(p11, Prefer(p10, p8)));
    PreferIso(p11, Prefer(p10, p8));
    PreferIso(p10, p8);
  }

  lemma StoryRowsAre()
    ensures StoryBindings[4] == DoubleBinding("bibliographic", None, "firstpublished", None, ReleaseDate)
    ensures StoryBindings[7] == DoubleBinding("tads2", None, "releasedate", None, ReleaseDate)
    ensures StoryBindings[8] == DoubleBinding("tads2", None, "version", None, Version)
    ensures StoryBindings[9] == DoubleBinding("tads3", None, "releasedate", None, ReleaseDate)
    ensures StoryBindings[10] == DoubleBinding("tads3", None, "version", None, Version)
    ensures StoryBindings[11] == DoubleBinding("zcode", None, "release", None, Version)
    ensures StoryBindings[12] == DoubleBinding("glulx", None, "release", None, Version)
  {
  }

  lemma ThreeRows(n: XmlNode, bindings: seq<DoubleBinding>, a: nat, b: nat, c: nat)
    requires a < |bindings| && b < |bindings| && c < |bindings|
    ensures PreferRows(n, bindings, [a, b, c]) ==
      Prefer(DoubleProperty(n, bindings[c]), Prefer(DoubleProperty(n, bindings[b]), DoubleProperty(n, bindings[a])))
  {
    assert [a, b, c][..2] == [a, b] && [a, b][..1] == [a] && [a][..0] == [];
    assert PreferRows(n, bindings, [a]) == Prefer(DoubleProperty(n, bindings[a]), None);
  }

  lemma FourRows(n: XmlNode, bindings: seq<DoubleBinding>, a: nat, b: nat, c: nat, d: nat)
    requires a < |bindings| && b < |bindings| && c < |bindings| && d < |bindings|
    ensures PreferRows(n, bindings, [a, b, c, d]) ==
      Prefer(DoubleProperty(n, bindings[d]), Prefer(DoubleProperty(n, bindings[c]),
        Prefer(DoubleProperty(n, bindings[b]), DoubleProperty(n, bindings[a]))))
  {
    assert [a, b, c, d][..3] == [a, b, c];
    assert PreferRows(n, bindings, [a, b, c, d]) == Prefer(DoubleProperty(n, bindings[d]), PreferRows(n, bindings, [a, b, c]));
    ThreeRows(n, bindings, a, b, c);
  }

  lemma PreferIso(later: Option<string>, earlier: Option<string>)
    ensures IsoOpt(Prefer(later, earlier)) == Prefer(IsoOpt(later), IsoOpt(earlier))
  {
  }

  /** The annotation table reads the location and the group name, each from its own row. */
  lemma GameboxRows(a: XmlNode)
    ensures Get(Assign(BabelFound(a, GameboxBindings)), About) == StoryProperty(a, "gamebox", "about")
    ensures Get(Assign(BabelFound(a, GameboxBindings)), GroupName) == StoryProperty(a, "gamebox", "group")
  {
    DoubleTableRow(a, GameboxBindings, 0);
    DoubleTableRow(a, GameboxBindings, 1);
  }

  // ---------------------------------------------------------------------
  // Descriptions
  // ---------------------------------------------------------------------

  /** What a child of a description adds: a text node its content, a `br` element "<br/>". */
  function DescriptionPiece(child: XmlNode): Option<string>
  {
    if child.TextNode? then Some(child.content)
    else if Matches(child, "br", None) then Some("<br/>")
    else None
  }

  /** The pieces of a description's children, in document order. */
  function DescriptionPieces(nodes: seq<XmlNode>): (r: seq<string>)
  {
    if |nodes| == 0 then []
    else DescriptionPieces(nodes[..|nodes| - 1]) + Opt(DescriptionPiece(nodes[|nodes| - 1]))
  }

  /** A description has pieces exactly when some child is text or a `br` element. */
  lemma {:induction false} NoPieces(nodes: seq<XmlNode>)
    ensures |DescriptionPieces(nodes)| == 0 <==> forall k :: 0 <= k < |nodes| ==> DescriptionPiece(nodes[k]).None?
    decreases |nodes|
  {
    if |nodes| > 0 {
      NoPieces(nodes[..|nodes| - 1]);
      assert forall k :: 0 <= k < |nodes| - 1 ==> nodes[..|nodes| - 1][k] == nodes[k];
    }
  }

  /** One more piece on the description being built: the piece alone, or appended. */
  function AddPiece(prev: Option<string>, piece: Option<string>): Option<string>
  {
    if piece.None? then prev else if prev.None? then piece else Some(prev.value + piece.value)
  }

  /** The description the loop of `xml_get_babel_story_description` builds. */
  function PiecesText(nodes: seq<XmlNode>): Option<string>
  {
    if |nodes| == 0 then None
    else AddPiece(PiecesText(nodes[..|nodes| - 1]), DescriptionPiece(nodes[|nodes| - 1]))
  }

  /**
   * The description is its pieces run together, with nothing between
   * them, and absent exactly when there are no pieces.
   */
  lemma {:induction false} PiecesJoin(nodes: seq<XmlNode>)
    ensures PiecesText(nodes) == if |DescriptionPieces(nodes)| == 0 then None else Some(Concat(DescriptionPieces(nodes)))
    decreases |nodes|
  {
    if |nodes| > 0 {
      var prefix := nodes[..|nodes| - 1];
      PiecesJoin(prefix);
      var pieces := DescriptionPieces(prefix);
      var piece := DescriptionPiece(nodes[|nodes| - 1]);
      assert PiecesText(nodes) == AddPiece(PiecesText(prefix), piece);
      assert DescriptionPieces(nodes) == pieces + Opt(piece);
      if piece.Some? {
        ConcatSnoc(pieces, piece.value);
      } else {
        assert pieces + [] == pieces;
      }
    }
  }

  lemma ConcatSnoc(parts: seq<string>, x: string)
    ensures Concat(parts + [x]) == Concat(parts) + x
    ensures |parts| == 0 ==> Concat(parts + [x]) == x
  {
    assert (parts + [x])[..|parts|] == parts;
    if |parts| == 0 {
      assert Concat(parts) + x == x;
    }
  }

  /** The description element of a story: `bibliographic`'s first `description` child. */
  function DescriptionNode(n: XmlNode): Option<XmlNode>
  {
    var b := ChildNamed(n, "bibliographic", None);
    if b.None? then None else ChildNamed(b.value, "description", None)
  }

  /**
   * The raw description of a story, converted to ISO-8859-1: its text
   * nodes with each `br` element written as "<br/>", for normalisation
   * to turn into a newline.
   */
  function StoryDescription(n: XmlNode): Option<string>
  {
    var d := DescriptionNode(n);
    if d.None? then None else IsoOpt(PiecesText(Children(d.value)))
  }

  /** `xml_get_babel_story_description` */
  method GetStoryDescription(n: XmlNode) returns (description: Option<string>)
    ensures description == StoryDescription(n)
  {
    description := None;
    var first := FindChild(n, "bibliographic", None);
    if first.Some? {
      var b := Children(n)[first.value];
      var second := FindChild(b, "description", None);
      if second.Some? {
        var d := Children(b)[second.value];
        var children := Children(d);
        var property: Option<string> := None;
        assert children[..0] == [];
        for i := 0 to |children|
          invariant property == PiecesText(children[..i])
        {
          assert children[..i + 1][..i] == children[..i];
          var content := DescriptionPiece(children[i]);
          if content.Some? {
            if property.Some? {
              property := Some(property.value + content.value);
            } else {
              property := Some(content.value);
            }
          }
        }
        assert children[..|children|] == children;
        if property.Some? {
          description := Some(Utf8ToIso8859(property.value));
        }
      }
    }
  }

  // ---------------------------------------------------------------------
  // Stories
  // ---------------------------------------------------------------------

  /** What the annotation table sets, when the story has an annotation element. */
  function GameboxVars(n: XmlNode): Option<map<Field, string>>
  {
    var a := ChildNamed(n, "annotation", None);
    if a.None? then None else Some(Assign(BabelFound(a.value, GameboxBindings)))
  }

  /**
   * A story's location: `annotation/gamebox/about`, or else the download
   * base followed by the IFID; nothing when there is neither.
   */
  function StoryAbout(n: XmlNode, download: string): Option<string>
  {
    var g := GameboxVars(n);
    var about := if g.Some? then Get(g.value, About) else None;
    var ifid := Get(StoryVars(n), Ifid);
    if about.None? && ifid.Some? then Some(download + ifid.value) else about
  }

  /** The author, except that one written "Anonymous" in any case is no author. */
  function StoryAuthor(v: map<Field, string>): (r: Option<string>)
    ensures r.Some? <==> Get(v, Author).Some? && !EqualsIgnoreCase(Get(v, Author).value, "Anonymous")
    ensures r.Some? ==> r == Get(v, Author)
  {
    var a := Get(v, Author);
    if a.Some? && EqualsIgnoreCase(a.value, "Anonymous") then None else a
  }

  /** The game a story adds, given the id it will take: one only when it has a location. */
  function StoryGame(n: XmlNode, download: string, id: nat): Option<Game>
  {
    var about := StoryAbout(n, download);
    var v := StoryVars(n);
    var title := Get(v, Title);
    var desc := StoryDescription(n);
    if about.None? then None
    else Some(Game(about.value, if title.Some? then title.value else UnknownGame,
                   Details(StoryAuthor(v), None, if desc.Some? then Some(Normalized(desc.value)) else None,
                           Get(v, Genre), Get(v, Headline), None, Get(v, Publisher),
                           Get(v, ReleaseDate), Get(v, Version)),
                   id))
  }

  /** The group a story joins: `annotation/gamebox/group`, and none without an annotation. */
  function StoryGroup(n: XmlNode): Option<string>
  {
    var g := GameboxVars(n);
    if g.Some? then Get(g.value, GroupName) else None
  }

  /** The `group` variable as the C code leaves it: never assigned when there is no annotation. */
  datatype Slot = Unset | Set(value: Option<string>)

  function StoryGroupAsWritten(n: XmlNode): Slot
  {
    var g := GameboxVars(n);
    if g.Some? then Set(Get(g.value, GroupName)) else Unset
  }

  /**
   * A story with an IFID and no annotation element still adds its game,
   * and the C code then tests `group`, which nothing has assigned.  The
   * corrected reading takes the group to be absent.
   */
  lemma UnannotatedStoryReadsUnsetGroup(n: XmlNode, download: string, id: nat)
    requires FirstMatch(Children(n), "annotation", None).None?
    requires StoryProperty(n, "identification", "ifid").Some?
    ensures StoryGame(n, download, id).Some?
    ensures StoryGame(n, download, id).value.about == download + StoryProperty(n, "identification", "ifid").value
    ensures StoryGroupAsWritten(n) == Unset
    ensures StoryGroup(n) == None
  {
    StoryIfid(n);
  }

  /** Wherever the C code does assign `group`, the corrected reading agrees with it. */
  lemma AnnotatedStoryGroup(n: XmlNode)
    requires FirstMatch(Children(n), "annotation", None).Some?
    ensures StoryGroupAsWritten(n) == Set(StoryGroup(n))
    ensures StoryGroup(n) == StoryProperty(FirstChildOrNone(n, "annotation"), "gamebox", "group")
  {
    GameboxRows(FirstChildOrNone(n, "annotation"));
  }

  /**
   * A story adds a game exactly when the annotation gives a location or
   * the story has an IFID; the annotation's location comes first.
   */
  lemma StoryGameLocation(n: XmlNode, download: string, id: nat)
    ensures var ifid := StoryProperty(n, "identification", "ifid");
      var annotated := if GameboxVars(n).Some? then StoryProperty(FirstChildOrNone(n, "annotation"), "gamebox", "about") else None;
      && (StoryGame(n, download, id).Some? <==> annotated.Some? || ifid.Some?)
      && (annotated.Some? ==> StoryGame(n, download, id).value.about == annotated.value)
      && (annotated.None? && ifid.Some? ==> StoryGame(n, download, id).value.about == download + ifid.value)
  {
    StoryIfid(n);
    if GameboxVars(n).Some? {
      GameboxRows(FirstChildOrNone(n, "annotation"));
    }
  }

  /**
   * The game's id is the one given, its title "[Unknown Game]" when the
   * story has none, and it has no byline and no length.
   */
  lemma StoryGameTitle(n: XmlNode, download: string, id: nat)
    requires StoryGame(n, download, id).Some?
    ensures var g := StoryGame(n, download, id).value;
      var title := StoryProperty(n, "bibliographic", "title");
      g.id == id && g.title == (if title.Some? then title.value else UnknownGame)
      && g.details.byline.None? && g.details.length.None?
  {
    StoryTitle(n);
  }

  /** The release date and version are those of the latest row that has one. */
  lemma StoryGameRelease(n: XmlNode, download: string, id: nat)
    requires StoryGame(n, download, id).Some?
    ensures StoryGame(n, download, id).value.details.releaseDate == StoryReleaseDate(n)
    ensures StoryGame(n, download, id).value.details.version == StoryVersion(n)
  {
    StoryReleaseDateRows(n);
    StoryVersionRows(n);
  }

  /** A story's description, when it has one, is the normalised form of its raw text. */
  lemma StoryDescriptionNormalized(n: XmlNode, download: string, id: nat)
    requires StoryGame(n, download, id).Some?
    ensures StoryGame(n, download, id).value.details.description.Some? <==> StoryDescription(n).Some?
    ensures StoryDescription(n).Some? ==>
      var d := StoryGame(n, download, id).value.details.description.value;
      d == Normalized(StoryDescription(n).value) && NoDoubleSpace(d)
      && (|d| > 0 ==> d[0] != ' ' && d[|d| - 1] != ' ')
  {
    if StoryDescription(n).Some? {
      NormalizedShape(StoryDescription(n).value);
    }
  }

  /**
   * The groups after a story: when it adds a game and names a group, the
   * newest group of that name, made empty and titled by its name when
   * there is none, gains the new game.
   */
  function StoryGroups(groups: seq<Group>, game: Option<Game>, name: Option<string>): (r: seq<Group>)
    ensures |r| >= |groups|
    ensures SameAbouts(groups, r[..|groups|])
  {
    if game.None? || name.None? then groups
    else
      var found := LatestGroup(groups, name.value);
      var all := if found.Some? then groups else groups + [Group(name.value, name.value, None, [], |groups|)];
      var g := if found.Some? then found.value else |groups|;
      all[g := all[g].(contents := all[g].contents + [GameNode(game.value.id)])]
  }

  /**
   * A story that joins a group adds at most one group; the newest group of
   * its name then holds the new game last, and every other group is as
   * it was.
   */
  lemma StoryJoinsGroup(groups: seq<Group>, game: Game, name: string)
    ensures var r := StoryGroups(groups, Some(game), Some(name));
      var g := LatestGroup(r, name);
      |r| == |groups| + (if LatestGroup(groups, name).Some? then 0 else 1)
      && g.Some? && |r[g.value].contents| > 0 && r[g.value].contents[|r[g.value].contents| - 1] == GameNode(game.id)
      && (forall k :: 0 <= k < |groups| && k != g.value ==> r[k] == groups[k])
  {
    var r := StoryGroups(groups, Some(game), Some(name));
    var found := LatestGroup(groups, name);
    if found.Some? {
      LatestGroupIgnoresContents(groups, found.value, groups[found.value].contents + [GameNode(game.id)], name);
    } else {
      LatestGroupIs(r, name, |groups|);
    }
  }

  /**
   * `xml_parse_babel_story_element`: add the story's game, if it has a
   * location, and put it in the group the annotation names, making that
   * group when it does not exist.
   */
  method ParseStory(n: XmlNode, download: string, gs: GameSet, reg: Registry)
    requires gs.Valid() && reg.Valid()
    modifies gs, reg
    ensures gs.Valid() && reg.Valid() && reg.root == old(reg.root)
    ensures gs.games == old(gs.games) + Opt(StoryGame(n, download, |old(gs.games)|))
    ensures reg.groups == StoryGroups(old(reg.groups), StoryGame(n, download, |old(gs.games)|), StoryGroup(n))
  {
    var values, description, about, group := ReadStory(n, download);
    if about.Some? {
      var game := AddStoryGame(n, download, about.value, values, description, gs);
      if group.Some? {
        JoinGroup(group.value, game, gs, reg);
      }
    } else {
      assert StoryGame(n, download, |gs.games|) == None;
      assert gs.games + [] == gs.games;
    }
  }

  /** The reading half of a story: its table, its description, its location and its group. */
  method ReadStory(n: XmlNode, download: string)
    returns (values: map<Field, string>, description: Option<string>, about: Option<string>, group: Option<string>)
    ensures values == StoryVars(n) && description == StoryDescription(n)
    ensures about == StoryAbout(n, download) && group == StoryGroup(n)
  {
    values := BabelProperties(n, StoryBindings);
    description := GetStoryDescription(n);
    about, group := ReadAnnotation(n);
    if about.None? && Ifid in values {
      about := Some(download + values[Ifid]);
    }
  }

  /** The annotation's location and group; both NULL without an annotation. */
  method ReadAnnotation(n: XmlNode) returns (about: Option<string>, group: Option<string>)
    ensures GameboxVars(n).None? ==> about.None? && group.None?
    ensures GameboxVars(n).Some? ==> about == Get(GameboxVars(n).value, About)
    ensures group == StoryGroup(n)
  {
    var annotation := FindChild(n, "annotation", None);
    about := None;
    group := None;
    if annotation.Some? {
      var gamebox := BabelProperties(Children(n)[annotation.value], GameboxBindings);
      about := Get(gamebox, About);
      group := Get(gamebox, GroupName);
    }
  }

  /** The game step of a story with a location: defaults, normalisation, then the game set. */
  method AddStoryGame(n: XmlNode, download: string, about: string, values: map<Field, string>,
                      description: Option<string>, gs: GameSet) returns (game: Game)
    requires gs.Valid() && values == StoryVars(n) && description == StoryDescription(n)
    requires StoryAbout(n, download) == Some(about)
    modifies gs
    ensures gs.Valid() && Some(game) == StoryGame(n, download, |old(gs.games)|)
    ensures gs.games == old(gs.games) + [game]
  {
    var title := if Title in values then values[Title] else UnknownGame;
    var desc: Option<string> := None;
    if description.Some? {
      var d := NormalizeDescription(description.value);
      desc := Some(d);
    }
    var author := Get(values, Author);
    if author.Some? {
      CaseCompareZero(author.value, "Anonymous");
      if CaseCompare(author.value, "Anonymous") == 0 {
        author := None;
      }
    }
    assert author == StoryAuthor(values);
    game := gs.AddGame(about, title,
      Details(author, None, desc, Get(values, Genre), Get(values, Headline), None,
              Get(values, Publisher), Get(values, ReleaseDate), Get(values, Version)));
  }

  /** The group step of a story: find or make the group, then add the game just added. */
  method JoinGroup(name: string, game: Game, gs: GameSet, reg: Registry)
    requires gs.Valid() && reg.Valid() && |gs.games| > 0 && gs.games[|gs.games| - 1] == game
    modifies reg
    ensures reg.Valid() && reg.root == old(reg.root)
    ensures reg.groups == StoryGroups(old(reg.groups), Some(game), Some(name))
  {
    var g := reg.FindGroup(name);
    if g.None? {
      var index := reg.AddGroup(name, name, None);
      g := Some(index);
    }
    assert Latest(gs.games, game.about) == Some(|gs.games| - 1);
    var added := reg.AddGameToGroup(g.value, game.about, gs);
  }

  // ---------------------------------------------------------------------
  // The ifindex root
  // ---------------------------------------------------------------------

  /** The base URL for IFIDs: `GAMEBOX_BABEL_URL` when set, else the Babel archive. */
  function Download(env: Option<string>): string
  {
    if env.Some? then env.value else DefaultDownload
  }

  /** The game set and the groups after the story elements among `nodes`, in order. */
  function BabelState(nodes: seq<XmlNode>, download: string, games: seq<Game>, groups: seq<Group>): (r: (seq<Game>, seq<Group>))
  {
    if |nodes| == 0 then (games, groups)
    else
      var prev := BabelState(nodes[..|nodes| - 1], download, games, groups);
      var last := nodes[|nodes| - 1];
      if Matches(last, "story", None) then StoryStep(last, download, prev)
      else prev
  }

  function StoryStep(n: XmlNode, download: string, state: (seq<Game>, seq<Group>)): (seq<Game>, seq<Group>)
  {
    var game := StoryGame(n, download, |state.0|);
    (state.0 + Opt(game), StoryGroups(state.1, game, StoryGroup(n)))
  }

  /** The games the story elements among `nodes` add, ids counted from `first`. */
  function BabelGames(nodes: seq<XmlNode>, download: string, first: nat): (r: seq<Game>)
  {
    if |nodes| == 0 then []
    else
      var prev := BabelGames(nodes[..|nodes| - 1], download, first);
      var last := nodes[|nodes| - 1];
      prev + (if Matches(last, "story", None) then Opt(StoryGame(last, download, first + |prev|)) else [])
  }

  /**
   * The games do not depend on the groups: the game set after an ifindex
   * root is the games before it followed by those its stories add.
   */
  lemma {:induction false} BabelGamesOnly(nodes: seq<XmlNode>, download: string, games: seq<Game>, groups: seq<Group>)
    ensures BabelState(nodes, download, games, groups).0 == games + BabelGames(nodes, download, |games|)
    decreases |nodes|
  {
    if |nodes| > 0 {
      var prefix := nodes[..|nodes| - 1];
      BabelGamesOnly(prefix, download, games, groups);
      var prev := BabelGames(prefix, download, |games|);
      var last := nodes[|nodes| - 1];
      var state := BabelState(prefix, download, games, groups);
      assert state.0 == games + prev;
      if Matches(last, "story", None) {
        var added := Opt(StoryGame(last, download, |games| + |prev|));
        assert BabelGames(nodes, download, |games|) == prev + added;
        StoryStepGames(last, download, state);
        assert BabelState(nodes, download, games, groups) == StoryStep(last, download, state);
        Associative(games, prev, added);
      } else {
        assert BabelGames(nodes, download, |games|) == prev + [];
        assert prev + [] == prev;
      }
    } else {
      assert games + [] == games;
    }
  }

  lemma StoryStepGames(n: XmlNode, download: string, state: (seq<Game>, seq<Group>))
    ensures StoryStep(n, download, state).0 == state.0 + Opt(StoryGame(n, download, |state.0|))
  {
  }

  /** The games a root adds take consecutive ids from the first free one. */
  lemma {:induction false} BabelGameIds(nodes: seq<XmlNode>, download: string, first: nat)
    ensures forall k :: 0 <= k < |BabelGames(nodes, download, first)| ==>
      BabelGames(nodes, download, first)[k].id == first + k
    decreases |nodes|
  {
    if |nodes| > 0 {
      BabelGameIds(nodes[..|nodes| - 1], download, first);
    }
  }

  /** Stories never change an existing group's location. */
  lemma {:induction false} BabelKeepsGroups(nodes: seq<XmlNode>, download: string, games: seq<Game>, groups: seq<Group>)
    ensures var after := BabelState(nodes, download, games, groups).1;
      |after| >= |groups| && SameAbouts(groups, after[..|groups|])
    decreases |nodes|
  {
    if |nodes| > 0 {
      var prefix := nodes[..|nodes| - 1];
      BabelKeepsGroups(prefix, download, games, groups);
      var prev := BabelState(prefix, download, games, groups);
      var last := nodes[|nodes| - 1];
      if Matches(last, "story", None) {
        var after := StoryStep(last, download, prev).1;
        assert after[..|prev.1|][..|groups|] == after[..|groups|];
      }
    }
  }

  /** `xml_parse_babel_root_element`, given the value of `GAMEBOX_BABEL_URL`. */
  method ParseBabelRoot(root: XmlNode, env: Option<string>, gs: GameSet, reg: Registry)
    requires gs.Valid() && reg.Valid()
    modifies gs, reg
    ensures gs.Valid() && reg.Valid() && reg.root == old(reg.root)
    ensures (gs.games, reg.groups) == BabelState(Children(root), Download(env), old(gs.games), old(reg.groups))
  {
    var download := if env.Some? then env.value else DefaultDownload;
    var children := Children(root);
    ghost var games := gs.games;
    ghost var groups := reg.groups;
    for i := 0 to |children|
      invariant gs.Valid() && reg.Valid() && reg.root == old(reg.root)
      invariant (gs.games, reg.groups) == BabelState(children[..i], download, games, groups)
    {
      assert children[..i + 1][..i] == children[..i];
      if Matches(children[i], "story", None) {
        ParseStory(children[i], download, gs, reg);
      }
    }
    assert children[..|children|] == children;
  }

  // ---------------------------------------------------------------------
  // Telling the catalogs apart
  // ---------------------------------------------------------------------

  datatype Kind = RdfCatalog | BabelCatalog | NotCatalog

  /** An RDF:RDF root makes an IFMES catalog, an iFiction ifindex root an iFiction one. */
  function RootKind(root: XmlNode): Kind
  {
    if Matches(root, "RDF", RdfNs) then RdfCatalog
    else if Matches(root, "ifindex", BabelNs) then BabelCatalog
    else NotCatalog
  }

  /**
   * `xml_parse_file`, given the document libxml2 built (nothing when the
   * file does not parse) and the value of `GAMEBOX_BABEL_URL`: a catalog
   * is read by its root's handler; anything else changes nothing.
   */
  method ParseFile(doc: Option<XmlNode>, env: Option<string>, gs: GameSet, reg: Registry) returns (ok: bool)
    requires gs.Valid() && reg.Valid()
    modifies gs, reg
    ensures gs.Valid() && reg.Valid() && reg.root == old(reg.root)
    ensures ok <==> doc.Some? && RootKind(doc.value) != NotCatalog
    ensures !ok ==> gs.games == old(gs.games) && reg.groups == old(reg.groups)
    ensures ok && RootKind(doc.value) == RdfCatalog ==>
      var cs := RdfContainers(Children(doc.value), Children(doc.value), |old(reg.groups)|);
      gs.games == old(gs.games) + RdfGames(Children(doc.value), |old(gs.games)|)
      && reg.groups == Filled(old(reg.groups) + GroupsOf(cs), PairsOf(cs, |old(reg.groups)|), gs.games)
    ensures ok && RootKind(doc.value) == BabelCatalog ==>
      (gs.games, reg.groups) == BabelState(Children(doc.value), Download(env), old(gs.games), old(reg.groups))
  {
    if doc.None? {
      return false;
    }
    var root := doc.value;
    if Matches(root, "RDF", RdfNs) {
      ParseRdfRoot(root, gs, reg);
      return true;
    } else if Matches(root, "ifindex", BabelNs) {
      ParseBabelRoot(root, env, gs, reg);
      return true;
    }
    return false;
  }
}
