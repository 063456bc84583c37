/**
 * Gamebox's INI catalog reader: every section of a parsed INI document
 * becomes one game of the game set, in section order.  Property values are
 * taken as ISO-8859-1 when the global `encoding` says so, and are converted
 * from UTF-8 otherwise.
 */
module IniParser {
  import opened Text
  import opened Utf
  import opened IniFile
  import opened GameSets

  /** The properties bound to game fields, in binding order. */
  const Names: seq<string> :=
    ["about", "author", "byline", "desc", "genre", "headline",
     "length", "publisher", "releasedate", "title", "version"]

  const UnknownTitle := "[Unknown Game]"

  /** One bound property: absent, copied as is, or converted from UTF-8. */
  function Property(pairs: seq<Pair>, name: string, iso: bool): (r: Option<string>)
    ensures r.None? <==> Lookup(pairs, name).None?
    ensures r.Some? && iso ==> r.value == Lookup(pairs, name).value
    ensures r.Some? && !iso ==> r.value == Utf8ToIso8859(Lookup(pairs, name).value)
  {
    match PairIndex(pairs, name) {
      case None => None
      case Some(k) => Some(if iso then pairs[k].value else Utf8ToIso8859(pairs[k].value))
    }
  }

  /** `ini_get_section_properties`: one value per binding, in binding order. */
  method GetSectionProperties(section: Section, iso: bool) returns (values: seq<Option<string>>)
    ensures |values| == |Names|
    ensures forall k :: 0 <= k < |Names| ==> values[k] == Property(section.pairs, Names[k], iso)
  {
    values := [];
    var binding := 0;
    while binding < |Names|
      invariant 0 <= binding <= |Names| && |values| == binding
      invariant forall k :: 0 <= k < binding ==> values[k] == Property(section.pairs, Names[k], iso)
    {
      var value := ReadProperty(section.pairs, Names[binding], iso);
      values := values + [value];
      binding := binding + 1;
    }
  }

  /** One row of `ini_get_section_properties`: look the property up and convert it when asked to. */
  method ReadProperty(pairs: seq<Pair>, name: string, iso: bool) returns (value: Option<string>)
    ensures value == Property(pairs, name, iso)
  {
    var found := FindPair(pairs, name);
    value := None;
    if found.Some? {
      var property := pairs[found.value].value;
      value := Some(if iso then property else Utf8ToIso8859(property));
    }
  }

  /** The game a section describes, given the id it will take. */
  function GameOf(section: Section, iso: bool, id: nat): Game
  {
    var about := Property(section.pairs, "about", iso);
    var title := Property(section.pairs, "title", iso);
    Game(if about.Some? then about.value else section.name,
         if title.Some? then title.value else UnknownTitle,
         Details(Property(section.pairs, "author", iso), Property(section.pairs, "byline", iso),
                 Property(section.pairs, "desc", iso), Property(section.pairs, "genre", iso),
                 Property(section.pairs, "headline", iso), Property(section.pairs, "length", iso),
                 Property(section.pairs, "publisher", iso), Property(section.pairs, "releasedate", iso),
                 Property(section.pairs, "version", iso)),
         id)
  }

  /**
   * A game's location falls back to the section name and its title to
   * `[Unknown Game]`; the other fields are absent exactly when their
   * property is.
   */
  lemma GameDefaults(section: Section, iso: bool, id: nat)
    ensures Lookup(section.pairs, "about").None? ==> GameOf(section, iso, id).about == section.name
    ensures Lookup(section.pairs, "title").None? ==> GameOf(section, iso, id).title == UnknownTitle
    ensures iso && Lookup(section.pairs, "about").Some? ==>
      GameOf(section, iso, id).about == Lookup(section.pairs, "about").value
    ensures iso && Lookup(section.pairs, "title").Some? ==>
      GameOf(section, iso, id).title == Lookup(section.pairs, "title").value
    ensures GameOf(section, iso, id).details.author.None? <==> Lookup(section.pairs, "author").None?
    ensures GameOf(section, iso, id).details.version.None? <==> Lookup(section.pairs, "version").None?
    ensures GameOf(section, iso, id).id == id
  {
  }

  /** `ini_parse_section`: bind the properties and add the game. */
  method ParseSection(section: Section, iso: bool, gs: GameSet)
    requires gs.Valid()
    modifies gs
    ensures gs.Valid()
    ensures gs.games == old(gs.games) + [GameOf(section, iso, |old(gs.games)|)]
  {
    var values := GetSectionProperties(section, iso);
    var about := if values[0].Some? then values[0].value else section.name;
    var title := if values[9].Some? then values[9].value else UnknownTitle;
    var details := Details(values[1], values[2], values[3], values[4], values[5],
                           values[6], values[7], values[8], values[10]);
    var game := gs.AddGame(about, title, details);
  }

  /** Whether the global `encoding` is `iso-8859-1`, compared with `strcasecmp`. */
  function IsIsoEncoded(d: Doc): (r: bool)
    ensures r <==>
      Lookup(d.globals, "encoding").Some? && EqualsIgnoreCase(Lookup(d.globals, "encoding").value, "iso-8859-1")
  {
    match Lookup(d.globals, "encoding") {
      case None => false
      case Some(e) => CaseCompareZero(e, "iso-8859-1"); CaseCompare(e, "iso-8859-1") == 0
    }
  }

  /** The games of `sections`, in order, numbered from `first`. */
  function SectionGames(sections: seq<Section>, iso: bool, first: nat): (r: seq<Game>)
    ensures |r| == |sections|
  {
    seq(|sections|, k requires 0 <= k < |sections| => GameOf(sections[k], iso, first + k))
  }

  /** The games of a whole document. */
  function DocGames(d: Doc, first: nat): seq<Game>
  {
    SectionGames(d.sections, IsIsoEncoded(d), first)
  }

  /**
   * `ini_parse_file`: a document that does not parse adds nothing;
   * otherwise each section adds one game, in section order.
   */
  method ParseFile(lines: seq<string>, gs: GameSet) returns (ok: bool)
    requires gs.Valid()
    modifies gs
    ensures gs.Valid()
    ensures ok <==> Parse(lines).Some?
    ensures !ok ==> gs.games == old(gs.games)
    ensures ok ==> gs.games == old(gs.games) + DocGames(Parse(lines).value, |old(gs.games)|)
  {
    var doc := ParseDocument(lines);
    if doc == null {
      return false;
    }
    var encoding := doc.GetGlobalPropertyValue("encoding");
    var iso := encoding.Some? && CaseCompare(encoding.value, "iso-8859-1") == 0;
    assert iso == IsIsoEncoded(doc.Value());
    AddSections(doc.sections, iso, gs);
    return true;
  }

  /** The section loop of `ini_parse_file`. */
  method AddSections(sections: seq<Section>, iso: bool, gs: GameSet)
    requires gs.Valid()
    modifies gs
    ensures gs.Valid()
    ensures gs.games == old(gs.games) + SectionGames(sections, iso, |old(gs.games)|)
  {
    ghost var start := gs.games;
    for k := 0 to |sections|
      invariant gs.Valid()
      invariant gs.games == start + SectionGames(sections[..k], iso, |start|)
    {
      SectionGamesSnoc(sections, k, iso, |start|);
      ghost var game := GameOf(sections[k], iso, |gs.games|);
      Associative(start, SectionGames(sections[..k], iso, |start|), [game]);
      ParseSection(sections[k], iso, gs);
    }
    assert sections[..|sections|] == sections;
  }

  lemma SectionGamesSnoc(sections: seq<Section>, k: nat, iso: bool, first: nat)
    requires k < |sections|
    ensures SectionGames(sections[..k + 1], iso, first) ==
      SectionGames(sections[..k], iso, first) + [GameOf(sections[k], iso, first + k)]
  {
    var a := SectionGames(sections[..k + 1], iso, first);
    var b := SectionGames(sections[..k], iso, first) + [GameOf(sections[k], iso, first + k)];
    forall j | 0 <= j < k + 1
      ensures a[j] == b[j]
    {
      assert sections[..k + 1][j] == sections[j];
      if j < k {
        assert sections[..k][j] == sections[j];
      }
    }
  }

  /** Each section yields exactly one game, and the ids run on from the games already present. */
  lemma OneGamePerSection(sections: seq<Section>, iso: bool, first: nat)
    ensures |SectionGames(sections, iso, first)| == |sections|
    ensures forall k :: 0 <= k < |sections| ==>
      SectionGames(sections, iso, first)[k].id == first + k
      && (Lookup(sections[k].pairs, "about").None? ==> SectionGames(sections, iso, first)[k].about == sections[k].name)
  {
  }
}
