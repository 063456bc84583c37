/**
 * IFP's configuration file.  Its parser is the INI parser of `IniFile`
 * line for line (the same comment, section and pair classifiers, the same
 * case-insensitive tables, `[DEFAULT]` for the global table, and failure
 * on any unrecognised line), so this module reuses it.  What is new is
 * handling a parsed configuration: four global settings go to other
 * modules, and every section `[engine-version]` with an `options` property
 * registers each space-separated option as a preference for that engine.
 */
module IfpConfig {
  import opened Text
  import opened IniFile
  import opened IfpUtils
  import opened IfpPref

  /**
   * `ifp_config_parse`: `NULL` exactly when some line is neither a comment,
   * a section header nor a pair; otherwise the parsed document.
   */
  method ParseConfig(lines: seq<string>) returns (config: IniDoc?)
    ensures config == null <==> exists k :: 0 <= k < |lines| && !IsRecognised(lines[k])
    ensures config != null ==> fresh(config) && Parse(lines) == Some(config.Value())
  {
    ParseFails(lines);
    config := ParseDocument(lines);
  }

  /**
   * The in-place split of a section name in `ifp_config_handle`: `strchr`
   * finds the first `-`, which is overwritten by a NUL so that the text
   * before it is the engine name and the text after it the version.
   * Without a `-` the version is `NULL`, a wildcard.
   */
  method SplitSectionName(sectionName: string) returns (engineName: string, engineVersion: Option<string>)
    ensures engineVersion.None? <==> '-' !in sectionName
    ensures engineVersion.None? ==> engineName == sectionName
    ensures engineVersion.Some? ==> engineName + "-" + engineVersion.value == sectionName
    ensures '-' !in engineName
  {
    var k := 0;
    while k < |sectionName| && sectionName[k] != '-'
      invariant k <= |sectionName|
      invariant '-' !in sectionName[..k]
    {
      assert sectionName[..k + 1] == sectionName[..k] + [sectionName[k]];
      k := k + 1;
    }
    if k == |sectionName| {
      assert sectionName[..k] == sectionName;
      engineName, engineVersion := sectionName, None;
    } else {
      engineName, engineVersion := sectionName[..k], Some(sectionName[k + 1..]);
      assert sectionName == sectionName[..k] + [sectionName[k]] + sectionName[k + 1..];
    }
  }

  /** The engine name and version a section stands for. */
  function EngineOf(sectionName: string): (string, Option<string>)
  {
    match IndexOf(sectionName, '-') {
      case None => (sectionName, None)
      case Some(k) => (sectionName[..k], Some(sectionName[k + 1..]))
    }
  }

  /** The split of the handler is the one `EngineOf` describes. */
  lemma SplitIsEngineOf(sectionName: string, engineName: string, engineVersion: Option<string>)
    requires engineVersion.None? <==> '-' !in sectionName
    requires engineVersion.None? ==> engineName == sectionName
    requires engineVersion.Some? ==> engineName + "-" + engineVersion.value == sectionName
    requires '-' !in engineName
    ensures EngineOf(sectionName) == (engineName, engineVersion)
  {
    if engineVersion.Some? {
      var k := |engineName|;
      assert sectionName[k] == '-';
      assert sectionName[..k] == engineName;
      assert sectionName[k + 1..] == engineVersion.value;
      IndexOfIs(sectionName, '-', k);
    }
  }

  /** The preference requests of one section, in option order. */
  function SectionRequests(section: Section): seq<Entry>
  {
    match Lookup(section.pairs, "options") {
      case None => []
      case Some(options) =>
        var (engineName, engineVersion) := EngineOf(section.name);
        Requests(engineName, engineVersion, Split(options, ' '))
    }
  }

  function Requests(engineName: string, engineVersion: Option<string>, options: seq<string>): (r: seq<Entry>)
    ensures |r| == |options|
    ensures forall k :: 0 <= k < |r| ==> r[k] == Entry(Some(engineName), engineVersion, options[k])
  {
    seq(|options|, k requires 0 <= k < |options| => Entry(Some(engineName), engineVersion, options[k]))
  }

  /** The preference requests of a configuration, section by section. */
  function AllRequests(sections: seq<Section>): seq<Entry>
  {
    if |sections| == 0 then []
    else AllRequests(sections[..|sections| - 1]) + SectionRequests(sections[|sections| - 1])
  }

  /** The list after one registration, accepted or not. */
  function Registered(entries: seq<Entry>, readonly: bool, request: Entry): seq<Entry>
  {
    if !readonly && forall e :: e in entries ==> !MatchEntry(e, request.name, request.version, Some(request.preference))
    then entries + [request]
    else entries
  }

  /** The list after a run of registrations. */
  function RegisteredAll(entries: seq<Entry>, readonly: bool, requests: seq<Entry>): seq<Entry>
  {
    if |requests| == 0 then entries
    else Registered(RegisteredAll(entries, readonly, requests[..|requests| - 1]), readonly, requests[|requests| - 1])
  }

  /** A locked list takes no registrations. */
  lemma {:induction false} ReadonlyUnchanged(entries: seq<Entry>, requests: seq<Entry>)
    ensures RegisteredAll(entries, true, requests) == entries
  {
    if |requests| > 0 {
      ReadonlyUnchanged(entries, requests[..|requests| - 1]);
    }
  }

  /** Registering only appends: the list before is a prefix of the list after. */
  lemma {:induction false} RegisteredAllExtends(entries: seq<Entry>, readonly: bool, requests: seq<Entry>)
    ensures |entries| <= |RegisteredAll(entries, readonly, requests)|
    ensures RegisteredAll(entries, readonly, requests)[..|entries|] == entries
  {
    if |requests| > 0 {
      RegisteredAllExtends(entries, readonly, requests[..|requests| - 1]);
    }
  }

  /**
   * After an unlocked list has taken a run of registrations, every request
   * is matched by some entry: it was either added or already present.
   */
  lemma {:induction false} RegisteredAllCovers(entries: seq<Entry>, requests: seq<Entry>, k: nat)
    requires k < |requests|
    ensures exists e :: (e in RegisteredAll(entries, false, requests) &&
                         MatchEntry(e, requests[k].name, requests[k].version, Some(requests[k].preference)))
  {
    var front := requests[..|requests| - 1];
    var r := requests[|requests| - 1];
    var before := RegisteredAll(entries, false, front);
    if k < |requests| - 1 {
      RegisteredAllCovers(entries, front, k);
      var e :| e in before && MatchEntry(e, front[k].name, front[k].version, Some(front[k].preference));
      assert e in RegisteredAll(entries, false, requests);
    } else if forall e :: e in before ==> !MatchEntry(e, r.name, r.version, Some(r.preference)) {
      MatchesItself(r);
      assert r in RegisteredAll(entries, false, requests);
    }
  }

  /** The values `ifp_config_handle` passes to other modules, `None` when a global is unset. */
  datatype Settings = Settings(pluginPath: Option<string>, glkLibraries: Option<string>,
                               cacheLimit: Option<int>, urlTimeout: Option<int>)

  /** The global settings of a configuration; `atoi` is the C library's conversion. */
  function SettingsOf(globals: seq<Pair>, atoi: string -> int): (r: Settings)
    ensures r.pluginPath == Lookup(globals, "plugin_path")
    ensures r.glkLibraries == Lookup(globals, "glk_libraries")
    ensures r.cacheLimit.Some? <==> Lookup(globals, "cache_limit").Some?
    ensures r.cacheLimit.Some? ==> r.cacheLimit.value == atoi(Lookup(globals, "cache_limit").value)
    ensures r.urlTimeout.Some? <==> Lookup(globals, "url_timeout").Some?
    ensures r.urlTimeout.Some? ==> r.urlTimeout.value == atoi(Lookup(globals, "url_timeout").value)
  {
    var cache := Lookup(globals, "cache_limit");
    var timeout := Lookup(globals, "url_timeout");
    Settings(Lookup(globals, "plugin_path"), Lookup(globals, "glk_libraries"),
             if cache.Some? then Some(atoi(cache.value)) else None,
             if timeout.Some? then Some(atoi(timeout.value)) else None)
  }

  /**
   * `ifp_config_handle`: read the four global settings, then, section by
   * section, split the `options` value on spaces and register each piece
   * for the section's engine name and version.  Refused registrations
   * (duplicates, or a locked list) are ignored.
   */
  method Handle(config: IniDoc, prefs: Prefs, atoi: string -> int) returns (settings: Settings)
    modifies prefs
    ensures settings == SettingsOf(config.globals, atoi)
    ensures prefs.readonly == old(prefs.readonly)
    ensures prefs.entries == RegisteredAll(old(prefs.entries), old(prefs.readonly), AllRequests(config.sections))
  {
    settings := SettingsOf(config.globals, atoi);
    var sections := config.sections;
    for i := 0 to |sections|
      invariant prefs.readonly == old(prefs.readonly)
      invariant prefs.entries == RegisteredAll(old(prefs.entries), old(prefs.readonly), AllRequests(sections[..i]))
    {
      assert sections[..i + 1][..i] == sections[..i];
      HandleSection(sections[i], prefs);
      RegisteredAllAppend(old(prefs.entries), old(prefs.readonly), AllRequests(sections[..i]), SectionRequests(sections[i]));
    }
    assert sections[..|sections|] == sections;
  }

  /** One section of `ifp_config_handle`. */
  method HandleSection(section: Section, prefs: Prefs)
    modifies prefs
    ensures prefs.readonly == old(prefs.readonly)
    ensures prefs.entries == RegisteredAll(old(prefs.entries), old(prefs.readonly), SectionRequests(section))
  {
    var engineName, engineVersion := SplitSectionName(section.name);
    SplitIsEngineOf(section.name, engineName, engineVersion);
    var options := Lookup(section.pairs, "options");
    if options.Some? {
      var count, elements := SplitString(options.value, ' ');
      RegisterAll(prefs, Requests(engineName, engineVersion, elements));
    }
  }

  /** The registration loop over the pieces of an `options` value. */
  method RegisterAll(prefs: Prefs, requests: seq<Entry>)
    modifies prefs
    ensures prefs.readonly == old(prefs.readonly)
    ensures prefs.entries == RegisteredAll(old(prefs.entries), old(prefs.readonly), requests)
  {
    for k := 0 to |requests|
      invariant prefs.readonly == old(prefs.readonly)
      invariant prefs.entries == RegisteredAll(old(prefs.entries), old(prefs.readonly), requests[..k])
    {
      assert requests[..k + 1][..k] == requests[..k];
      var request := requests[k];
      var _ := prefs.Register(request.name, request.version, Some(request.preference));
    }
    assert requests[..|requests|] == requests;
  }

  /** Registering two runs one after the other is registering their concatenation. */
  lemma {:induction false} RegisteredAllAppend(entries: seq<Entry>, readonly: bool, a: seq<Entry>, b: seq<Entry>)
    ensures RegisteredAll(RegisteredAll(entries, readonly, a), readonly, b) == RegisteredAll(entries, readonly, a + b)
  {
    if |b| > 0 {
      RegisteredAllAppend(entries, readonly, a, b[..|b| - 1]);
      assert (a + b)[..|a + b| - 1] == a + b[..|b| - 1];
    } else {
      assert a + b == a;
    }
  }
}
