/**
 * IFP's main program: choose a list of Glk libraries, load the first of
 * them that can be found, and hand the command line to the Glk library's
 * own `main`.
 *
 * A Glk library list is a `,`-separated list.  An entry with a `/` in it
 * is a path to load directly; any other entry is a library name, looked
 * for in each directory of the `:`-separated plugin path.  The search
 * stops at the first library that loads.
 *
 * What the operating system provides is a parameter: `getenv` gives the
 * environment, `listing` what `scandir` returns for a directory (`None`
 * when it fails), `verify` and `load` the Glk loader's `ifp_glk_verify_dso`
 * and `ifp_glk_load_interface`, and `glkMain` the `main` the loaded
 * library exports.
 */
module IfpMain {
  import opened Text
  import opened IfpUtils
  import IfpLoader

  /** The default Glk libraries for an X display, a terminal, and neither. */
  const DefaultXGlk := "xglk"
  const DefaultTermGlk := "glkterm"
  const DefaultDumbGlk := "cheapglk"

  /** The environment variable that overrides every other choice of Glk libraries. */
  const GlkEnvironment := "IFP_GLK_LIBRARIES"

  /**
   * `ifp_main_get_glk_libraries`: the environment variable if set, else
   * the configured list if set, else a default that depends on whether
   * `DISPLAY` or `TERM` is set.
   */
  function LibrariesOf(getenv: string -> Option<string>, configured: Option<string>): (r: string)
    ensures getenv(GlkEnvironment).Some? ==> r == getenv(GlkEnvironment).value
    ensures getenv(GlkEnvironment).None? && configured.Some? ==> r == configured.value
    ensures getenv(GlkEnvironment).None? && configured.None? ==>
              r == DefaultXGlk || r == DefaultTermGlk || r == DefaultDumbGlk
  {
    if getenv(GlkEnvironment).Some? then getenv(GlkEnvironment).value
    else if configured.Some? then configured.value
    else if getenv("DISPLAY").Some? then DefaultXGlk
    else if getenv("TERM").Some? then DefaultTermGlk
    else DefaultDumbGlk
  }

  /** The environment variable wins whatever is configured and whatever the display. */
  lemma EnvironmentOverrides(getenv: string -> Option<string>, getenv': string -> Option<string>,
                             configured: Option<string>, configured': Option<string>)
    requires getenv(GlkEnvironment).Some? && getenv(GlkEnvironment) == getenv'(GlkEnvironment)
    ensures LibrariesOf(getenv, configured) == LibrariesOf(getenv', configured')
  {
  }

  /** Without the environment variable, a configured list wins whatever the display. */
  lemma ConfiguredOverridesDefaults(getenv: string -> Option<string>, getenv': string -> Option<string>,
                                    configured: string)
    requires getenv(GlkEnvironment).None? && getenv'(GlkEnvironment).None?
    ensures LibrariesOf(getenv, Some(configured)) == LibrariesOf(getenv', Some(configured)) == configured
  {
  }

  /** `ifp_glk_libraries`, the list the configuration file sets. */
  class GlkSetting {
    var configured: Option<string>

    constructor ()
      ensures configured == None
    {
      configured := None;
    }

    /** `ifp_main_set_glk_libraries`: replace the configured list; `None` unsets it. */
    method Set(libraries: Option<string>)
      modifies this
      ensures configured == libraries
    {
      configured := libraries;
    }

    /** `ifp_main_get_glk_libraries` against the configured list. */
    method Get(getenv: string -> Option<string>) returns (libraries: string)
      ensures libraries == LibrariesOf(getenv, configured)
    {
      var env := getenv(GlkEnvironment);
      if env.Some? {
        return env.value;
      }
      if configured.Some? {
        return configured.value;
      }
      if getenv("DISPLAY").Some? {
        libraries := DefaultXGlk;
      } else if getenv("TERM").Some? {
        libraries := DefaultTermGlk;
      } else {
        libraries := DefaultDumbGlk;
      }
    }
  }

  /**
   * `ifp_main_glk_library_matches_filename`: the file name is the library
   * name exactly, or what comes before its first `.` is the library name,
   * with or without a leading `lib`.
   */
  predicate MatchesFilename(library: string, filename: string)
  {
    filename == library ||
    match IndexOf(filename, '.') {
      case None => false
      case Some(e) =>
        (|library| == e && filename[..e] == library) ||
        (IsPrefix("lib", filename) && |library| == e - 3 && filename[3..e] == library)
    }
  }

  /**
   * The match as a prefix rule: apart from an exact match, a library name
   * free of dots matches a file named after it, or after it with `lib` in
   * front, followed by a `.` and anything.
   */
  lemma MatchesAsPrefix(library: string, filename: string)
    ensures MatchesFilename(library, filename) <==>
              filename == library ||
              ('.' !in library && (IsPrefix(library + ".", filename) || IsPrefix("lib" + library + ".", filename)))
  {
    if '.' !in library && IsPrefix(library + ".", filename) {
      NamedAfter(library, filename);
    }
    if '.' !in library && IsPrefix("lib" + library + ".", filename) {
      NamedAfterWithLib(library, filename);
    }
    if MatchesFilename(library, filename) && filename != library {
      var n := |library|;
      var e := IndexOf(filename, '.').value;
      if |library| == e && filename[..e] == library {
        assert filename[..n + 1] == library + ".";
      } else {
        assert filename[..e] == "lib" + library;
        assert filename[..n + 4] == "lib" + library + ".";
      }
    }
  }

  lemma NamedAfter(library: string, filename: string)
    requires '.' !in library && IsPrefix(library + ".", filename)
    ensures MatchesFilename(library, filename)
  {
    var n := |library|;
    assert filename[n] == '.' && filename[..n] == library;
    IndexOfIs(filename, '.', n);
  }

  lemma NamedAfterWithLib(library: string, filename: string)
    requires '.' !in library && IsPrefix("lib" + library + ".", filename)
    ensures MatchesFilename(library, filename)
  {
    var n := |library|;
    assert filename[n + 3] == '.' && filename[..n + 3] == "lib" + library;
    assert filename[3..n + 3] == library;
    IndexOfIs(filename, '.', n + 3);
  }

  /** `s` holds `p` from some position on: whether `strstr` finds it. */
  predicate Contains(s: string, p: string)
    decreases |s|
  {
    IsPrefix(p, s) || (|s| > 0 && Contains(s[1..], p))
  }

  /** An occurrence at any position is found. */
  lemma {:induction false} ContainsAt(s: string, p: string, i: nat)
    requires i <= |s| && IsPrefix(p, s[i..])
    ensures Contains(s, p)
  {
    if i > 0 {
      assert s[1..][i - 1..] == s[i..];
      ContainsAt(s[1..], p, i - 1);
    }
  }

  /** `ifp_main_filter_glk_directory`: `.so` occurs anywhere in the name. */
  predicate IsGlkEntry(name: string)
  {
    Contains(name, ".so")
  }

  /**
   * The Glk filter is looser than the plugin loader's, which wants `.so` as
   * the last suffix: every plugin file passes it, and so do versioned
   * names such as `libglkterm.so.0`, which the plugin loader skips.
   */
  lemma GlkFilterIsLooser(name: string)
    ensures IfpLoader.IsDso(name) ==> IsGlkEntry(name)
    ensures IsGlkEntry("libglkterm.so.0") && !IfpLoader.IsDso("libglkterm.so.0")
  {
    IfpLoader.DsoIsSuffix(name);
    if IsSuffix(".so", name) {
      ContainsAt(name, ".so", |name| - 3);
    }
    var versioned := "libglkterm.so.0";
    assert IsPrefix(".so", versioned[10..]);
    ContainsAt(versioned, ".so", 10);
    IfpLoader.DsoIsSuffix(versioned);
  }

  /** The `scandir` filter: the names that pass, in listing order. */
  function GlkEntries(names: seq<string>): seq<string>
  {
    if |names| == 0 then []
    else
      var last := names[|names| - 1];
      GlkEntries(names[..|names| - 1]) + (if IsGlkEntry(last) then [last] else [])
  }

  /** The filter keeps exactly the names that pass it. */
  lemma {:induction false} GlkEntriesFilter(names: seq<string>, n: string)
    ensures n in GlkEntries(names) <==> n in names && IsGlkEntry(n)
  {
    if |names| > 0 {
      GlkEntriesFilter(names[..|names| - 1], n);
      assert names == names[..|names| - 1] + [names[|names| - 1]];
    }
  }

  /** The parts joined in order. */
  function Flatten(parts: seq<seq<string>>): seq<string>
  {
    if |parts| == 0 then [] else parts[0] + Flatten(parts[1..])
  }

  /** What the joined parts hold is what some part holds. */
  lemma {:induction false} FlattenMember(parts: seq<seq<string>>, x: string)
    ensures x in Flatten(parts) <==> exists k :: 0 <= k < |parts| && x in parts[k]
  {
    if |parts| > 0 {
      var rest := parts[1..];
      FlattenMember(rest, x);
      if exists k :: 0 <= k < |rest| && x in rest[k] {
        var k :| 0 <= k < |rest| && x in rest[k];
        assert x in parts[k + 1];
      }
      if exists k :: 0 <= k < |parts| && x in parts[k] {
        var k :| 0 <= k < |parts| && x in parts[k];
        if k > 0 {
          assert x in rest[k - 1];
        }
      }
    }
  }

  /** Some path of `paths` loads. */
  predicate AnyLoads(paths: seq<string>, load: string -> bool)
  {
    |paths| > 0 && (load(paths[0]) || AnyLoads(paths[1..], load))
  }

  /** `AnyLoads` holds exactly when some position of the list loads. */
  lemma {:induction false} AnyLoadsAt(paths: seq<string>, load: string -> bool)
    ensures AnyLoads(paths, load) <==> exists k :: 0 <= k < |paths| && load(paths[k])
  {
    if |paths| > 0 {
      AnyLoadsAt(paths[1..], load);
      if exists k :: 0 <= k < |paths| && load(paths[k]) {
        var k :| 0 <= k < |paths| && load(paths[k]);
        if k > 0 {
          assert load(paths[1..][k - 1]);
        }
      }
      if exists k :: 0 <= k < |paths| - 1 && load(paths[1..][k]) {
        var k :| 0 <= k < |paths| - 1 && load(paths[1..][k]);
        assert load(paths[k + 1]);
      }
    }
  }

  /** The paths tried, in order, by a search that stops at the first that loads. */
  function Attempts(paths: seq<string>, load: string -> bool): seq<string>
  {
    if |paths| == 0 then []
    else if load(paths[0]) then [paths[0]]
    else [paths[0]] + Attempts(paths[1..], load)
  }

  /**
   * A first-success search tries a prefix of the paths, every path it tries
   * but the last fails, and it succeeds exactly when some path loads: then
   * the last path tried is the first that loads; otherwise all are tried.
   */
  lemma {:induction false} AttemptsFirstSuccess(paths: seq<string>, load: string -> bool)
    ensures |Attempts(paths, load)| <= |paths|
    ensures Attempts(paths, load) == paths[..|Attempts(paths, load)|]
    ensures forall k :: 0 <= k < |Attempts(paths, load)| - 1 ==> !load(paths[k])
    ensures AnyLoads(paths, load) <==> |Attempts(paths, load)| > 0 && load(paths[|Attempts(paths, load)| - 1])
    ensures !AnyLoads(paths, load) ==> Attempts(paths, load) == paths
  {
    if |paths| > 0 && !load(paths[0]) {
      var rest := paths[1..];
      AttemptsFirstSuccess(rest, load);
      assert forall k :: 1 <= k < |paths| ==> paths[k] == rest[k - 1];
    }
  }

  /**
   * Searching two lists one after the other: the second is reached only
   * when nothing in the first loads.
   */
  lemma {:induction false} AttemptsAppend(a: seq<string>, b: seq<string>, load: string -> bool)
    ensures AnyLoads(a, load) ==> Attempts(a + b, load) == Attempts(a, load)
    ensures !AnyLoads(a, load) ==> Attempts(a + b, load) == a + Attempts(b, load)
    ensures AnyLoads(a + b, load) <==> AnyLoads(a, load) || AnyLoads(b, load)
  {
    AnyLoadsAppend(a, b, load);
    if |a| == 0 {
      assert a + b == b;
    } else if load(a[0]) {
      assert (a + b)[0] == a[0];
    } else {
      assert (a + b)[0] == a[0];
      assert (a + b)[1..] == a[1..] + b;
      AttemptsAppend(a[1..], b, load);
      assert a == [a[0]] + a[1..];
      Associative([a[0]], a[1..], Attempts(b, load));
    }
  }

  lemma {:induction false} AnyLoadsAppend(a: seq<string>, b: seq<string>, load: string -> bool)
    ensures AnyLoads(a + b, load) <==> AnyLoads(a, load) || AnyLoads(b, load)
  {
    if |a| == 0 {
      assert a + b == b;
    } else {
      assert (a + b)[0] == a[0];
      assert (a + b)[1..] == a[1..] + b;
      AnyLoadsAppend(a[1..], b, load);
    }
  }

  /**
   * The loop invariant of a first-success search over a list of parts,
   * after the first `i`: whether some path of all the parts loads is
   * whether one has loaded or one of the parts left will, and the whole
   * search tries the paths tried so far and, unless one has loaded, then
   * those the parts left try.
   */
  ghost predicate Searched(parts: seq<seq<string>>, i: nat, load: string -> bool, loaded: bool, tried: seq<string>)
  {
    i <= |parts| &&
    AnyLoads(Flatten(parts), load) == (loaded || AnyLoads(Flatten(parts[i..]), load)) &&
    Attempts(Flatten(parts), load) == tried + (if loaded then [] else Attempts(Flatten(parts[i..]), load))
  }

  /** A search starts having searched nothing. */
  lemma SearchedNothing(parts: seq<seq<string>>, load: string -> bool)
    ensures Searched(parts, 0, load, false, [])
  {
    assert parts[0..] == parts;
  }

  /** Searching the next part when nothing has loaded yet. */
  lemma SearchedStep(parts: seq<seq<string>>, i: nat, load: string -> bool, tried: seq<string>)
    requires i < |parts| && Searched(parts, i, load, false, tried)
    ensures Searched(parts, i + 1, load, AnyLoads(parts[i], load), tried + Attempts(parts[i], load))
  {
    var here, rest := parts[i], Flatten(parts[i + 1..]);
    assert parts[i..][1..] == parts[i + 1..];
    assert Flatten(parts[i..]) == here + rest;
    AttemptsAppend(here, rest, load);
    AttemptsFirstSuccess(here, load);
    Associative(tried, here, Attempts(rest, load));
  }

  /** Searching a part that offers one path when nothing has loaded yet. */
  lemma SearchedOne(parts: seq<seq<string>>, i: nat, load: string -> bool, tried: seq<string>, path: string)
    requires i < |parts| && Searched(parts, i, load, false, tried) && parts[i] == [path]
    ensures Searched(parts, i + 1, load, load(path), tried + [path])
  {
    SearchedStep(parts, i, load, tried);
    assert AnyLoads(parts[i], load) == load(path);
  }

  /** Passing over a part that offers nothing. */
  lemma SearchedNone(parts: seq<seq<string>>, i: nat, load: string -> bool, tried: seq<string>)
    requires i < |parts| && Searched(parts, i, load, false, tried) && parts[i] == []
    ensures Searched(parts, i + 1, load, false, tried)
  {
    SearchedStep(parts, i, load, tried);
    assert tried + [] == tried;
  }

  /** A search that has run through every part, or stopped at a success, has searched them all. */
  lemma SearchedAll(parts: seq<seq<string>>, i: nat, load: string -> bool, loaded: bool, tried: seq<string>)
    requires Searched(parts, i, load, loaded, tried) && (i == |parts| || loaded)
    ensures loaded == AnyLoads(Flatten(parts), load) && tried == Attempts(Flatten(parts), load)
  {
    if !loaded {
      assert |parts[i..]| == 0;
      assert tried + [] == tried;
    } else {
      assert tried + [] == tried;
    }
  }

  /**
   * The order of the parts decides: when no earlier part offers a path
   * that loads and part `k` does, the search tries every path of the
   * earlier parts and then stops within part `k`.
   */
  lemma {:induction false} EarlierPartWins(parts: seq<seq<string>>, k: nat, load: string -> bool)
    requires k < |parts|
    requires !AnyLoads(Flatten(parts[..k]), load) && AnyLoads(parts[k], load)
    ensures Attempts(Flatten(parts), load) == Flatten(parts[..k]) + Attempts(parts[k], load)
  {
    var rest := Flatten(parts[1..]);
    AttemptsAppend(parts[0], rest, load);
    if k == 0 {
      assert Flatten(parts[..0]) == [];
    } else {
      var front := Flatten(parts[1..][..k - 1]);
      assert parts[..k][1..] == parts[1..][..k - 1];
      assert Flatten(parts[..k]) == parts[0] + front;
      AttemptsAppend(parts[0], front, load);
      AttemptsFirstSuccess(parts[0], load);
      EarlierPartWins(parts[1..], k - 1, load);
      Associative(parts[0], front, Attempts(parts[k], load));
    }
  }

  /** What one directory entry offers: `directory/entry` when it matches the library. */
  function EntryPaths(library: string, directory: string, entry: string): seq<string>
  {
    if MatchesFilename(library, entry) then [directory + "/" + entry] else []
  }

  function EntryOffers(library: string, directory: string, entries: seq<string>): (r: seq<seq<string>>)
    ensures |r| == |entries|
    ensures forall k :: 0 <= k < |entries| ==> r[k] == EntryPaths(library, directory, entries[k])
  {
    seq(|entries|, k requires 0 <= k < |entries| => EntryPaths(library, directory, entries[k]))
  }

  /** The paths a directory offers for a library, in listing order; none when it cannot be scanned. */
  function DirectoryPaths(library: string, directory: string, listing: Option<seq<string>>): seq<string>
  {
    if listing.None? then [] else Flatten(EntryOffers(library, directory, GlkEntries(listing.value)))
  }

  /** Each path a directory offers names an entry that passes the filter and matches the library. */
  lemma DirectoryPathsMatch(library: string, directory: string, names: seq<string>, p: string)
    ensures p in DirectoryPaths(library, directory, Some(names)) <==>
              exists e :: e in names && IsGlkEntry(e) && MatchesFilename(library, e) && p == directory + "/" + e
  {
    var entries := GlkEntries(names);
    var offers := EntryOffers(library, directory, entries);
    FlattenMember(offers, p);
    if p in Flatten(offers) {
      var k :| 0 <= k < |offers| && p in offers[k];
      GlkEntriesFilter(names, entries[k]);
    }
    if exists e :: e in names && IsGlkEntry(e) && MatchesFilename(library, e) && p == directory + "/" + e {
      var e :| e in names && IsGlkEntry(e) && MatchesFilename(library, e) && p == directory + "/" + e;
      GlkEntriesFilter(names, e);
      var k :| 0 <= k < |entries| && entries[k] == e;
      assert p in offers[k];
    }
  }

  /**
   * `ifp_main_load_glk_from_directory`: scan the directory through the
   * filter and, entry by entry until one loads, try to load
   * `directory/entry` for each entry that matches the library.  The
   * results are whether a library loaded and the paths tried, in order.
   */
  method LoadFromDirectory(library: string, directory: string, listing: Option<seq<string>>, load: string -> bool)
    returns (loaded: bool, tried: seq<string>)
    ensures loaded == AnyLoads(DirectoryPaths(library, directory, listing), load)
    ensures tried == Attempts(DirectoryPaths(library, directory, listing), load)
  {
    if listing.None? {
      return false, [];
    }
    var entries := GlkEntries(listing.value);
    ghost var offers := EntryOffers(library, directory, entries);
    SearchedNothing(offers, load);
    loaded, tried := false, [];
    var i := 0;
    while i < |entries| && !loaded
      invariant Searched(offers, i, load, loaded, tried)
    {
      var filename := entries[i];
      if MatchesFilename(library, filename) {
        var path := directory + "/" + filename;
        SearchedOne(offers, i, load, tried, path);
        loaded := load(path);
        tried := tried + [path];
      } else {
        SearchedNone(offers, i, load, tried);
      }
      i := i + 1;
    }
    SearchedAll(offers, i, load, loaded, tried);
  }

  function DirectoryOffers(library: string, directories: seq<string>, listing: string -> Option<seq<string>>)
    : (r: seq<seq<string>>)
    ensures |r| == |directories|
    ensures forall k :: 0 <= k < |directories| ==>
              r[k] == if |directories[k]| > 0 then DirectoryPaths(library, directories[k], listing(directories[k])) else []
  {
    seq(|directories|, k requires 0 <= k < |directories| =>
      if |directories[k]| > 0 then DirectoryPaths(library, directories[k], listing(directories[k])) else [])
  }

  /** The paths a search path offers, directory by directory; empty elements offer none. */
  function SearchPaths(library: string, directories: seq<string>, listing: string -> Option<seq<string>>): seq<string>
  {
    Flatten(DirectoryOffers(library, directories, listing))
  }

  /**
   * `ifp_main_load_glk_from_path`: split the search path on `:` and search
   * each non-empty directory in turn, stopping at the first that yields a
   * library.
   */
  method LoadFromPath(library: string, searchPath: string, listing: string -> Option<seq<string>>, load: string -> bool)
    returns (loaded: bool, tried: seq<string>)
    ensures loaded == AnyLoads(SearchPaths(library, Split(searchPath, ':'), listing), load)
    ensures tried == Attempts(SearchPaths(library, Split(searchPath, ':'), listing), load)
  {
    var count, elements := SplitString(searchPath, ':');
    ghost var offers := DirectoryOffers(library, elements, listing);
    SearchedNothing(offers, load);
    loaded, tried := false, [];
    var i := 0;
    while i < count && !loaded
      invariant Searched(offers, i, load, loaded, tried)
    {
      var directory := elements[i];
      if |directory| > 0 {
        SearchedStep(offers, i, load, tried);
        var found, paths := LoadFromDirectory(library, directory, listing(directory), load);
        loaded, tried := found, tried + paths;
      } else {
        SearchedNone(offers, i, load, tried);
      }
      i := i + 1;
    }
    SearchedAll(offers, i, load, loaded, tried);
  }

  /**
   * The paths one entry of a Glk library list offers: none when it is
   * empty; itself, when it holds a `/` and passes `verify`; otherwise the
   * matches along the plugin path's directories.
   */
  function LibraryPaths(library: string, directories: seq<string>, verify: string -> bool,
                        listing: string -> Option<seq<string>>): seq<string>
  {
    if |library| == 0 then []
    else if '/' in library then (if verify(library) then [library] else [])
    else SearchPaths(library, directories, listing)
  }

  function LibraryOffers(libraries: seq<string>, directories: seq<string>, verify: string -> bool,
                         listing: string -> Option<seq<string>>): (r: seq<seq<string>>)
    ensures |r| == |libraries|
    ensures forall k :: 0 <= k < |libraries| ==> r[k] == LibraryPaths(libraries[k], directories, verify, listing)
  {
    seq(|libraries|, k requires 0 <= k < |libraries| => LibraryPaths(libraries[k], directories, verify, listing))
  }

  /** The paths a Glk library list offers, entry by entry, given the directories of the plugin path. */
  function ListPaths(libraries: seq<string>, directories: seq<string>, verify: string -> bool,
                     listing: string -> Option<seq<string>>): seq<string>
  {
    Flatten(LibraryOffers(libraries, directories, verify, listing))
  }

  /**
   * `ifp_main_load_glk`: split the list on `,` and try each non-empty
   * entry in turn, directly when it holds a `/` (and `verify` accepts it),
   * otherwise along the plugin path, stopping at the first that loads.
   * The plugin path is fetched only when an entry needs it; as it does not
   * change meanwhile, it is a parameter here.
   */
  method LoadGlk(libraries: string, pluginPath: string, verify: string -> bool,
                 listing: string -> Option<seq<string>>, load: string -> bool)
    returns (loaded: bool, tried: seq<string>)
    ensures loaded == AnyLoads(ListPaths(Split(libraries, ','), Split(pluginPath, ':'), verify, listing), load)
    ensures tried == Attempts(ListPaths(Split(libraries, ','), Split(pluginPath, ':'), verify, listing), load)
  {
    var count, elements := SplitString(libraries, ',');
    ghost var offers := LibraryOffers(elements, Split(pluginPath, ':'), verify, listing);
    SearchedNothing(offers, load);
    loaded, tried := false, [];
    var i := 0;
    while i < count && !loaded
      invariant Searched(offers, i, load, loaded, tried)
    {
      SearchedStep(offers, i, load, tried);
      var found, paths := LoadLibrary(elements[i], pluginPath, verify, listing, load);
      loaded, tried := found, tried + paths;
      i := i + 1;
    }
    SearchedAll(offers, i, load, loaded, tried);
  }

  /**
   * One entry of `ifp_main_load_glk`: an empty entry is passed over; an
   * entry with a `/` is loaded directly if `verify` accepts it; any other
   * is searched for along the plugin path.
   */
  method LoadLibrary(library: string, pluginPath: string, verify: string -> bool,
                     listing: string -> Option<seq<string>>, load: string -> bool)
    returns (loaded: bool, tried: seq<string>)
    ensures loaded == AnyLoads(LibraryPaths(library, Split(pluginPath, ':'), verify, listing), load)
    ensures tried == Attempts(LibraryPaths(library, Split(pluginPath, ':'), verify, listing), load)
  {
    if |library| == 0 {
      return false, [];
    }
    if '/' in library {
      if verify(library) {
        loaded := load(library);
        tried := [library];
      } else {
        loaded, tried := false, [];
      }
    } else {
      loaded, tried := LoadFromPath(library, pluginPath, listing, load);
    }
  }

  /**
   * The list order decides: when no earlier entry offers a path that
   * loads and entry `k` does, the search tries every path of the earlier
   * entries and then stops within entry `k`.
   */
  lemma EarlierEntryWins(libraries: seq<string>, k: nat, directories: seq<string>, verify: string -> bool,
                         listing: string -> Option<seq<string>>, load: string -> bool)
    requires k < |libraries|
    requires !AnyLoads(ListPaths(libraries[..k], directories, verify, listing), load)
    requires AnyLoads(LibraryPaths(libraries[k], directories, verify, listing), load)
    ensures Attempts(ListPaths(libraries, directories, verify, listing), load) ==
              ListPaths(libraries[..k], directories, verify, listing) +
              Attempts(LibraryPaths(libraries[k], directories, verify, listing), load)
  {
    var offers := LibraryOffers(libraries, directories, verify, listing);
    assert offers[..k] == LibraryOffers(libraries[..k], directories, verify, listing);
    EarlierPartWins(offers, k, load);
  }

  /**
   * The `-glk` option: when it is the first argument and has a value, the
   * value is the Glk library list, and the argument vector loses both
   * while keeping the program name and the rest in order.
   */
  function GlkOption(argv: seq<string>): (r: Option<(string, seq<string>)>)
    ensures r.Some? <==> |argv| > 2 && argv[1] == "-glk"
    ensures r.Some? ==> r.value.0 == argv[2] && |r.value.1| == |argv| - 2 && r.value.1[0] == argv[0]
    ensures r.Some? ==> forall k :: 1 <= k < |r.value.1| ==> r.value.1[k] == argv[k + 2]
  {
    if |argv| > 2 && argv[1] == "-glk" then Some((argv[2], [argv[0]] + argv[3..])) else None
  }

  /** The Glk library list and the argument vector `main` goes on with. */
  function Choice(argv: seq<string>, getenv: string -> Option<string>, configured: Option<string>): (string, seq<string>)
  {
    match GlkOption(argv) {
      case Some(choice) => choice
      case None => (LibrariesOf(getenv, configured), argv)
    }
  }

  /** Without `-glk` first, the arguments pass through untouched. */
  lemma ArgumentsKept(argv: seq<string>, getenv: string -> Option<string>, configured: Option<string>)
    requires !(|argv| > 2 && argv[1] == "-glk")
    ensures Choice(argv, getenv, configured) == (LibrariesOf(getenv, configured), argv)
  {
  }

  /** `EXIT_FAILURE`. */
  const ExitFailure: int := 1

  /** How `main` ends: with a status, or aborted by `ifp_fatal`. */
  datatype Outcome = Returned(status: int) | Aborted

  /**
   * `main`, after the configuration file has been read: choose the Glk
   * library list and the arguments, load a Glk library, and run its
   * `main` with the arguments.  When nothing loads the status is
   * `EXIT_FAILURE`; a library with no `main` aborts.  The second result is
   * the paths tried.
   */
  method Run(argv: seq<string>, getenv: string -> Option<string>, configured: Option<string>,
             pluginPath: string, verify: string -> bool, listing: string -> Option<seq<string>>,
             load: string -> bool, glkMain: Option<(int, seq<string>) -> int>)
    returns (outcome: Outcome, tried: seq<string>)
    ensures var (libraries, mainArgv) := Choice(argv, getenv, configured);
            var paths := ListPaths(Split(libraries, ','), Split(pluginPath, ':'), verify, listing);
            tried == Attempts(paths, load) &&
            outcome == if !AnyLoads(paths, load) then Returned(ExitFailure)
                       else if glkMain.None? then Aborted
                       else Returned(glkMain.value(|mainArgv|, mainArgv))
  {
    var libraries: string;
    var mainArgv: seq<string>;
    if |argv| > 2 && argv[1] == "-glk" {
      libraries := argv[2];
      var mainArgc := |argv| - 2;
      var copy := new string[mainArgc];
      copy[0] := argv[0];
      for k := 1 to mainArgc
        invariant copy[0] == argv[0]
        invariant forall j :: 1 <= j < k ==> copy[j] == argv[j + 2]
      {
        copy[k] := argv[k + 2];
      }
      mainArgv := copy[..];
      assert mainArgv == [argv[0]] + argv[3..] by {
        assert forall j :: 1 <= j < mainArgc ==> mainArgv[j] == argv[j + 2] == argv[3..][j - 1];
      }
    } else {
      libraries := LibrariesOf(getenv, configured);
      mainArgv := argv;
    }
    assert (libraries, mainArgv) == Choice(argv, getenv, configured);
    var loaded;
    loaded, tried := LoadGlk(libraries, pluginPath, verify, listing, load);
    if !loaded {
      return Returned(ExitFailure), tried;
    }
    if glkMain.None? {
      return Aborted, tried;
    }
    outcome := Returned(glkMain.value(|mainArgv|, mainArgv));
  }
}
