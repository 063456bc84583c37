/**
 * IFP's preferences: an unsorted list of (engine name, engine version,
 * option string) entries, where a missing name or version is a wildcard.
 * The options of every entry matching a plugin become the plugin's Glk
 * startup arguments.  Once the list has been replaced by a "foreign" list
 * handed down from a chaining plugin it is locked against updates.
 *
 * A C `NULL` string is `None`.
 */
module IfpPref {
  import opened Text

  datatype Entry = Entry(name: Option<string>, version: Option<string>, preference: string)

  // Matching an entry against a query

  /** The C `strcasecmp` test of a query field against a stored one, `None` when it reads `NULL`. */
  function FieldAsWritten(query: Option<string>, stored: Option<string>): Option<bool>
  {
    if query.None? then Some(true)
    else if stored.None? then None
    else Some(EqualsIgnoreCase(query.value, stored.value))
  }

  /**
   * `ifp_pref_match_entry` as written: a `NULL` query field is a wildcard,
   * but a non-`NULL` query field is passed to `strcasecmp` with the stored
   * field even when that is `NULL`, which is undefined; that outcome is
   * `None`.  The `&&` chain stops at the first field that fails.
   */
  function MatchEntryAsWritten(e: Entry, name: Option<string>, version: Option<string>,
                               preference: Option<string>): (r: Option<bool>)
    ensures r.None? <==>
      (name.Some? && e.name.None?) ||
      (FieldAsWritten(name, e.name) == Some(true) && version.Some? && e.version.None?)
  {
    var n := FieldAsWritten(name, e.name);
    if n != Some(true) then n
    else
      var v := FieldAsWritten(version, e.version);
      if v != Some(true) then v
      else Some(preference.None? || preference.value == e.preference)
  }

  /** A query field against a stored one: a wildcard query matches anything, a stored wildcard only a wildcard. */
  predicate FieldMatches(query: Option<string>, stored: Option<string>)
  {
    query.None? || (stored.Some? && EqualsIgnoreCase(query.value, stored.value))
  }

  /**
   * The entry test that `register` and `unregister` use.  Names and
   * versions compare without regard to case, the preference exactly.
   */
  predicate MatchEntry(e: Entry, name: Option<string>, version: Option<string>, preference: Option<string>)
  {
    FieldMatches(name, e.name) && FieldMatches(version, e.version) &&
    (preference.None? || preference.value == e.preference)
  }

  /** Wherever the C test is defined, the model's test gives the same answer. */
  lemma MatchEntryAgrees(e: Entry, name: Option<string>, version: Option<string>, preference: Option<string>)
    requires MatchEntryAsWritten(e, name, version, preference).Some?
    ensures MatchEntryAsWritten(e, name, version, preference) == Some(MatchEntry(e, name, version, preference))
  {
  }

  /** A query of wildcards only matches every entry. */
  lemma WildcardMatchesAll(e: Entry)
    ensures MatchEntry(e, None, None, None)
  {
  }

  /** An entry matches the exact query made from its own fields. */
  lemma MatchesItself(e: Entry)
    ensures MatchEntry(e, e.name, e.version, Some(e.preference))
  {
    if e.name.Some? {
      CaseCompareZero(e.name.value, e.name.value);
    }
    if e.version.Some? {
      CaseCompareZero(e.version.value, e.version.value);
    }
  }

  /**
   * A configuration with a section `[git]` followed by `[git-1.2]`, each
   * with options, registers `(git, NULL, p)` and then `(git, 1.2, q)`; the
   * duplicate scan of the second registration compares `1.2` with the
   * stored `NULL` version.
   */
  lemma VersionAfterWildcardIsUndefined(p: string, q: string)
    ensures MatchEntryAsWritten(Entry(Some("git"), None, p), Some("git"), Some("1.2"), Some(q)).None?
  {
    var e := Entry(Some("git"), None, p);
    CaseCompareZero("git", "git");
    assert FieldAsWritten(Some("git"), e.name) == Some(true);
  }

  // The plugin side

  /** `ifp_pref_match_plugin`: a stored wildcard matches any engine name or version. */
  predicate MatchPlugin(e: Entry, engineName: string, engineVersion: string)
  {
    (e.name.None? || EqualsIgnoreCase(e.name.value, engineName)) &&
    (e.version.None? || EqualsIgnoreCase(e.version.value, engineVersion))
  }

  /** The preferences of the entries matching a plugin, in list order. */
  function Matching(entries: seq<Entry>, engineName: string, engineVersion: string): (r: seq<string>)
    ensures |r| <= |entries|
  {
    if |entries| == 0 then []
    else
      var front := Matching(entries[..|entries| - 1], engineName, engineVersion);
      var e := entries[|entries| - 1];
      if MatchPlugin(e, engineName, engineVersion) then front + [e.preference] else front
  }

  /** The entries that do not match a query, in list order. */
  function Without(entries: seq<Entry>, name: Option<string>, version: Option<string>,
                   preference: Option<string>): (r: seq<Entry>)
    ensures |r| <= |entries|
  {
    if |entries| == 0 then []
    else
      var front := Without(entries[..|entries| - 1], name, version, preference);
      var e := entries[|entries| - 1];
      if MatchEntry(e, name, version, preference) then front else front + [e]
  }

  /** Unregistering leaves no entry that matches the query. */
  lemma {:induction false} WithoutRemovesMatches(entries: seq<Entry>, name: Option<string>,
                                                 version: Option<string>, preference: Option<string>)
    ensures forall e :: e in Without(entries, name, version, preference) ==>
      !MatchEntry(e, name, version, preference)
  {
    if |entries| > 0 {
      WithoutRemovesMatches(entries[..|entries| - 1], name, version, preference);
    }
  }

  /** Every entry that does not match the query is kept. */
  lemma {:induction false} WithoutKeepsOthers(entries: seq<Entry>, name: Option<string>,
                                              version: Option<string>, preference: Option<string>)
    ensures forall e :: e in entries && !MatchEntry(e, name, version, preference) ==>
      e in Without(entries, name, version, preference)
    ensures forall e :: e in Without(entries, name, version, preference) ==> e in entries
  {
    if |entries| > 0 {
      var front := entries[..|entries| - 1];
      WithoutKeepsOthers(front, name, version, preference);
      assert entries == front + [entries[|entries| - 1]];
    }
  }

  /** Unregistering twice removes nothing more. */
  lemma {:induction false} WithoutIdempotent(entries: seq<Entry>, name: Option<string>,
                                             version: Option<string>, preference: Option<string>)
    ensures Without(Without(entries, name, version, preference), name, version, preference) ==
      Without(entries, name, version, preference)
  {
    if |entries| > 0 {
      var front := entries[..|entries| - 1];
      WithoutIdempotent(front, name, version, preference);
      var w := Without(front, name, version, preference);
      var e := entries[|entries| - 1];
      if !MatchEntry(e, name, version, preference) {
        assert (w + [e])[..|w + [e]| - 1] == w;
      }
    }
  }

  /** The startup argument vector: the engine name, the matching options, the file name, and `NULL`. */
  function StartupArgs(entries: seq<Entry>, engineName: string, engineVersion: string,
                       filename: string): seq<Option<string>>
  {
    [Some(engineName)] + Wrap(Matching(entries, engineName, engineVersion)) + [Some(filename), None]
  }

  function Wrap(s: seq<string>): (r: seq<Option<string>>)
    ensures |r| == |s| && forall k :: 0 <= k < |s| ==> r[k] == Some(s[k])
  {
    seq(|s|, k requires 0 <= k < |s| => Some(s[k]))
  }

  /** An entry of wildcards contributes its option to every plugin. */
  lemma {:induction false} WildcardEntryApplies(entries: seq<Entry>, k: nat, engineName: string,
                                                engineVersion: string)
    requires k < |entries| && entries[k].name.None? && entries[k].version.None?
    ensures entries[k].preference in Matching(entries, engineName, engineVersion)
  {
    var front := entries[..|entries| - 1];
    if k < |entries| - 1 {
      WildcardEntryApplies(front, k, engineName, engineVersion);
    }
  }

  /** Every option passed to a plugin comes from an entry that matches it. */
  lemma {:induction false} MatchingSound(entries: seq<Entry>, engineName: string, engineVersion: string,
                                         p: string)
    requires p in Matching(entries, engineName, engineVersion)
    ensures exists e :: e in entries && MatchPlugin(e, engineName, engineVersion) && e.preference == p
  {
    var front := entries[..|entries| - 1];
    var e := entries[|entries| - 1];
    if p in Matching(front, engineName, engineVersion) {
      MatchingSound(front, engineName, engineVersion, p);
      var f :| f in front && MatchPlugin(f, engineName, engineVersion) && f.preference == p;
      assert f in entries;
    } else {
      assert e in entries;
    }
  }

  /**
   * The module's list, its head-to-tail order as a sequence, and the lock
   * set by `use_foreign_data`.
   */
  class Prefs {
    var entries: seq<Entry>
    var readonly: bool

    constructor ()
      ensures entries == [] && !readonly
    {
      entries := [];
      readonly := false;
    }

    /**
     * `ifp_pref_register`: refused when the list is locked, when the
     * preference is `NULL`, or when an entry already matches; otherwise the
     * entry is appended at the tail.
     */
    method Register(name: Option<string>, version: Option<string>, preference: Option<string>)
      returns (ok: bool)
      modifies this
      ensures readonly == old(readonly)
      ensures ok <==> (!old(readonly) && preference.Some? &&
                       forall e :: e in old(entries) ==> !MatchEntry(e, name, version, preference))
      ensures entries == if ok then old(entries) + [Entry(name, version, preference.value)] else old(entries)
    {
      if readonly || preference.None? {
        return false;
      }
      var k := 0;
      while k < |entries|
        invariant k <= |entries|
        invariant forall j :: 0 <= j < k ==> !MatchEntry(entries[j], name, version, preference)
      {
        if MatchEntry(entries[k], name, version, preference) {
          return false;
        }
        k := k + 1;
      }
      entries := entries + [Entry(name, version, preference.value)];
      ok := true;
    }

    /** `ifp_pref_unregister`: every matching entry is unlinked; a locked list is left alone. */
    method Unregister(name: Option<string>, version: Option<string>, preference: Option<string>)
      modifies this
      ensures readonly == old(readonly)
      ensures entries == if old(readonly) then old(entries) else Without(old(entries), name, version, preference)
    {
      if readonly {
        return;
      }
      var kept: seq<Entry> := [];
      var k := 0;
      while k < |entries|
        invariant k <= |entries|
        invariant kept == Without(entries[..k], name, version, preference)
      {
        assert entries[..k + 1][..k] == entries[..k];
        if !MatchEntry(entries[k], name, version, preference) {
          kept := kept + [entries[k]];
        }
        k := k + 1;
      }
      assert entries[..k] == entries;
      entries := kept;
    }

    /** `ifp_pref_use_foreign_data`: the list becomes the one handed in, locked for good. */
    method UseForeignData(foreign: seq<Entry>)
      modifies this
      ensures entries == foreign && readonly
    {
      entries := foreign;
      readonly := true;
    }

    /** `ifp_pref_get_local_data`: the list, for handing to a chained plugin. */
    function LocalData(): seq<Entry>
      reads this
    {
      entries
    }

    /**
     * `ifp_pref_create_startup_data`: count the matching entries, size the
     * array for them plus three, then fill it with the engine name, the
     * matching options in list order, the file name and `NULL`.
     */
    method CreateStartupData(engineName: string, engineVersion: string, filename: string)
      returns (argc: nat, argv: seq<Option<string>>)
      ensures argv == StartupArgs(entries, engineName, engineVersion, filename)
      ensures argc == |Matching(entries, engineName, engineVersion)| + 2
      ensures |argv| == argc + 1
    {
      var count := CountMatches(entries, engineName, engineVersion);
      var args := new Option<string>[count + 3];
      args[0] := Some(engineName);
      var index := FillOptions(args, entries, engineName, engineVersion);
      args[index] := Some(filename);
      args[index + 1] := None;
      argv := args[..];
      argc := count + 2;
      assert argv == args[..index] + [Some(filename), None];
    }
  }

  /** The counting loop of `ifp_pref_create_startup_data`. */
  method CountMatches(entries: seq<Entry>, engineName: string, engineVersion: string) returns (count: nat)
    ensures count == |Matching(entries, engineName, engineVersion)|
  {
    count := 0;
    for k := 0 to |entries|
      invariant count == |Matching(entries[..k], engineName, engineVersion)|
    {
      assert entries[..k + 1][..k] == entries[..k];
      if MatchPlugin(entries[k], engineName, engineVersion) {
        count := count + 1;
      }
    }
    assert entries[..|entries|] == entries;
  }

  /** The filling loop: the matching options go to `args[1..]` in list order. */
  method FillOptions(args: array<Option<string>>, entries: seq<Entry>, engineName: string,
                     engineVersion: string) returns (index: nat)
    requires args.Length == |Matching(entries, engineName, engineVersion)| + 3
    modifies args
    ensures index == |Matching(entries, engineName, engineVersion)| + 1
    ensures args[..index] == [old(args[0])] + Wrap(Matching(entries, engineName, engineVersion))
  {
    index := 1;
    for k := 0 to |entries|
      invariant index == |Matching(entries[..k], engineName, engineVersion)| + 1
      invariant index <= |Matching(entries, engineName, engineVersion)| + 1
      invariant args[..index] == [old(args[0])] + Wrap(Matching(entries[..k], engineName, engineVersion))
    {
      index := AddOption(args, index, entries, k, engineName, engineVersion);
    }
    assert entries[..|entries|] == entries;
  }

  /** One round of the filling loop: entry `k` adds its option when it matches the plugin. */
  method AddOption(args: array<Option<string>>, index: nat, entries: seq<Entry>, k: nat,
                   engineName: string, engineVersion: string) returns (next: nat)
    requires k < |entries| && 1 <= index < args.Length
    requires index == |Matching(entries[..k], engineName, engineVersion)| + 1
    requires |Matching(entries, engineName, engineVersion)| + 3 == args.Length
    requires args[..index] == [args[0]] + Wrap(Matching(entries[..k], engineName, engineVersion))
    modifies args
    ensures next == |Matching(entries[..k + 1], engineName, engineVersion)| + 1
    ensures next <= |Matching(entries, engineName, engineVersion)| + 1
    ensures args[..next] == [old(args[0])] + Wrap(Matching(entries[..k + 1], engineName, engineVersion))
  {
    MatchingPrefix(entries, k + 1, engineName, engineVersion);
    assert entries[..k + 1][..k] == entries[..k];
    next := index;
    if MatchPlugin(entries[k], engineName, engineVersion) {
      args[index] := Some(entries[k].preference);
      next := index + 1;
    }
  }

  /** A prefix of the list has no more matches than the whole list. */
  lemma {:induction false} MatchingPrefix(entries: seq<Entry>, n: nat, engineName: string, engineVersion: string)
    requires n <= |entries|
    ensures |Matching(entries[..n], engineName, engineVersion)| <= |Matching(entries, engineName, engineVersion)|
    decreases |entries| - n
  {
    if n < |entries| {
      MatchingPrefix(entries, n + 1, engineName, engineVersion);
      assert entries[..n + 1][..n] == entries[..n];
    } else {
      assert entries[..n] == entries;
    }
  }
}
