/**
 * IFP's URL cache: downloaded URL data kept in temporary files, one entry
 * per URL, with a reference count (how many open URLs use the entry), a
 * usage count and a last-access time.  When the files together exceed the
 * size limit, unreferenced entries are scavenged, lightest first, where the
 * weight of an entry falls with its age and rises with its usage.
 *
 * The clock is a parameter (a count of seconds, 0 when the clock fails),
 * the size of a data file is what `stat` reports (`None` when it fails),
 * and the files the cache unlinks are recorded in a log.
 */
module IfpCache {
  import opened Text

  const IntMax := 0x7fff_ffff

  /** A C `int` that is never negative: a time in seconds, a weight. */
  type Stamp = x: int | 0 <= x <= IntMax

  datatype Entry = Entry(url: string, dataFile: string, fileSize: nat, references: nat,
                         usage: nat, timestamp: Stamp)

  // The weighting of entries

  /**
   * `ifp_cache_weight`: the age in seconds (0 for an entry from the future),
   * in milliseconds saturated at `INT_MAX`, divided by the usage count and
   * taken from `INT_MAX`.
   */
  function Weight(e: Entry, now: Stamp): (w: int)
    requires e.usage > 0
    ensures 0 <= w <= IntMax
  {
    var ageSeconds := if now >= e.timestamp then now - e.timestamp else 0;
    var ageMilliseconds := if ageSeconds < IntMax / 1000 then ageSeconds * 1000 else IntMax;
    IntMax - ageMilliseconds / e.usage
  }

  /** An entry accessed just now has the greatest weight. */
  lemma FreshEntryWeighsMost(e: Entry, now: Stamp)
    requires e.usage > 0 && e.timestamp >= now
    ensures Weight(e, now) == IntMax
  {
  }

  /** Of two entries used equally often, the older is no heavier. */
  lemma OlderIsLighter(e: Entry, f: Entry, now: Stamp)
    requires e.usage == f.usage > 0 && e.timestamp <= f.timestamp
    ensures Weight(e, now) <= Weight(f, now)
  {
    var ae := if now >= e.timestamp then now - e.timestamp else 0;
    var af := if now >= f.timestamp then now - f.timestamp else 0;
    assert af <= ae;
    var me := if ae < IntMax / 1000 then ae * 1000 else IntMax;
    var mf := if af < IntMax / 1000 then af * 1000 else IntMax;
    assert mf <= me;
    DivMonotone(mf, me, e.usage);
  }

  /** Of two entries of the same age, the more used is no lighter. */
  lemma MoreUsedIsHeavier(e: Entry, f: Entry, now: Stamp)
    requires 0 < e.usage <= f.usage && e.timestamp == f.timestamp
    ensures Weight(e, now) <= Weight(f, now)
  {
    var age := if now >= e.timestamp then now - e.timestamp else 0;
    var ms := if age < IntMax / 1000 then age * 1000 else IntMax;
    DivAntitone(ms, e.usage, f.usage);
  }

  lemma DivMonotone(a: nat, b: nat, d: nat)
    requires a <= b && d > 0
    ensures a / d <= b / d
  {
    DivLowerBound(a / d, b, d);
  }

  lemma DivAntitone(a: nat, d: nat, e: nat)
    requires 0 < d <= e
    ensures a / e <= a / d
  {
    MulLe(d, e, a / e);
    DivLowerBound(a / e, a, d);
  }

  lemma MulLe(x: int, y: int, k: nat)
    requires x <= y
    ensures x * k <= y * k
  {
  }

  /** A multiple of `d` no larger than `a` is bounded by the quotient. */
  lemma DivLowerBound(q: nat, a: nat, d: nat)
    requires d > 0 && q * d <= a
    ensures q <= a / d
  {
    if q > a / d {
      MulLe(a / d + 1, q, d);
      assert false;
    }
  }

  // Specification of the list operations

  /** `ifp_cache_size`: the sum of the file sizes. */
  function Size(entries: seq<Entry>): nat
  {
    if |entries| == 0 then 0 else Size(entries[..|entries| - 1]) + entries[|entries| - 1].fileSize
  }

  /** `ifp_cache_lookup_url_path`: the first entry for the URL. */
  function Find(entries: seq<Entry>, url: string): (r: Option<nat>)
    ensures r.None? <==> forall k :: 0 <= k < |entries| ==> entries[k].url != url
    ensures r.Some? ==> r.value < |entries| && entries[r.value].url == url
    ensures r.Some? ==> forall k :: 0 <= k < r.value ==> entries[k].url != url
  {
    if |entries| == 0 then None
    else if entries[0].url == url then Some(0)
    else match Find(entries[1..], url) {
      case None => None
      case Some(k) => Some(k + 1)
    }
  }

  /** The entries for other URLs, in list order. */
  function Without(entries: seq<Entry>, url: string): (r: seq<Entry>)
    ensures forall e :: e in r <==> e in entries && e.url != url
  {
    if |entries| == 0 then []
    else
      var front := Without(entries[..|entries| - 1], url);
      var e := entries[|entries| - 1];
      assert entries == entries[..|entries| - 1] + [e];
      if e.url == url then front else front + [e]
  }

  /** The data files of the entries for a URL, in list order. */
  function FilesOf(entries: seq<Entry>, url: string): seq<string>
  {
    if |entries| == 0 then []
    else
      var front := FilesOf(entries[..|entries| - 1], url);
      var e := entries[|entries| - 1];
      if e.url == url then front + [e.dataFile] else front
  }

  /** The data files of all the entries, in list order. */
  function DataFiles(entries: seq<Entry>): seq<string>
  {
    if |entries| == 0 then [] else DataFiles(entries[..|entries| - 1]) + [entries[|entries| - 1].dataFile]
  }

  /** Every entry's data file is among them, and there is one per entry. */
  lemma {:induction false} DataFilesCover(entries: seq<Entry>)
    ensures |DataFiles(entries)| == |entries|
    ensures forall e :: e in entries ==> e.dataFile in DataFiles(entries)
  {
    if |entries| > 0 {
      var front := entries[..|entries| - 1];
      DataFilesCover(front);
      assert entries == front + [entries[|entries| - 1]];
    }
  }

  /** No two entries share a URL, and every entry has been used. */
  predicate WellFormed(entries: seq<Entry>)
  {
    (forall j, k :: 0 <= j < k < |entries| ==> entries[j].url != entries[k].url) &&
    (forall k :: 0 <= k < |entries| ==> entries[k].usage > 0)
  }

  /**
   * The scavenging target: the unreferenced entry of least weight, the
   * earliest in the list among equals; `None` when every entry is referenced.
   */
  function Target(entries: seq<Entry>, now: Stamp): (r: Option<nat>)
    requires WellFormed(entries)
    ensures r.Some? ==> r.value < |entries| && entries[r.value].references == 0
  {
    if |entries| == 0 then None
    else
      var front := entries[..|entries| - 1];
      var t := Target(front, now);
      var last := |entries| - 1;
      if entries[last].references == 0 && (t.None? || Weight(entries[last], now) < Weight(entries[t.value], now))
      then Some(last)
      else t
  }

  /** The target is an unreferenced entry of least weight, and there is one unless all are referenced. */
  lemma {:induction false} TargetIsLightest(entries: seq<Entry>, now: Stamp)
    requires WellFormed(entries)
    ensures Target(entries, now).None? <==> forall k :: 0 <= k < |entries| ==> entries[k].references > 0
    ensures Target(entries, now).Some? ==> forall k :: 0 <= k < |entries| && entries[k].references == 0 ==>
      Weight(entries[Target(entries, now).value], now) <= Weight(entries[k], now)
  {
    if |entries| > 0 {
      var front := entries[..|entries| - 1];
      TargetIsLightest(front, now);
    }
  }

  /** The list after scavenging: lightest unreferenced entries go until the rest fit the limit. */
  function Scavenged(entries: seq<Entry>, now: Stamp, limit: int): seq<Entry>
    requires WellFormed(entries)
    decreases |entries|
  {
    if Size(entries) <= limit then entries
    else match Target(entries, now) {
      case None => entries
      case Some(k) =>
        WithoutShrinks(entries, k);
        Scavenged(Without(entries, entries[k].url), now, limit)
    }
  }

  lemma WithoutShrinks(entries: seq<Entry>, k: nat)
    requires k < |entries| && WellFormed(entries)
    ensures |Without(entries, entries[k].url)| < |entries|
    ensures WellFormed(Without(entries, entries[k].url))
  {
    WithoutLength(entries, entries[k].url);
    WithoutWellFormed(entries, entries[k].url);
    assert entries[k] !in Without(entries, entries[k].url);
  }

  lemma {:induction false} WithoutLength(entries: seq<Entry>, url: string)
    ensures |Without(entries, url)| <= |entries|
    ensures (exists e :: e in entries && e.url == url) ==> |Without(entries, url)| < |entries|
  {
    if |entries| > 0 {
      var front := entries[..|entries| - 1];
      WithoutLength(front, url);
      assert entries == front + [entries[|entries| - 1]];
    }
  }

  /** Removing entries keeps the rest in order, so the list stays well formed. */
  lemma {:induction false} WithoutWellFormed(entries: seq<Entry>, url: string)
    requires WellFormed(entries)
    ensures WellFormed(Without(entries, url))
  {
    if |entries| > 0 {
      var front := entries[..|entries| - 1];
      var e := entries[|entries| - 1];
      assert entries == front + [e];
      WithoutWellFormed(front, url);
      var w := Without(front, url);
      if e.url != url {
        forall j | 0 <= j < |w|
          ensures w[j].url != e.url
        {
          assert w[j] in front;
          var i :| 0 <= i < |front| && front[i] == w[j];
        }
      }
    }
  }

  /** Scavenging only removes entries, and never a referenced one. */
  lemma {:induction false} ScavengedKeepsReferenced(entries: seq<Entry>, now: Stamp, limit: int)
    requires WellFormed(entries)
    ensures forall e :: e in Scavenged(entries, now, limit) ==> e in entries
    ensures forall e :: e in entries && e.references > 0 ==> e in Scavenged(entries, now, limit)
    decreases |entries|
  {
    if Size(entries) > limit && Target(entries, now).Some? {
      var k := Target(entries, now).value;
      WithoutShrinks(entries, k);
      ScavengedKeepsReferenced(Without(entries, entries[k].url), now, limit);
      forall e | e in entries && e.references > 0
        ensures e in Without(entries, entries[k].url)
      {
        var i :| 0 <= i < |entries| && entries[i] == e;
        assert i != k;
      }
    }
  }

  /** After scavenging the cache fits its limit, or every entry left is referenced. */
  lemma {:induction false} ScavengedFits(entries: seq<Entry>, now: Stamp, limit: int)
    requires WellFormed(entries)
    ensures var r := Scavenged(entries, now, limit);
      Size(r) <= limit || forall k :: 0 <= k < |r| ==> r[k].references > 0
    decreases |entries|
  {
    if Size(entries) > limit {
      TargetIsLightest(entries, now);
      if Target(entries, now).Some? {
        var k := Target(entries, now).value;
        WithoutShrinks(entries, k);
        ScavengedFits(Without(entries, entries[k].url), now, limit);
      }
    }
  }

  /** The data files scavenging deletes, in the order it removes their entries. */
  function ScavengedFiles(entries: seq<Entry>, now: Stamp, limit: int): seq<string>
    requires WellFormed(entries)
    decreases |entries|
  {
    if Size(entries) <= limit then []
    else match Target(entries, now) {
      case None => []
      case Some(k) =>
        WithoutShrinks(entries, k);
        FilesOf(entries, entries[k].url) + ScavengedFiles(Without(entries, entries[k].url), now, limit)
    }
  }

  /** With URLs unique, the files for an entry's URL are that entry's file alone. */
  lemma {:induction false} FilesOfUnique(entries: seq<Entry>, k: nat)
    requires WellFormed(entries) && k < |entries|
    ensures FilesOf(entries, entries[k].url) == [entries[k].dataFile]
    ensures |Without(entries, entries[k].url)| == |entries| - 1
    decreases |entries|
  {
    var front := entries[..|entries| - 1];
    var last := |entries| - 1;
    assert entries == front + [entries[last]];
    if k < last {
      FilesOfUnique(front, k);
    } else {
      FilesOfNone(front, entries[k].url);
    }
  }

  lemma {:induction false} FilesOfNone(entries: seq<Entry>, url: string)
    requires forall k :: 0 <= k < |entries| ==> entries[k].url != url
    ensures FilesOf(entries, url) == [] && Without(entries, url) == entries
  {
    if |entries| > 0 {
      var front := entries[..|entries| - 1];
      FilesOfNone(front, url);
      assert entries == front + [entries[|entries| - 1]];
    }
  }

  /**
   * Scavenging deletes one data file per entry it removes, and a file is
   * deleted exactly when it belongs to a removed entry.
   */
  lemma {:induction false} ScavengedFilesRemoved(entries: seq<Entry>, now: Stamp, limit: int)
    requires WellFormed(entries)
    ensures |ScavengedFiles(entries, now, limit)| == |entries| - |Scavenged(entries, now, limit)|
    ensures forall f :: f in ScavengedFiles(entries, now, limit) <==>
      exists e :: e in entries && e !in Scavenged(entries, now, limit) && e.dataFile == f
    decreases |entries|
  {
    if Size(entries) > limit && Target(entries, now).Some? {
      var k := Target(entries, now).value;
      var url := entries[k].url;
      var rest := Without(entries, url);
      WithoutShrinks(entries, k);
      FilesOfUnique(entries, k);
      ScavengedFilesRemoved(rest, now, limit);
      ScavengedKeepsReferenced(rest, now, limit);
      assert ScavengedFiles(entries, now, limit) == [entries[k].dataFile] + ScavengedFiles(rest, now, limit);
      assert Scavenged(entries, now, limit) == Scavenged(rest, now, limit);
      forall f | f in ScavengedFiles(entries, now, limit)
        ensures exists e :: e in entries && e !in Scavenged(entries, now, limit) && e.dataFile == f
      {
        if f == entries[k].dataFile {
          assert entries[k] !in rest;
          assert entries[k] !in Scavenged(rest, now, limit);
        } else {
          assert f in ScavengedFiles(rest, now, limit);
        }
      }
      forall e | e in entries && e !in Scavenged(entries, now, limit)
        ensures e.dataFile in ScavengedFiles(entries, now, limit)
      {
        if e.url == url {
          var i :| 0 <= i < |entries| && entries[i] == e;
          assert i == k;
        } else {
          assert e in rest;
        }
      }
    }
  }

  /** One round of the scavenging loop removes the target and deletes its file. */
  lemma ScavengeStep(entries: seq<Entry>, now: Stamp, limit: int, k: nat)
    requires WellFormed(entries) && Size(entries) > limit && Target(entries, now) == Some(k)
    ensures |Without(entries, entries[k].url)| < |entries| && WellFormed(Without(entries, entries[k].url))
    ensures Scavenged(entries, now, limit) == Scavenged(Without(entries, entries[k].url), now, limit)
    ensures ScavengedFiles(entries, now, limit) ==
            FilesOf(entries, entries[k].url) + ScavengedFiles(Without(entries, entries[k].url), now, limit)
  {
    WithoutShrinks(entries, k);
  }

  /** The loop stops when the list fits or nothing can go; then no file is deleted. */
  lemma ScavengeStops(entries: seq<Entry>, now: Stamp, limit: int)
    requires WellFormed(entries) && (Size(entries) <= limit || Target(entries, now).None?)
    ensures Scavenged(entries, now, limit) == entries && ScavengedFiles(entries, now, limit) == []
  {
  }

  /** A list already within the limit is left alone. */
  lemma WithinLimitKept(entries: seq<Entry>, now: Stamp, limit: int)
    requires WellFormed(entries) && Size(entries) <= limit
    ensures Scavenged(entries, now, limit) == entries
  {
  }

  /**
   * The cache: the list from head to tail, the limit set by
   * `ifp_cache_set_limit`, the `IFP_CACHE_LIMIT` value read from the
   * environment, which overrides it when set, and the files unlinked so far.
   */
  class Cache {
    var entries: seq<Entry>
    var limit: int
    const environmentLimit: Option<int>
    var unlinked: seq<string>

    predicate Valid()
      reads this
    {
      WellFormed(entries) && limit >= 0
    }

    /** An empty cache with the default limit of ten megabytes. */
    constructor (environmentLimit: Option<int>)
      ensures Valid() && entries == [] && limit == 10485760 && unlinked == []
      ensures this.environmentLimit == environmentLimit
    {
      entries := [];
      limit := 10485760;
      this.environmentLimit := environmentLimit;
      unlinked := [];
    }

    /** `ifp_cache_get_limit`: the environment's value when set, else the configured limit. */
    function Limit(): int
      reads this
    {
      if environmentLimit.Some? then environmentLimit.value else limit
    }

    /** `ifp_cache_set_limit`: a negative limit is rejected and the old one kept. */
    method SetLimit(newLimit: int)
      modifies this
      ensures limit == if newLimit < 0 then old(limit) else newLimit
      ensures entries == old(entries) && unlinked == old(unlinked)
    {
      if newLimit < 0 {
        return;
      }
      limit := newLimit;
    }

    /** `ifp_cache_size`: the sum of the file sizes, added up along the list. */
    method CacheSize() returns (size: nat)
      ensures size == Size(entries)
    {
      size := 0;
      for k := 0 to |entries|
        invariant size == Size(entries[..k])
      {
        assert entries[..k + 1][..k] == entries[..k];
        size := size + entries[k].fileSize;
      }
      assert entries[..|entries|] == entries;
    }

    /** `ifp_cache_lookup_url_path`: a walk from the head comparing URLs. */
    method Lookup(url: string) returns (r: Option<nat>)
      ensures r == Find(entries, url)
    {
      var k := 0;
      while k < |entries|
        invariant k <= |entries|
        invariant forall j :: 0 <= j < k ==> entries[j].url != url
      {
        if entries[k].url == url {
          return Some(k);
        }
        k := k + 1;
      }
      return None;
    }

    /**
     * `ifp_cache_find_entry`: on a hit the entry's reference and usage
     * counts go up by one and its time becomes `now`, and its data file is
     * returned; a miss changes nothing.
     */
    method FindEntry(url: string, now: Stamp) returns (dataFile: Option<string>)
      requires Valid()
      modifies this
      ensures Valid() && limit == old(limit) && unlinked == old(unlinked)
      ensures match Find(old(entries), url)
        case None => dataFile.None? && entries == old(entries)
        case Some(k) =>
          var e := old(entries)[k];
          dataFile == Some(e.dataFile) &&
          entries == old(entries)[k := e.(references := e.references + 1, usage := e.usage + 1, timestamp := now)]
    {
      var found := Lookup(url);
      if found.None? {
        return None;
      }
      var k := found.value;
      var e := entries[k];
      entries := entries[k := e.(references := e.references + 1, usage := e.usage + 1, timestamp := now)];
      dataFile := Some(e.dataFile);
    }

    /** `ifp_cache_release_entry`: the reference count goes down by one, but never below zero. */
    method ReleaseEntry(url: string)
      requires Valid()
      modifies this
      ensures Valid() && limit == old(limit) && unlinked == old(unlinked)
      ensures match Find(old(entries), url)
        case None => entries == old(entries)
        case Some(k) =>
          var e := old(entries)[k];
          entries == old(entries)[k := e.(references := if e.references > 0 then e.references - 1 else 0)]
    {
      var found := Lookup(url);
      if found.Some? {
        var k := found.value;
        var e := entries[k];
        if e.references > 0 {
          entries := entries[k := e.(references := e.references - 1)];
        }
      }
    }

    /**
     * `ifp_cache_remove_entry`: every entry for the URL is unlinked from
     * the list and its data file deleted; the others keep their order.
     */
    method RemoveEntry(url: string)
      requires Valid()
      modifies this
      ensures Valid() && limit == old(limit)
      ensures entries == Without(old(entries), url)
      ensures unlinked == old(unlinked) + FilesOf(old(entries), url)
    {
      var list := entries;
      var kept: seq<Entry> := [];
      var files: seq<string> := [];
      WithoutWellFormed(list, url);
      for k := 0 to |list|
        invariant kept == Without(list[..k], url)
        invariant files == FilesOf(list[..k], url)
      {
        assert list[..k + 1][..k] == list[..k];
        if list[k].url == url {
          files := files + [list[k].dataFile];
        } else {
          kept := kept + [list[k]];
        }
      }
      assert list[..|list|] == list;
      entries := kept;
      unlinked := unlinked + files;
    }

    /**
     * `ifp_cache_finalize_cleanup`, run when IFP is unloaded: every data
     * file is deleted, head first, and the list emptied.
     */
    method FinalizeCleanup()
      modifies this
      ensures entries == [] && limit == old(limit)
      ensures unlinked == old(unlinked) + DataFiles(old(entries))
    {
      var list := entries;
      var files: seq<string> := [];
      for k := 0 to |list|
        invariant files == DataFiles(list[..k])
      {
        assert list[..k + 1][..k] == list[..k];
        files := files + [list[k].dataFile];
      }
      assert list[..|list|] == list;
      entries := [];
      unlinked := unlinked + files;
    }

    /** The selection loop of `ifp_cache_scavenge`. */
    method SelectTarget(now: Stamp) returns (target: Option<nat>)
      requires Valid()
      ensures target == Target(entries, now)
    {
      target := None;
      for k := 0 to |entries|
        invariant WellFormed(entries[..k])
        invariant target == Target(entries[..k], now)
      {
        assert entries[..k + 1][..k] == entries[..k];
        if entries[k].references == 0 {
          if target.None? || Weight(entries[k], now) < Weight(entries[target.value], now) {
            target := Some(k);
          }
        }
      }
      assert entries[..|entries|] == entries;
    }

    /**
     * `ifp_cache_scavenge`: while the cache is over its limit, remove the
     * lightest unreferenced entry; stop when none is left.
     */
    method Scavenge(now: Stamp)
      requires Valid()
      modifies this
      ensures Valid() && limit == old(limit)
      ensures entries == Scavenged(old(entries), now, Limit())
      ensures unlinked == old(unlinked) + ScavengedFiles(old(entries), now, Limit())
    {
      while true
        invariant Valid() && limit == old(limit)
        invariant Scavenged(entries, now, Limit()) == Scavenged(old(entries), now, Limit())
        invariant unlinked + ScavengedFiles(entries, now, Limit()) ==
                  old(unlinked) + ScavengedFiles(old(entries), now, Limit())
        decreases |entries|
      {
        var size := CacheSize();
        if size <= Limit() {
          ScavengeStops(entries, now, Limit());
          return;
        }
        var target := SelectTarget(now);
        if target.None? {
          ScavengeStops(entries, now, Limit());
          return;
        }
        var k := target.value;
        ghost var lim := Limit();
        ghost var before := entries;
        ghost var unlinked0 := unlinked;
        ScavengeStep(before, now, lim, k);
        RemoveEntry(entries[k].url);
        Associative(unlinked0, FilesOf(before, before[k].url), ScavengedFiles(entries, now, lim));
      }
    }

    /**
     * `ifp_cache_add_entry`: a URL already cached, or a data file `stat`
     * cannot size, is refused; otherwise a new entry with one reference and
     * one use goes at the head of the list and the cache is scavenged.
     */
    method AddEntry(url: string, dataFile: string, statSize: Option<nat>, now: Stamp, scavengeTime: Stamp)
      returns (ok: bool)
      requires Valid()
      modifies this
      ensures Valid() && limit == old(limit)
      ensures ok <==> Find(old(entries), url).None? && statSize.Some?
      ensures !ok ==> entries == old(entries) && unlinked == old(unlinked)
      ensures ok ==> entries == Scavenged([Entry(url, dataFile, statSize.value, 1, 1, now)] + old(entries),
                                          scavengeTime, Limit())
      ensures ok ==> unlinked == old(unlinked) +
                       ScavengedFiles([Entry(url, dataFile, statSize.value, 1, 1, now)] + old(entries),
                                      scavengeTime, Limit())
    {
      var found := Lookup(url);
      if found.Some? || statSize.None? {
        return false;
      }
      var e := Entry(url, dataFile, statSize.value, 1, 1, now);
      AddKeepsWellFormed(entries, e);
      entries := [e] + entries;
      Scavenge(scavengeTime);
      ok := true;
    }
  }

  lemma AddKeepsWellFormed(entries: seq<Entry>, e: Entry)
    requires WellFormed(entries) && Find(entries, e.url).None? && e.usage > 0
    ensures WellFormed([e] + entries)
  {
  }

  /** A newly added entry is referenced, so its own scavenge keeps it. */
  lemma AddedEntrySurvives(entries: seq<Entry>, e: Entry, now: Stamp, limit: int)
    requires WellFormed([e] + entries) && e.references == 1
    ensures e in Scavenged([e] + entries, now, limit)
  {
    ScavengedKeepsReferenced([e] + entries, now, limit);
  }
}
