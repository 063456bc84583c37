/**
 * IFP's plugin loader: the list of loaded plugins, kept in load order as a
 * doubly linked list with head and tail pointers.  The links live in each
 * plugin in the C code; here the loader holds them as two maps, `next` and
 * `prior`, from a plugin to its neighbour (a missing key is `NULL`).
 */
module IfpLoader {
  import opened Text
  import opened IfpUtils
  import opened IfpPlugin

  /** The list pointers: head and tail, and each node's `next` and `prior`. */
  datatype Links<T(==)> = Links(head: Option<T>, tail: Option<T>, next: map<T, T>, prior: map<T, T>)

  function Get<T(==)>(m: map<T, T>, k: T): Option<T>
  {
    if k in m then Some(m[k]) else None
  }

  /** Setting a link; `None` clears it. */
  function Put<T(==)>(m: map<T, T>, k: T, v: Option<T>): (r: map<T, T>)
    ensures Get(r, k) == v
    ensures forall j :: j in m.Keys + r.Keys && j != k ==> Get(r, j) == Get(m, j)
  {
    if v.Some? then m[k := v.value] else m - {k}
  }

  function First<T>(list: seq<T>): Option<T>
  {
    if |list| == 0 then None else Some(list[0])
  }

  function Last<T>(list: seq<T>): Option<T>
  {
    if |list| == 0 then None else Some(list[|list| - 1])
  }

  function NextOf<T>(list: seq<T>, i: nat): Option<T>
  {
    if i + 1 < |list| then Some(list[i + 1]) else None
  }

  function PriorOf<T>(list: seq<T>, i: nat): Option<T>
    requires i <= |list|
  {
    if 0 < i then Some(list[i - 1]) else None
  }

  /** The links describe `list`: its ends, and each element's neighbours. */
  predicate Linked<T(==)>(l: Links<T>, list: seq<T>)
  {
    Distinct(list) && l.head == First(list) && l.tail == Last(list) &&
    (forall i {:trigger Get(l.next, list[i])} :: 0 <= i < |list| ==> Get(l.next, list[i]) == NextOf(list, i)) &&
    (forall i {:trigger Get(l.prior, list[i])} :: 0 <= i < |list| ==> Get(l.prior, list[i]) == PriorOf(list, i))
  }

  /** A node with no links of its own, as a new plugin is. */
  predicate Detached<T(==)>(l: Links<T>, p: T)
  {
    p !in l.next && p !in l.prior
  }

  /** `ifp_loader_add_plugin`: append at the tail. */
  function Append<T(==)>(l: Links<T>, p: T): Links<T>
    requires l.head.None? <==> l.tail.None?
  {
    if l.head.None? then Links(Some(p), Some(p), l.next, l.prior)
    else Links(l.head, Some(p), l.next[l.tail.value := p], l.prior[p := l.tail.value])
  }

  /**
   * `ifp_loader_delete_plugin` as written: the neighbours are joined and
   * the ends adjusted, but the deleted node keeps its own links.
   */
  function UnlinkAsWritten<T(==)>(l: Links<T>, p: T): Links<T>
  {
    var prior := Get(l.prior, p);
    var next := Get(l.next, p);
    var priors := if next.Some? then Put(l.prior, next.value, prior) else l.prior;
    var nexts := if prior.Some? then Put(l.next, prior.value, next) else l.next;
    Links(if l.head == Some(p) then Get(nexts, p) else l.head,
          if l.tail == Some(p) then Get(priors, p) else l.tail,
          nexts, priors)
  }

  /** Deletion that also clears the deleted node's links, so that deleting it again does nothing. */
  function Unlink<T(==)>(l: Links<T>, p: T): (r: Links<T>)
    ensures Detached(r, p)
  {
    var u := UnlinkAsWritten(l, p);
    Links(u.head, u.tail, u.next - {p}, u.prior - {p})
  }

  function Remove<T>(list: seq<T>, i: nat): (r: seq<T>)
    requires i < |list|
    ensures |r| == |list| - 1
  {
    list[..i] + list[i + 1..]
  }

  /** Appending a detached node keeps the links right and puts it last. */
  lemma AppendLinked<T>(l: Links<T>, list: seq<T>, p: T)
    requires Linked(l, list) && p !in list && Detached(l, p)
    ensures Linked(Append(l, p), list + [p])
  {
    var r := Append(l, p);
    var list' := list + [p];
    forall i | 0 <= i < |list'|
      ensures Get(r.next, list'[i]) == NextOf(list', i)
      ensures Get(r.prior, list'[i]) == PriorOf(list', i)
    {
      if i < |list| {
        assert list'[i] == list[i];
        assert Get(l.next, list[i]) == NextOf(list, i) && Get(l.prior, list[i]) == PriorOf(list, i);
        if i < |list| - 1 {
          assert list[i] != list[|list| - 1];
        }
      }
    }
  }

  /** The element at `j` of the list with position `i` removed. */
  lemma RemoveAt<T>(list: seq<T>, i: nat, j: nat)
    requires i < |list| && j < |list| - 1
    ensures Remove(list, i)[j] == if j < i then list[j] else list[j + 1]
  {
  }

  /** Deleting a listed node, as written, keeps the links of the rest right. */
  lemma UnlinkAsWrittenLinked<T>(l: Links<T>, list: seq<T>, i: nat)
    requires Linked(l, list) && i < |list|
    ensures Linked(UnlinkAsWritten(l, list[i]), Remove(list, i))
  {
    var p := list[i];
    var r := UnlinkAsWritten(l, p);
    var list' := Remove(list, i);
    assert Get(l.prior, p) == PriorOf(list, i) && Get(l.next, p) == NextOf(list, i);
    forall a, b | 0 <= a < b < |list'|
      ensures list'[a] != list'[b]
    {
      RemoveAt(list, i, a);
      RemoveAt(list, i, b);
    }
    forall j | 0 <= j < |list'|
      ensures Get(r.next, list'[j]) == NextOf(list', j)
      ensures Get(r.prior, list'[j]) == PriorOf(list', j)
    {
      RemoveAt(list, i, j);
      if j + 1 < |list'| {
        RemoveAt(list, i, j + 1);
      }
      if 0 < j {
        RemoveAt(list, i, j - 1);
      }
      UnlinkNeighbours(l, list, i, j);
    }
    UnlinkEnds(l, list, i);
  }

  lemma UnlinkNeighbours<T>(l: Links<T>, list: seq<T>, i: nat, j: nat)
    requires Linked(l, list) && i < |list| && j < |list| - 1
    ensures var e := if j < i then list[j] else list[j + 1];
            var r := UnlinkAsWritten(l, list[i]);
            Get(r.next, e) == (if j + 1 < i then Some(list[j + 1]) else if j + 2 < |list| then Some(list[j + 2]) else None) &&
            Get(r.prior, e) == (if j == 0 then None else if j <= i then Some(list[j - 1]) else Some(list[j]))
  {
    var e := if j < i then list[j] else list[j + 1];
    var k := if j < i then j else j + 1;
    assert e == list[k] && k != i;
    assert Get(l.next, list[i]) == NextOf(list, i) && Get(l.prior, list[i]) == PriorOf(list, i);
    assert Get(l.next, list[k]) == NextOf(list, k) && Get(l.prior, list[k]) == PriorOf(list, k);
    if 0 < i {
      assert list[i - 1] == e <==> k == i - 1;
    }
    if i + 1 < |list| {
      assert list[i + 1] == e <==> k == i + 1;
    }
  }

  lemma UnlinkEnds<T>(l: Links<T>, list: seq<T>, i: nat)
    requires Linked(l, list) && i < |list|
    ensures UnlinkAsWritten(l, list[i]).head == First(Remove(list, i))
    ensures UnlinkAsWritten(l, list[i]).tail == Last(Remove(list, i))
  {
    UnlinkHead(l, list, i);
    UnlinkTail(l, list, i);
  }

  lemma UnlinkHead<T>(l: Links<T>, list: seq<T>, i: nat)
    requires Linked(l, list) && i < |list|
    ensures UnlinkAsWritten(l, list[i]).head == First(Remove(list, i))
  {
    var p := list[i];
    assert l.head == Some(list[0]);
    if i == 0 {
      assert Get(l.prior, p) == None && Get(l.next, p) == NextOf(list, 0);
      if 1 < |list| {
        RemoveAt(list, 0, 0);
      }
    } else {
      assert list[0] != p;
      RemoveAt(list, i, 0);
    }
  }

  lemma UnlinkTail<T>(l: Links<T>, list: seq<T>, i: nat)
    requires Linked(l, list) && i < |list|
    ensures UnlinkAsWritten(l, list[i]).tail == Last(Remove(list, i))
  {
    var p := list[i];
    var n := |list| - 1;
    assert l.tail == Some(list[n]);
    if i == n {
      assert Get(l.next, p) == None && Get(l.prior, p) == PriorOf(list, n);
      if 0 < n {
        RemoveAt(list, n, n - 1);
      }
    } else {
      assert list[n] != p;
      RemoveAt(list, i, n - 1);
    }
  }

  /** Deleting a listed node keeps the links of the rest right and detaches it. */
  lemma UnlinkLinked<T>(l: Links<T>, list: seq<T>, i: nat)
    requires Linked(l, list) && i < |list|
    ensures Linked(Unlink(l, list[i]), Remove(list, i)) && Detached(Unlink(l, list[i]), list[i])
  {
    UnlinkAsWrittenLinked(l, list, i);
    var list' := Remove(list, i);
    var u := UnlinkAsWritten(l, list[i]);
    var r := Unlink(l, list[i]);
    forall j | 0 <= j < |list'|
      ensures list'[j] != list[i]
      ensures Get(r.next, list'[j]) == NextOf(list', j) && Get(r.prior, list'[j]) == PriorOf(list', j)
    {
      RemoveAt(list, i, j);
      assert Get(u.next, list'[j]) == NextOf(list', j) && Get(u.prior, list'[j]) == PriorOf(list', j);
    }
  }

  /** Deleting a node that is not listed and has no links changes nothing. */
  lemma UnlinkDetached<T>(l: Links<T>, list: seq<T>, p: T)
    requires Linked(l, list) && p !in list && Detached(l, p)
    ensures Unlink(l, p) == l && UnlinkAsWritten(l, p) == l
  {
    if |list| > 0 {
      assert l.head == Some(list[0]) && l.tail == Some(list[|list| - 1]);
    }
  }

  /** Deletion leaves a detached node that is not listed detached. */
  lemma UnlinkKeepsDetached<T>(l: Links<T>, list: seq<T>, p: T, q: T)
    requires Linked(l, list) && q !in list && Detached(l, q) && (p in list || Detached(l, p))
    ensures Detached(Unlink(l, p), q)
  {
    if p in list {
      var i := IndexIn(list, p);
      assert Get(l.prior, p) == PriorOf(list, i) && Get(l.next, p) == NextOf(list, i);
    }
  }

  /** Appending leaves another detached node that is not listed detached. */
  lemma AppendKeepsDetached<T>(l: Links<T>, list: seq<T>, p: T, q: T)
    requires Linked(l, list) && q !in list && Detached(l, q) && p != q
    ensures Detached(Append(l, p), q)
  {
    if |list| > 0 {
      assert l.tail == Some(list[|list| - 1]);
    }
  }

  /**
   * The deleted node's stale links make a second deletion harmful.  With
   * `1, 2` listed, deleting 2 and appending 3 gives the list `1, 3`;
   * deleting 2 again, as `ifp_manager` does after `replace_with_clone`,
   * clears the link from 1 to 3, so walking from the head stops at 1 while
   * the tail is 3.
   */
  lemma StaleLinksLoseTheTail()
    ensures var l0 := Links(Some(1), Some(2), map[1 := 2], map[2 := 1]);
            var l1 := Append(UnlinkAsWritten(l0, 2), 3);
            var l2 := UnlinkAsWritten(l1, 2);
            Linked(l0, [1, 2]) && Linked(l1, [1, 3]) &&
            Get(l2.next, 1) == None && l2.tail == Some(3) && !Linked(l2, [1, 3])
  {
    var l0 := Links(Some(1), Some(2), map[1 := 2], map[2 := 1]);
    var u := UnlinkAsWritten(l0, 2);
    assert u == Links(Some(1), Some(1), map[], map[2 := 1]);
    var l1 := Append(u, 3);
    assert l1 == Links(Some(1), Some(3), map[1 := 3], map[2 := 1, 3 := 1]);
    var l2 := UnlinkAsWritten(l1, 2);
    assert l2.next == map[];
    assert Get(l2.next, 1) != NextOf([1, 3], 0);
  }

  /** With deletion that detaches, the same sequence keeps `1, 3` intact. */
  lemma DetachedDeleteKeepsTheTail()
    ensures var l0 := Links(Some(1), Some(2), map[1 := 2], map[2 := 1]);
            var l1 := Append(Unlink(l0, 2), 3);
            Linked(l1, [1, 3]) && Unlink(l1, 2) == l1
  {
    var l0 := Links(Some(1), Some(2), map[1 := 2], map[2 := 1]);
    UnlinkLinked(l0, [1, 2], 1);
    assert Remove([1, 2], 1) == [1];
    AppendLinked(Unlink(l0, 2), [1], 3);
    var l1 := Append(Unlink(l0, 2), 3);
    assert [1] + [3] == [1, 3];
    UnlinkDetached(l1, [1, 3], 2);
  }

  /** The first position of `p` in `list`. */
  function IndexIn<T(==)>(list: seq<T>, p: T): (i: nat)
    requires p in list
    ensures i < |list| && list[i] == p
  {
    if list[0] == p then 0 else 1 + IndexIn(list[1..], p)
  }

  /** The list without `p`, if it is listed. */
  function Drop<T(==)>(list: seq<T>, p: T): seq<T>
  {
    if p in list then Remove(list, IndexIn(list, p)) else list
  }

  /** Dropping from a list without repeats removes `p` and keeps every other element. */
  lemma DropMembers<T>(list: seq<T>, p: T)
    requires Distinct(list)
    ensures Distinct(Drop(list, p)) && p !in Drop(list, p)
    ensures forall q :: q in Drop(list, p) <==> q in list && q != p
  {
    if p in list {
      var i := IndexIn(list, p);
      var r := Remove(list, i);
      forall j | 0 <= j < |r|
        ensures r[j] in list && r[j] != p
      {
        RemoveAt(list, i, j);
      }
      forall q | q in list && q != p
        ensures q in r
      {
        var k :| 0 <= k < |list| && list[k] == q;
        if k < i {
          RemoveAt(list, i, k);
        } else {
          RemoveAt(list, i, k - 1);
        }
      }
      forall a, b | 0 <= a < b < |r|
        ensures r[a] != r[b]
      {
        RemoveAt(list, i, a);
        RemoveAt(list, i, b);
      }
    }
  }

  /** Dropping from a list without repeats leaves no copy of `p`. */
  lemma DropAbsent<T>(list: seq<T>, p: T)
    requires Distinct(list)
    ensures p !in Drop(list, p)
  {
    if p in list {
      var i := IndexIn(list, p);
      forall j | 0 <= j < |list| - 1
        ensures Remove(list, i)[j] != p
      {
        RemoveAt(list, i, j);
      }
    }
  }

  /** `strrchr`: the position of the last `c` in `s`, if any. */
  function LastIndexOf(s: string, c: char): (r: Option<nat>)
    ensures r.None? <==> c !in s
    ensures r.Some? ==> r.value < |s| && s[r.value] == c && c !in s[r.value + 1..]
  {
    if |s| == 0 then None
    else if s[|s| - 1] == c then Some(|s| - 1)
    else
      var r := LastIndexOf(s[..|s| - 1], c);
      if r.Some? then assert s[r.value + 1..] == s[..|s| - 1][r.value + 1..] + [s[|s| - 1]]; r
      else assert s == s[..|s| - 1] + [s[|s| - 1]]; r
  }

  /** `ifp_loader_filter_plugins_directory`: the text from the last `.` on is exactly `.so`. */
  predicate IsDso(name: string)
  {
    match LastIndexOf(name, '.') {
      case None => false
      case Some(i) => name[i..] == ".so"
    }
  }

  /** The last-suffix rule is the same as ending in `.so`. */
  lemma DsoIsSuffix(name: string)
    ensures IsDso(name) <==> IsSuffix(".so", name)
  {
    if IsSuffix(".so", name) {
      var i := |name| - 3;
      assert name[i] == '.' && name[i + 1..] == "so";
      LastDot(name, i);
    }
  }

  lemma LastDot(name: string, i: nat)
    requires i < |name| && name[i] == '.' && '.' !in name[i + 1..]
    ensures LastIndexOf(name, '.') == Some(i)
  {
    match LastIndexOf(name, '.') {
      case None =>
        assert false;
      case Some(j) =>
        if j < i {
          assert false;
        } else if i < j {
          assert false;
        }
    }
  }

  /** `ifp_plugin_is_equal`: the same engine name and version. */
  predicate SameEngine(a: Header, b: Header)
  {
    a.engineName == b.engineName && a.engineVersion == b.engineVersion
  }

  /** Whether `dlopen` produced a library that binds as a plugin. */
  predicate Loadable(lib: Option<Library>)
  {
    lib.Some? && Bind(lib.value).Some?
  }

  /** The `scandir` filter: the names of shared objects, in listing order. */
  function DsoEntries(names: seq<string>): (r: seq<string>)
    ensures forall e :: e in r ==> IsDso(e) && e in names
    ensures forall n :: n in names && IsDso(n) ==> n in r
  {
    if |names| == 0 then []
    else
      var last := names[|names| - 1];
      assert names == names[..|names| - 1] + [last];
      DsoEntries(names[..|names| - 1]) + (if IsDso(last) then [last] else [])
  }

  /** The paths a directory search tries: `directory/entry` for each entry. */
  function Candidates(directory: string, entries: seq<string>): (r: seq<string>)
    ensures |r| == |entries|
    ensures forall i :: 0 <= i < |entries| ==> r[i] == directory + "/" + entries[i]
  {
    seq(|entries|, i requires 0 <= i < |entries| => directory + "/" + entries[i])
  }

  /** The paths a path search tries: the candidates of each non-empty directory that could be listed. */
  function PathCandidates(directories: seq<string>, listing: string -> Option<seq<string>>): seq<string>
  {
    if |directories| == 0 then []
    else
      var d := directories[|directories| - 1];
      PathCandidates(directories[..|directories| - 1], listing) + DirectoryCandidates(d, listing)
  }

  function DirectoryCandidates(d: string, listing: string -> Option<seq<string>>): seq<string>
  {
    if |d| > 0 && listing(d).Some? then Candidates(d, DsoEntries(listing(d).value)) else []
  }

  lemma PathCandidatesStep(directories: seq<string>, i: nat, listing: string -> Option<seq<string>>)
    requires i < |directories|
    ensures PathCandidates(directories[..i + 1], listing) ==
            PathCandidates(directories[..i], listing) + DirectoryCandidates(directories[i], listing)
  {
    assert directories[..i + 1][..i] == directories[..i];
  }

  lemma PrefixStep<T>(s: seq<T>, k: nat)
    requires k < |s|
    ensures s[..k] + [s[k]] == s[..k + 1]
  {
  }

  /** What tells two plugins apart for the loader: the filename and the engine. */
  datatype Identity = Identity(filename: Option<string>, engine: Option<Header>)

  ghost function IdentityOf(p: Plugin): Identity
    reads p
  {
    Identity(p.filename, if p.binding.Some? then Some(p.binding.value.header) else None)
  }

  predicate HasEngine(id: Identity, header: Header)
  {
    id.engine.Some? && SameEngine(header, id.engine.value)
  }

  /** Two plugins clash when they share a filename or an engine. */
  predicate Clash(a: Identity, b: Identity)
  {
    a.filename == b.filename || (b.engine.Some? && HasEngine(a, b.engine.value))
  }

  /** No two entries clash. */
  predicate NoClashes(ids: seq<Identity>)
  {
    forall i, j :: 0 <= i < j < |ids| ==> !Clash(ids[i], ids[j])
  }

  predicate FilenameIn(ids: seq<Identity>, filename: string)
  {
    exists i :: 0 <= i < |ids| && ids[i].filename == Some(filename)
  }

  predicate EngineIn(ids: seq<Identity>, header: Header)
  {
    exists i :: 0 <= i < |ids| && HasEngine(ids[i], header)
  }

  /**
   * What a search leaves for a candidate file: it is listed, it does not
   * load as a plugin, or its engine is listed.
   */
  predicate CoveredBy(ids: seq<Identity>, filename: string, dlopen: string -> Option<Library>)
  {
    FilenameIn(ids, filename) || !Loadable(dlopen(filename)) ||
    EngineIn(ids, Bind(dlopen(filename).value).value.header)
  }

  /** A candidate stays covered as plugins are added. */
  lemma CoveredExtends(ids: seq<Identity>, more: seq<Identity>, filename: string, dlopen: string -> Option<Library>)
    requires CoveredBy(ids, filename, dlopen)
    ensures CoveredBy(ids + more, filename, dlopen)
  {
    if FilenameIn(ids, filename) {
      var i :| 0 <= i < |ids| && ids[i].filename == Some(filename);
      assert (ids + more)[i] == ids[i];
    } else if Loadable(dlopen(filename)) {
      var i :| 0 <= i < |ids| && HasEngine(ids[i], Bind(dlopen(filename).value).value.header);
      assert (ids + more)[i] == ids[i];
    }
  }

  /**
   * What a search leaves behind: the lists before it are prefixes of the
   * lists after it, every plugin it added was loaded from one of the files
   * it tried, and every file it tried is accounted for (listed, not
   * loadable, or of an engine already listed).
   */
  ghost predicate GrewBy(plugins0: seq<Plugin>, ids0: seq<Identity>, plugins: seq<Plugin>, ids: seq<Identity>,
                         tried: seq<string>, dlopen: string -> Option<Library>)
  {
    |plugins0| <= |plugins| && plugins[..|plugins0|] == plugins0 &&
    |ids0| <= |ids| && ids[..|ids0|] == ids0 &&
    (forall j :: |ids0| <= j < |ids| ==> ids[j].filename.Some? && ids[j].filename.value in tried) &&
    (forall c :: c in tried ==> CoveredBy(ids, c, dlopen))
  }

  /** Two searches one after the other grow the lists by both sets of tries. */
  lemma GrewByCompose(plugins0: seq<Plugin>, ids0: seq<Identity>, plugins1: seq<Plugin>, ids1: seq<Identity>,
                      plugins2: seq<Plugin>, ids2: seq<Identity>, tried1: seq<string>, tried2: seq<string>,
                      dlopen: string -> Option<Library>)
    requires GrewBy(plugins0, ids0, plugins1, ids1, tried1, dlopen)
    requires GrewBy(plugins1, ids1, plugins2, ids2, tried2, dlopen)
    ensures GrewBy(plugins0, ids0, plugins2, ids2, tried1 + tried2, dlopen)
  {
    assert plugins2[..|plugins0|] == plugins2[..|plugins1|][..|plugins0|];
    assert ids2[..|ids0|] == ids2[..|ids1|][..|ids0|];
    forall j | |ids0| <= j < |ids2|
      ensures ids2[j].filename.Some? && ids2[j].filename.value in tried1 + tried2
    {
      if j < |ids1| {
        assert ids2[j] == ids2[..|ids1|][j];
      }
    }
    assert ids1 + ids2[|ids1|..] == ids2;
    forall c | c in tried1 + tried2
      ensures CoveredBy(ids2, c, dlopen)
    {
      if c in tried1 {
        CoveredExtends(ids1, ids2[|ids1|..], c, dlopen);
      }
    }
  }

  lemma GrewByNothing(plugins: seq<Plugin>, ids: seq<Identity>, dlopen: string -> Option<Library>)
    ensures GrewBy(plugins, ids, plugins, ids, [], dlopen)
  {
  }

  /** A single attempt that either added a plugin loaded from `path` or changed nothing. */
  lemma GrewByOne(plugins0: seq<Plugin>, ids0: seq<Identity>, plugins: seq<Plugin>, ids: seq<Identity>,
                  path: string, dlopen: string -> Option<Library>)
    requires (plugins == plugins0 && ids == ids0) ||
             (|plugins| == |plugins0| + 1 && plugins[..|plugins0|] == plugins0 &&
              |ids| == |ids0| + 1 && ids[..|ids0|] == ids0 && ids[|ids0|].filename == Some(path))
    requires CoveredBy(ids, path, dlopen)
    ensures GrewBy(plugins0, ids0, plugins, ids, [path], dlopen)
  {
  }

  /** An entry that clashes with none of the others keeps the list free of clashes. */
  lemma NoClashesAppend(ids: seq<Identity>, id: Identity)
    requires NoClashes(ids) && forall i :: 0 <= i < |ids| ==> !Clash(ids[i], id)
    ensures NoClashes(ids + [id])
  {
    var ids' := ids + [id];
    forall i, j | 0 <= i < j < |ids'|
      ensures !Clash(ids'[i], ids'[j])
    {
      assert ids'[i] == ids[i];
    }
  }

  lemma NoClashesRemove(ids: seq<Identity>, k: nat)
    requires NoClashes(ids) && k < |ids|
    ensures NoClashes(Remove(ids, k))
  {
    var r := Remove(ids, k);
    forall a, b | 0 <= a < b < |r|
      ensures !Clash(r[a], r[b])
    {
      RemoveAt(ids, k, a);
      RemoveAt(ids, k, b);
    }
  }

  /**
   * Replacing an entry by one of the same engine under a new filename, at
   * the end, keeps the list free of clashes.
   */
  lemma NoClashesReplace(ids: seq<Identity>, k: nat, id: Identity)
    requires NoClashes(ids) && k < |ids| && ids[k].engine.Some? && HasEngine(id, ids[k].engine.value)
    requires forall i :: 0 <= i < |ids| ==> ids[i].filename != id.filename
    ensures NoClashes(Remove(ids, k) + [id])
  {
    NoClashesRemove(ids, k);
    var r := Remove(ids, k);
    forall j | 0 <= j < |r|
      ensures !Clash(r[j], id)
    {
      RemoveAt(ids, k, j);
      var m := if j < k then j else j + 1;
      assert r[j] == ids[m] && m != k;
      if m < k {
        assert !Clash(ids[m], ids[k]);
      } else {
        assert !Clash(ids[k], ids[m]);
      }
    }
    NoClashesAppend(r, id);
  }

  lemma ReplacedNoClashes(ids: seq<Identity>, k: nat, id: Identity)
    requires k < |ids|
    ensures (NoClashes(ids) && ids[k].engine.Some? && HasEngine(id, ids[k].engine.value) &&
             id.filename.Some? && !FilenameIn(ids, id.filename.value)) ==> NoClashes(Remove(ids, k) + [id])
  {
    if NoClashes(ids) && ids[k].engine.Some? && HasEngine(id, ids[k].engine.value) &&
       id.filename.Some? && !FilenameIn(ids, id.filename.value) {
      NoClashesReplace(ids, k, id);
    }
  }

  /** Each plugin is intact and loaded, and `ids` records its identity. */
  ghost predicate AllLoaded(list: seq<Plugin>, ids: seq<Identity>)
    reads list
  {
    |ids| == |list| &&
    forall i :: 0 <= i < |list| ==> list[i].Valid() && list[i].state != Unloaded && ids[i] == IdentityOf(list[i])
  }

  lemma AllLoadedAppend(list: seq<Plugin>, ids: seq<Identity>, p: Plugin)
    requires AllLoaded(list, ids) && p.Valid() && p.state != Unloaded
    ensures AllLoaded(list + [p], ids + [IdentityOf(p)])
  {
    var list', ids' := list + [p], ids + [IdentityOf(p)];
    forall i | 0 <= i < |list'|
      ensures list'[i].Valid() && list'[i].state != Unloaded && ids'[i] == IdentityOf(list'[i])
    {
      if i < |list| {
        assert list'[i] == list[i] && ids'[i] == ids[i];
      }
    }
  }

  lemma AllLoadedRemove(list: seq<Plugin>, ids: seq<Identity>, k: nat)
    requires AllLoaded(list, ids) && k < |list|
    ensures AllLoaded(Remove(list, k), Remove(ids, k))
  {
    forall j | 0 <= j < |list| - 1
      ensures Remove(list, k)[j].Valid() && Remove(list, k)[j].state != Unloaded &&
              Remove(ids, k)[j] == IdentityOf(Remove(list, k)[j])
    {
      RemoveAt(list, k, j);
      RemoveAt(ids, k, j);
    }
  }

  /** The entry of `other` at the position of `p` in `list` removed, as `Drop` removes `p`. */
  function DropAlong<T(==), U>(list: seq<T>, other: seq<U>, p: T): (r: seq<U>)
    requires |other| == |list|
    ensures |r| == |Drop(list, p)|
  {
    if p in list then Remove(other, IndexIn(list, p)) else other
  }

  /** Dropping a plugin keeps the list loaded and free of clashes, and leaves it out. */
  lemma Dropped(list: seq<Plugin>, ids: seq<Identity>, p: Plugin)
    requires AllLoaded(list, ids) && Distinct(list)
    ensures AllLoaded(Drop(list, p), DropAlong(list, ids, p))
    ensures NoClashes(ids) ==> NoClashes(DropAlong(list, ids, p))
    ensures p !in Drop(list, p)
  {
    if p in list {
      var k := IndexIn(list, p);
      AllLoadedRemove(list, ids, k);
      if NoClashes(ids) {
        NoClashesRemove(ids, k);
      }
    }
    DropAbsent(list, p);
  }

  class Loader {
    var links: Links<Plugin>
    /** The plugins in list order. */
    ghost var plugins: seq<Plugin>
    /** The identity of each listed plugin, recorded as it was added. */
    ghost var ids: seq<Identity>

    ghost predicate Valid()
      reads this
    {
      Linked(links, plugins) && |ids| == |plugins|
    }

    /** Every listed plugin is intact, loaded, and still of the identity it was listed with. */
    ghost predicate Loaded()
      reads this, plugins
    {
      AllLoaded(plugins, ids)
    }

    /** No two listed plugins share a filename or an engine. */
    ghost predicate Unique()
      reads this
    {
      NoClashes(ids)
    }

    /** The loader's invariant: the links describe the list, whose plugins are loaded. */
    ghost predicate Invariant()
      reads this, plugins
    {
      Valid() && Loaded()
    }

    ghost predicate FilenameListed(filename: string)
      reads this
    {
      FilenameIn(ids, filename)
    }

    ghost predicate EngineListed(header: Header)
      reads this
    {
      EngineIn(ids, header)
    }

    ghost predicate Covered(filename: string, dlopen: string -> Option<Library>)
      reads this
    {
      CoveredBy(ids, filename, dlopen)
    }

    /** Every listed plugin may be unloaded: none is initialized or running. */
    ghost predicate AllUnloadable()
      reads this, plugins
    {
      forall i :: 0 <= i < |plugins| ==> plugins[i].IsUnloadable()
    }

    constructor ()
      ensures Invariant() && Unique() && plugins == []
    {
      links := Links(None, None, map[], map[]);
      plugins := [];
      ids := [];
    }

    /** `ifp_loader_iterate_plugins`: the head for `None`, else the plugin after `current`. */
    function Iterate(current: Option<Plugin>): (r: Option<Plugin>)
      requires Valid() && (current.None? || current.value in plugins)
      reads this
      ensures current.None? ==> r == First(plugins)
      ensures forall i :: 0 <= i < |plugins| && current == Some(plugins[i]) ==> r == NextOf(plugins, i)
    {
      if current.None? then links.head else Get(links.next, current.value)
    }

    /** `ifp_loader_count_plugins`: walk from the head counting plugins. */
    method Count() returns (count: nat)
      requires Valid()
      ensures count == |plugins|
    {
      var cursor := links.head;
      count := 0;
      while cursor.Some?
        invariant count <= |plugins|
        invariant cursor == if count < |plugins| then Some(plugins[count]) else None
        decreases |plugins| - count
      {
        cursor := Get(links.next, cursor.value);
        count := count + 1;
      }
    }

    /** The first loop of `ifp_loader_load_plugin`: is a plugin listed under this filename? */
    method FindFilename(filename: string) returns (found: bool)
      requires Invariant()
      ensures found <==> FilenameListed(filename)
    {
      var cursor := links.head;
      ghost var k := 0;
      while cursor.Some?
        invariant k <= |plugins|
        invariant cursor == if k < |plugins| then Some(plugins[k]) else None
        invariant forall j :: 0 <= j < k ==> ids[j].filename != Some(filename)
        decreases |plugins| - k
      {
        if cursor.value.filename == Some(filename) {
          assert ids[k].filename == Some(filename);
          return true;
        }
        cursor := Get(links.next, cursor.value);
        k := k + 1;
      }
      found := false;
    }

    /** The second loop of `ifp_loader_load_plugin`: is the same engine listed? */
    method FindEngine(header: Header) returns (found: bool)
      requires Invariant()
      ensures found <==> EngineListed(header)
    {
      var cursor := links.head;
      ghost var k := 0;
      while cursor.Some?
        invariant k <= |plugins|
        invariant cursor == if k < |plugins| then Some(plugins[k]) else None
        invariant forall j :: 0 <= j < k ==> !HasEngine(ids[j], header)
        decreases |plugins| - k
      {
        var plugin := cursor.value;
        if plugin.binding.value.header.engineName == header.engineName &&
           plugin.binding.value.header.engineVersion == header.engineVersion {
          assert HasEngine(ids[k], header);
          return true;
        }
        cursor := Get(links.next, plugin);
        k := k + 1;
      }
      found := false;
    }

    /** `ifp_loader_add_plugin`. */
    method Add(plugin: Plugin)
      requires Valid() && plugin !in plugins && Detached(links, plugin)
      modifies this
      ensures Valid() && plugins == old(plugins) + [plugin] && ids == old(ids) + [IdentityOf(plugin)]
      ensures links == Append(old(links), plugin)
    {
      AppendLinked(links, plugins, plugin);
      links := Append(links, plugin);
      plugins := plugins + [plugin];
      ids := ids + [IdentityOf(plugin)];
    }

    /** `ifp_loader_delete_plugin`, clearing the deleted plugin's own links. */
    method Delete(plugin: Plugin)
      requires Valid() && (plugin in plugins || Detached(links, plugin))
      modifies this
      ensures Valid() && Detached(links, plugin) && links == Unlink(old(links), plugin)
      ensures plugins == Drop(old(plugins), plugin) && ids == DropAlong(old(plugins), old(ids), plugin)
    {
      if plugin in plugins {
        UnlinkLinked(links, plugins, IndexIn(plugins, plugin));
      } else {
        UnlinkDetached(links, plugins, plugin);
      }
      links := Unlink(links, plugin);
      ids := DropAlong(plugins, ids, plugin);
      plugins := Drop(plugins, plugin);
    }

    /**
     * `ifp_loader_load_plugin`: refuse a listed filename, a library that
     * will not load, and a duplicate of a listed engine; otherwise append
     * the new plugin.
     */
    method LoadPlugin(filename: string, dlopen: string -> Option<Library>) returns (plugin: Plugin?)
      requires Invariant()
      modifies this
      ensures Invariant() && (old(Unique()) ==> Unique())
      ensures plugin != null <==> (!old(FilenameListed(filename)) && Loadable(dlopen(filename)) &&
                                   !old(EngineListed(Bind(dlopen(filename).value).value.header)))
      ensures plugin == null ==> plugins == old(plugins) && ids == old(ids)
      ensures plugin != null ==> (fresh(plugin) && plugins == old(plugins) + [plugin] &&
                                  plugin.state == Attached && plugin.filename == Some(filename) &&
                                  ids == old(ids) + [Identity(Some(filename), Some(Bind(dlopen(filename).value).value.header))])
    {
      var listed := FindFilename(filename);
      if listed {
        return null;
      }
      plugin := LoadNew(filename, dlopen(filename));
    }

    /** The part of `ifp_loader_load_plugin` after the filename check. */
    method LoadNew(filename: string, lib: Option<Library>) returns (plugin: Plugin?)
      requires Invariant() && !FilenameListed(filename)
      modifies this
      ensures Invariant() && (old(Unique()) ==> Unique())
      ensures plugin != null <==> (Loadable(lib) && !old(EngineListed(Bind(lib.value).value.header)))
      ensures plugin == null ==> plugins == old(plugins) && ids == old(ids)
      ensures plugin != null ==> (fresh(plugin) && plugins == old(plugins) + [plugin] &&
                                  plugin.state == Attached && plugin.filename == Some(filename) &&
                                  ids == old(ids) + [Identity(Some(filename), Some(Bind(lib.value).value.header))])
    {
      plugin := NewLoad(filename, lib);
      if plugin == null {
        return;
      }
      var duplicate := FindEngine(plugin.binding.value.header);
      if duplicate {
        Dispose(plugin);
        return null;
      }
      Admit(plugin);
    }

    /**
     * `ifp_loader_search_plugins_directory`.  `listing` is what `scandir`
     * returns for the directory, `None` when it cannot be read.  Each entry
     * with the `.so` extension is tried as `directory/entry`, in listing
     * order; the result counts the plugins that loaded.
     */
    method SearchDirectory(directory: string, listing: Option<seq<string>>, dlopen: string -> Option<Library>)
      returns (count: nat)
      requires Invariant()
      modifies this
      ensures Invariant() && (old(Unique()) ==> Unique())
      ensures listing.None? ==> count == 0 && plugins == old(plugins) && ids == old(ids)
      ensures |plugins| == |old(plugins)| + count
      ensures listing.Some? ==>
                GrewBy(old(plugins), old(ids), plugins, ids, Candidates(directory, DsoEntries(listing.value)), dlopen)
    {
      if listing.None? {
        return 0;
      }
      var entries := DsoEntries(listing.value);
      ghost var candidates := Candidates(directory, entries);
      ghost var plugins0, ids0 := plugins, ids;
      GrewByNothing(plugins, ids, dlopen);
      count := 0;
      for k := 0 to |entries|
        invariant Invariant() && (old(Unique()) ==> Unique())
        invariant |plugins| == |plugins0| + count
        invariant GrewBy(plugins0, ids0, plugins, ids, candidates[..k], dlopen)
      {
        var loaded := TryLoad(directory + "/" + entries[k], dlopen, plugins0, ids0, candidates[..k]);
        if loaded {
          count := count + 1;
        }
        PrefixStep(candidates, k);
      }
      assert candidates[..|entries|] == candidates;
    }

    /** One attempt of a directory search: the file is listed, or accounted for. */
    method TryLoad(path: string, dlopen: string -> Option<Library>,
                   ghost plugins0: seq<Plugin>, ghost ids0: seq<Identity>, ghost tried: seq<string>)
      returns (loaded: bool)
      requires Invariant() && GrewBy(plugins0, ids0, plugins, ids, tried, dlopen)
      modifies this
      ensures Invariant() && (old(Unique()) ==> Unique())
      ensures |plugins| == |old(plugins)| + (if loaded then 1 else 0)
      ensures GrewBy(plugins0, ids0, plugins, ids, tried + [path], dlopen)
    {
      ghost var plugins1, ids1 := plugins, ids;
      var plugin := LoadPlugin(path, dlopen);
      loaded := plugin != null;
      GrewByOne(plugins1, ids1, plugins, ids, path, dlopen);
      GrewByCompose(plugins0, ids0, plugins1, ids1, plugins, ids, tried, [path], dlopen);
    }

    /** One element of a path search: an empty element is skipped. */
    method SearchElement(directory: string, listing: string -> Option<seq<string>>, dlopen: string -> Option<Library>)
      returns (count: nat)
      requires Invariant()
      modifies this
      ensures Invariant() && (old(Unique()) ==> Unique())
      ensures |plugins| == |old(plugins)| + count
      ensures GrewBy(old(plugins), old(ids), plugins, ids, DirectoryCandidates(directory, listing), dlopen)
    {
      if |directory| > 0 {
        count := SearchDirectory(directory, listing(directory), dlopen);
      } else {
        count := 0;
      }
    }

    /**
     * `ifp_loader_search_plugins_path`: split the path on `:` and search
     * each non-empty element as a directory; `listing` gives what
     * `scandir` returns for each directory.  The result is the total
     * number of plugins loaded.
     */
    method SearchPath(loadPath: string, listing: string -> Option<seq<string>>, dlopen: string -> Option<Library>)
      returns (loaded: nat)
      requires Invariant()
      modifies this
      ensures Invariant() && (old(Unique()) ==> Unique())
      ensures |plugins| == |old(plugins)| + loaded
      ensures GrewBy(old(plugins), old(ids), plugins, ids, PathCandidates(Split(loadPath, ':'), listing), dlopen)
    {
      var count, elements := SplitString(loadPath, ':');
      ghost var plugins0, ids0 := plugins, ids;
      GrewByNothing(plugins, ids, dlopen);
      loaded := 0;
      for i := 0 to count
        invariant Invariant() && (old(Unique()) ==> Unique())
        invariant |plugins| == |plugins0| + loaded
        invariant GrewBy(plugins0, ids0, plugins, ids, PathCandidates(elements[..i], listing), dlopen)
      {
        ghost var plugins1, ids1 := plugins, ids;
        var n := SearchElement(elements[i], listing, dlopen);
        loaded := loaded + n;
        GrewByCompose(plugins0, ids0, plugins1, ids1, plugins, ids, PathCandidates(elements[..i], listing),
                      DirectoryCandidates(elements[i], listing), dlopen);
        PathCandidatesStep(elements, i, listing);
      }
      assert elements[..count] == elements;
    }

    /** Appending a loaded plugin whose filename and engine are new keeps the list free of duplicates. */
    method Admit(plugin: Plugin)
      requires Invariant() && plugin.Valid() && plugin.state != Unloaded
      requires plugin !in plugins && Detached(links, plugin)
      requires !FilenameListed(plugin.filename.value) && !EngineListed(plugin.binding.value.header)
      modifies this
      ensures Invariant() && (old(Unique()) ==> Unique())
      ensures plugins == old(plugins) + [plugin] && ids == old(ids) + [IdentityOf(plugin)]
    {
      if Unique() {
        NoClashesAppend(ids, IdentityOf(plugin));
      }
      Enlist(plugin);
    }

    /** Appending a loaded plugin keeps the list loaded. */
    method Enlist(plugin: Plugin)
      requires Invariant() && plugin.Valid() && plugin.state != Unloaded
      requires plugin !in plugins && Detached(links, plugin)
      modifies this
      ensures Invariant() && links == Append(old(links), plugin)
      ensures plugins == old(plugins) + [plugin] && ids == old(ids) + [IdentityOf(plugin)]
    {
      AllLoadedAppend(plugins, ids, plugin);
      Add(plugin);
    }

    /**
     * The unload and destroy of a plugin that is not listed, as for a
     * refused duplicate and at the end of `ifp_loader_forget_plugin`.
     */
    method Dispose(plugin: Plugin)
      requires Loaded() && plugin.Valid() && plugin !in plugins
      modifies plugin
      ensures Loaded()
      ensures old(plugin.IsUnloadable()) ==> plugin.magic == DestroyedMagic
      ensures !old(plugin.IsUnloadable()) ==> plugin.Valid() && plugin.state == old(plugin.state)
    {
      var _ := plugin.Unload();
      var _ := plugin.Destroy();
    }

    /**
     * `ifp_loader_forget_plugin`: a plugin that is initialized or running
     * is refused; any other is deleted from the list, unloaded and
     * destroyed.
     */
    method Forget(plugin: Plugin) returns (forgotten: bool)
      requires Invariant() && plugin.Valid() && (plugin in plugins || Detached(links, plugin))
      modifies this, plugin
      ensures Invariant() && (old(Unique()) ==> Unique())
      ensures forgotten <==> old(plugin.IsUnloadable())
      ensures forgotten ==> (plugins == Drop(old(plugins), plugin) && ids == DropAlong(old(plugins), old(ids), plugin) &&
                             Detached(links, plugin) && plugin.magic == DestroyedMagic)
      ensures !forgotten ==> plugins == old(plugins) && ids == old(ids) && links == old(links) && unchanged(plugin)
    {
      if !plugin.IsUnloadable() {
        return false;
      }
      Unlist(plugin);
      Dispose(plugin);
      forgotten := true;
    }

    /** Deleting a plugin from the list keeps the rest loaded, and distinct if they were. */
    method Unlist(plugin: Plugin)
      requires Invariant() && (plugin in plugins || Detached(links, plugin))
      modifies this
      ensures Invariant() && (old(Unique()) ==> Unique())
      ensures plugins == Drop(old(plugins), plugin) && ids == DropAlong(old(plugins), old(ids), plugin)
      ensures plugin !in plugins && Detached(links, plugin)
      ensures links == Unlink(old(links), plugin)
    {
      Dropped(plugins, ids, plugin);
      Delete(plugin);
    }

    /**
     * `ifp_loader_forget_all_plugins`: forget the head until the list is
     * empty.  The source expects every listed plugin to be unloadable;
     * were one not, forgetting it would fail and the loop would not end.
     */
    method ForgetAll() returns (count: nat)
      requires Invariant() && AllUnloadable()
      modifies this, plugins
      ensures Invariant() && plugins == [] && count == |old(plugins)|
      ensures forall i :: 0 <= i < |old(plugins)| ==> old(plugins)[i].magic == DestroyedMagic
    {
      ghost var all := plugins;
      count := 0;
      while links.head.Some?
        invariant Invariant() && AllUnloadable() && Distinct(all)
        invariant count <= |all| && plugins == all[count..]
        invariant forall i :: 0 <= i < count ==> all[i].magic == DestroyedMagic
        decreases |plugins|
      {
        assert links.head == Some(all[count]);
        ForgetHead();
        assert plugins == all[count + 1..];
        count := count + 1;
      }
    }

    /** One round of `ifp_loader_forget_all_plugins`: forget the head. */
    method ForgetHead()
      requires Invariant() && AllUnloadable() && links.head.Some?
      modifies this, links.head.value
      ensures Invariant() && AllUnloadable() && (old(Unique()) ==> Unique())
      ensures plugins == old(plugins[1..]) && old(plugins[0]).magic == DestroyedMagic
    {
      var plugin := links.head.value;
      assert plugin == plugins[0];
      assert IndexIn(plugins, plugin) == 0;
      ghost var rest := plugins[1..];
      var _ := Forget(plugin);
      assert plugins == rest;
    }

    /**
     * `ifp_loader_replace_with_clone`.  `copy` is the name of the
     * temporary copy of the original's file, or `None` when making it
     * failed.  The clone is loaded from the copy; if it loads, the
     * original is deleted from the list (but not unloaded) and the clone
     * appended, whether or not the original was listed.
     */
    method ReplaceWithClone(original: Plugin, copy: Option<string>, dlopen: string -> Option<Library>)
      returns (clone: Plugin?)
      requires Invariant() && original.Valid() && (original in plugins || Detached(links, original))
      modifies this
      ensures Invariant()
      ensures clone != null <==> copy.Some? && Loadable(dlopen(copy.value))
      ensures clone == null ==> plugins == old(plugins) && ids == old(ids)
      ensures clone != null ==> (fresh(clone) && clone.state == Attached && clone.filename == copy &&
                                 plugins == Drop(old(plugins), original) + [clone] && Detached(links, original))
      ensures (clone != null && old(Unique()) && original in old(plugins) && !old(FilenameListed(copy.value)) &&
               HasEngine(IdentityOf(original), clone.binding.value.header)) ==> Unique()
    {
      if copy.None? {
        return null;
      }
      clone := NewLoad(copy.value, dlopen(copy.value));
      if clone == null {
        return;
      }
      ReplaceWith(original, clone);
    }

    /** The delete and add of `ifp_loader_replace_with_clone`. */
    method ReplaceWith(original: Plugin, clone: Plugin)
      requires Invariant() && (original in plugins || Detached(links, original))
      requires clone.Valid() && clone.state != Unloaded && clone !in plugins && Detached(links, clone) && clone != original
      modifies this
      ensures Invariant() && Detached(links, original)
      ensures plugins == Drop(old(plugins), original) + [clone]
      ensures (old(Unique()) && original in old(plugins) && !old(FilenameListed(clone.filename.value)) &&
               HasEngine(IdentityOf(original), clone.binding.value.header)) ==> Unique()
    {
      if original in plugins {
        var k := IndexIn(plugins, original);
        assert ids[k] == IdentityOf(original);
        ReplacedNoClashes(ids, k, IdentityOf(clone));
      }
      ghost var rest := DropAlong(plugins, ids, original);
      UnlinkKeepsDetached(links, plugins, original, clone);
      Unlist(original);
      assert clone !in plugins && ids == rest;
      AppendKeepsDetached(links, plugins, clone, original);
      Enlist(clone);
      assert ids == rest + [IdentityOf(clone)];
    }
  }
}
