/**
 * IFP's URLs.  A URL string is split into a scheme and a hierarchical
 * part; `file:` URLs name local files (or, with a host other than
 * `localhost`, are fetched by FTP), and `http:` and `ftp:` URLs are looked
 * up in the URL cache and otherwise downloaded into a temporary file.  A
 * URL object moves from Unresolved to Resolving (a download is under way)
 * to Resolved, and scrubbing returns it to Unresolved.
 *
 * Signals, sockets, `access`, `mkstemp` and the download clients are not
 * modelled: their outcomes are parameters.
 */
module IfpUrl {
  import opened Text
  import opened IfpCache

  const EAGAIN := 11
  const EINVAL := 22
  const ENOTSUP := 95

  // Scheme and hierarchical part

  /**
   * `sscanf(urlpath, "%[a-zA-Z]%c", ...)` with the `:` check: a non-empty
   * run of letters followed by `:` is the scheme; anything else is taken
   * as a `file:` URL whose hierarchical part is the whole string.
   */
  function SplitScheme(urlpath: string): (string, string)
  {
    var j := Span(urlpath, 0, IsAlpha);
    if 0 < j < |urlpath| && urlpath[j] == ':' then (urlpath[..j], urlpath[j + 1..])
    else ("file", urlpath)
  }

  predicate AllAlpha(s: string) { forall k :: 0 <= k < |s| ==> IsAlpha(s[k]) }

  /** A string that starts with letters and a colon splits there. */
  lemma SchemeOfUrl(scheme: string, hier: string)
    requires |scheme| > 0 && AllAlpha(scheme)
    ensures SplitScheme(scheme + ":" + hier) == (scheme, hier)
  {
    var u := scheme + ":" + hier;
    SpanIs(u, 0, |scheme|, IsAlpha);
    assert u[..|scheme|] == scheme;
    assert u[|scheme| + 1..] == hier;
  }

  /** Otherwise the whole string is the hierarchical part of a `file:` URL. */
  lemma SchemeSplits(urlpath: string)
    ensures var (scheme, hier) := SplitScheme(urlpath);
      (scheme, hier) == ("file", urlpath) ||
      (|scheme| > 0 && AllAlpha(scheme) && urlpath == scheme + ":" + hier)
  {
    var j := Span(urlpath, 0, IsAlpha);
    if 0 < j < |urlpath| && urlpath[j] == ':' {
      assert urlpath == urlpath[..j] + ":" + urlpath[j + 1..];
    }
  }

  /**
   * The path of a `file:` URL: `///p` and `//localhost/p` give `/p`, any
   * other `//host...` is an FTP URL in disguise (`None`), and anything not
   * starting with `//` is the path itself.
   */
  function LocalTarget(hier: string): (r: Option<string>)
    ensures r.Some? ==> IsSuffix(r.value, hier)
  {
    if IsPrefix("//", hier) then
      if IsPrefix("///", hier) then Some(hier[2..])
      else if IsPrefix("//localhost/", hier) then Some(hier[11..])
      else None
    else Some(hier)
  }

  /** `///p` names the local file `/p`. */
  lemma EmptyHostIsLocal(p: string)
    ensures LocalTarget("//" + "/" + p) == Some("/" + p)
  {
    var h := "//" + "/" + p;
    assert h[..2] == "//" && h[..3] == "///";
    assert h[2..] == "/" + p;
  }

  /** `//localhost/p` names the local file `/p`. */
  lemma LocalhostIsLocal(p: string)
    ensures LocalTarget("//localhost" + "/" + p) == Some("/" + p)
  {
    var h := "//localhost" + "/" + p;
    assert h[..2] == "//" && h[..12] == "//localhost/";
    assert h[2] == 'l';
    assert h[11..] == "/" + p;
  }

  /** Any other host makes the URL an FTP URL. */
  lemma OtherHostIsRemote(hier: string)
    requires IsPrefix("//", hier) && !IsPrefix("///", hier) && !IsPrefix("//localhost/", hier)
    ensures LocalTarget(hier).None?
  {
  }

  datatype Kind = NoKind | File | Http | Ftp

  /**
   * What resolving a URL string does: open a local file, or fetch by HTTP
   * or FTP (looking up the cache under `lookupKey` first, with the default
   * port for the scheme), or fail with `ENOTSUP`.
   */
  datatype Plan = Local(path: string) | Fetch(kind: Kind, lookupKey: string, hier: string, defaultPort: int)
                | Unsupported

  /**
   * The plan of `ifp_url_resolve_async` as written: a `file:` URL with a
   * remote host is looked up in the cache as `ftp:` plus its hierarchical
   * part, while the URL keeps its own string as its path, and that path is
   * the key its download is later cached under.
   */
  function PlanAsWritten(urlpath: string): Plan
  {
    var (scheme, hier) := SplitScheme(urlpath);
    if EqualsIgnoreCase(scheme, "file") then
      match LocalTarget(hier) {
        case Some(path) => Local(path)
        case None => Fetch(Ftp, "ftp:" + hier, hier, 21)
      }
    else if EqualsIgnoreCase(scheme, "http") then Fetch(Http, urlpath, hier, 80)
    else if EqualsIgnoreCase(scheme, "ftp") then Fetch(Ftp, urlpath, hier, 21)
    else Unsupported
  }

  /**
   * `file://host/doc` is looked up under `ftp://host/doc` but cached under
   * `file://host/doc`, so resolving it a second time misses the cache; the
   * second download is then refused by the cache as a duplicate, and its
   * temporary file is dropped from the cleanup list without being deleted.
   */
  lemma DisguisedFtpMissesItsOwnEntry(hier: string)
    requires IsPrefix("//", hier) && !IsPrefix("///", hier) && !IsPrefix("//localhost/", hier)
    ensures PlanAsWritten("file:" + hier).Fetch?
    ensures PlanAsWritten("file:" + hier).lookupKey != "file:" + hier
  {
    var scheme := "file";
    FileIsFile(scheme);
    SchemeOfUrl(scheme, hier);
    DisguisedPlan(scheme + ":" + hier, scheme, hier);
    assert scheme + ":" + hier == "file:" + hier;
    assert |"ftp:" + hier| != |"file:" + hier|;
  }

  lemma FileIsFile(scheme: string)
    requires scheme == "file"
    ensures |scheme| > 0 && AllAlpha(scheme) && EqualsIgnoreCase(scheme, "file")
  {
  }

  lemma DisguisedPlan(urlpath: string, scheme: string, hier: string)
    requires SplitScheme(urlpath) == (scheme, hier) && EqualsIgnoreCase(scheme, "file")
    requires LocalTarget(hier).None?
    ensures PlanAsWritten(urlpath) == Fetch(Ftp, "ftp:" + hier, hier, 21)
  {
  }

  /** The plan the model uses: every fetch is looked up under the URL's own string. */
  function PlanOf(urlpath: string): (r: Plan)
    ensures r.Fetch? ==> r.lookupKey == urlpath
  {
    match PlanAsWritten(urlpath) {
      case Fetch(kind, _, hier, port) => Fetch(kind, urlpath, hier, port)
      case other => other
    }
  }

  /** Only the cache key of a disguised FTP URL differs from the code as written. */
  lemma PlanAgrees(urlpath: string)
    ensures PlanAsWritten(urlpath).Fetch? <==> PlanOf(urlpath).Fetch?
    ensures PlanOf(urlpath).Fetch? ==> PlanOf(urlpath) == PlanAsWritten(urlpath).(lookupKey := urlpath)
    ensures !PlanOf(urlpath).Fetch? ==> PlanOf(urlpath) == PlanAsWritten(urlpath)
  {
  }

  /** Scheme names are compared without regard to case. */
  lemma SchemeCaseIgnored(scheme: string, other: string, hier: string)
    requires |scheme| > 0 && AllAlpha(scheme) && |other| > 0 && AllAlpha(other)
    requires EqualsIgnoreCase(scheme, other)
    ensures PlanAsWritten(scheme + ":" + hier).Local? <==> PlanAsWritten(other + ":" + hier).Local?
    ensures PlanAsWritten(scheme + ":" + hier).Unsupported? <==> PlanAsWritten(other + ":" + hier).Unsupported?
  {
    SchemeOfUrl(scheme, hier);
    SchemeOfUrl(other, hier);
    SameFold(scheme, other, "file");
    SameFold(scheme, other, "http");
    SameFold(scheme, other, "ftp");
  }

  lemma SameFold(a: string, b: string, c: string)
    requires EqualsIgnoreCase(a, b)
    ensures EqualsIgnoreCase(a, c) <==> EqualsIgnoreCase(b, c)
  {
    CaseCompareZero(a, b);
    CaseCompareZero(a, c);
    CaseCompareZero(b, c);
  }

  // Host, port and document of a remote URL

  predicate IsHostChar(c: char) { IsAlpha(c) || IsDigit(c) || c == '.' || c == '=' || c == '_' || c == '-' }

  predicate IsWordChar(c: char) { !IsSpace(c) }

  datatype Remote = Remote(host: string, port: int, document: string)

  /** `//%[a-zA-Z0-9.=_-]`: the host and where it ends. */
  function ScanHost(hier: string): (r: Option<(string, nat)>)
    ensures r.Some? ==> 2 < r.value.1 <= |hier| && r.value.0 == hier[2..r.value.1]
  {
    if IsPrefix("//", hier) then
      var j := Span(hier, 2, IsHostChar);
      if j > 2 then Some((hier[2..j], j)) else None
    else None
  }

  /** The value of a run of decimal digits. */
  function DigitsValue(s: string): nat
  {
    if |s| == 0 then 0
    else DigitsValue(s[..|s| - 1]) * 10 + (s[|s| - 1] as int - '0' as int) % 10
  }

  /** `%d` from `i`: white space, an optional sign, then at least one digit. */
  function ScanInt(s: string, i: nat): (r: Option<(int, nat)>)
    requires i <= |s|
    ensures r.Some? ==> i < r.value.1 <= |s|
  {
    var k := Span(s, i, IsSpace);
    var sign := if k < |s| && (s[k] == '+' || s[k] == '-') then 1 else 0;
    var j := Span(s, k + sign, IsDigit);
    if j == k + sign then None
    else
      var v: int := DigitsValue(s[k + sign..j]);
      Some((if sign == 1 && s[k] == '-' then -v else v, j))
  }

  /** `%s` from `i`: white space, then a non-empty run of anything else. */
  function ScanWord(s: string, i: nat): (r: Option<string>)
    requires i <= |s|
    ensures r.Some? ==> |r.value| > 0 && forall k :: 0 <= k < |r.value| ==> IsWordChar(r.value[k])
  {
    var k := Span(s, i, IsSpace);
    var j := Span(s, k, IsWordChar);
    if j > k then Some(s[k..j]) else None
  }

  /** `//%[a-zA-Z0-9.=_-]:%d/%s`, all three conversions made. */
  function WithPort(hier: string): Option<Remote>
  {
    match ScanHost(hier) {
      case None => None
      case Some((host, j)) =>
        if j < |hier| && hier[j] == ':' then
          match ScanInt(hier, j + 1) {
            case None => None
            case Some((port, m)) =>
              if m < |hier| && hier[m] == '/' then
                match ScanWord(hier, m + 1) {
                  case None => None
                  case Some(document) => Some(Remote(host, port, document))
                }
              else None
          }
        else None
    }
  }

  /** `//%[a-zA-Z0-9.=_-]/%s`, with the scheme's default port. */
  function Portless(hier: string, defaultPort: int): Option<Remote>
  {
    match ScanHost(hier) {
      case None => None
      case Some((host, j)) =>
        if j < |hier| && hier[j] == '/' then
          match ScanWord(hier, j + 1) {
            case None => None
            case Some(document) => Some(Remote(host, defaultPort, document))
          }
        else None
    }
  }

  /**
   * The parse in `ifp_url_resolve_remote`: the form with a port, else the
   * form without one; a malformed URL or a port outside 1 to 65535 is
   * `EINVAL` (`None`).
   */
  function ParseRemote(hier: string, defaultPort: int): (r: Option<Remote>)
    ensures r.Some? ==> 1 <= r.value.port <= 65535
    ensures r.Some? ==> |r.value.host| > 0 && IsPrefix("//" + r.value.host, hier)
    ensures r.Some? ==> forall k :: 0 <= k < |r.value.host| ==> IsHostChar(r.value.host[k])
    ensures r.Some? ==> |r.value.document| > 0 && forall k :: 0 <= k < |r.value.document| ==> IsWordChar(r.value.document[k])
  {
    var parsed := if WithPort(hier).Some? then WithPort(hier) else Portless(hier, defaultPort);
    if parsed.Some? && 1 <= parsed.value.port <= 65535 then
      HostOf(hier, parsed.value);
      parsed
    else None
  }

  lemma HostOf(hier: string, r: Remote)
    requires WithPort(hier) == Some(r) || Portless(hier, r.port) == Some(r)
    ensures |r.host| > 0 && IsPrefix("//" + r.host, hier)
    ensures forall k :: 0 <= k < |r.host| ==> IsHostChar(r.host[k])
  {
    var j := ScanHost(hier).value.1;
    assert hier[..j] == "//" + r.host;
  }

  predicate IsHost(host: string)
  {
    |host| > 0 && forall k :: 0 <= k < |host| ==> IsHostChar(host[k])
  }

  predicate IsDocument(document: string)
  {
    |document| > 0 && forall k :: 0 <= k < |document| ==> IsWordChar(document[k])
  }

  /** The host of `//host...` is read up to its first other character. */
  lemma HostScan(host: string, rest: string)
    requires IsHost(host) && |rest| > 0 && !IsHostChar(rest[0])
    ensures ScanHost("//" + host + rest) == Some((host, 2 + |host|))
  {
    var h := "//" + host + rest;
    assert h[..2] == "//";
    SpanIs(h, 2, 2 + |host|, IsHostChar);
    assert h[2..2 + |host|] == host;
  }

  /** A document is read to the end. */
  lemma DocumentScan(s: string, i: nat)
    requires i <= |s| && IsDocument(s[i..])
    ensures ScanWord(s, i) == Some(s[i..])
  {
    assert s[i] == s[i..][0];
    SpanIs(s, i, i, IsSpace);
    forall k | i <= k < |s|
      ensures IsWordChar(s[k])
    {
      assert s[k] == s[i..][k - i];
    }
    SpanIs(s, i, |s|, IsWordChar);
    assert s[i..|s|] == s[i..];
  }

  /** `//host/document` parses with the default port. */
  lemma PortlessRoundTrip(host: string, document: string, defaultPort: int)
    requires IsHost(host) && IsDocument(document) && 1 <= defaultPort <= 65535
    ensures ParseRemote("//" + host + "/" + document, defaultPort) == Some(Remote(host, defaultPort, document))
  {
    var h := "//" + host + "/" + document;
    assert h == "//" + host + ("/" + document);
    HostScan(host, "/" + document);
    var j := 2 + |host|;
    assert h[j] == '/';
    assert h[j + 1..] == document;
    DocumentScan(h, j + 1);
  }

  /** `//host:port/document` parses with the port written, when it is in range. */
  lemma PortRoundTrip(host: string, digits: string, document: string, defaultPort: int)
    requires IsHost(host) && IsDocument(document) && |digits| > 0
    requires forall k :: 0 <= k < |digits| ==> IsDigit(digits[k])
    ensures ParseRemote("//" + host + ":" + digits + "/" + document, defaultPort) ==
      if 1 <= DigitsValue(digits) <= 65535 then Some(Remote(host, DigitsValue(digits), document)) else None
  {
    var h := "//" + host + ":" + digits + "/" + document;
    WithPortRoundTrip(host, digits, document);
    ParseWithPort(h, Remote(host, DigitsValue(digits), document), defaultPort);
  }

  lemma ParseWithPort(hier: string, r: Remote, defaultPort: int)
    requires WithPort(hier) == Some(r)
    ensures ParseRemote(hier, defaultPort) == if 1 <= r.port <= 65535 then Some(r) else None
  {
  }

  lemma WithPortRoundTrip(host: string, digits: string, document: string)
    requires IsHost(host) && IsDocument(document) && |digits| > 0
    requires forall k :: 0 <= k < |digits| ==> IsDigit(digits[k])
    ensures WithPort("//" + host + ":" + digits + "/" + document) == Some(Remote(host, DigitsValue(digits), document))
  {
    var h := "//" + host + ":" + digits + "/" + document;
    WithPortPieces(h, host, digits, document);
    WithPortFromPieces(h, host, digits, document);
  }

  lemma WithPortFromPieces(h: string, host: string, digits: string, document: string)
    requires IsHost(host) && IsDocument(document) && |digits| > 0
    requires forall k :: 0 <= k < |digits| ==> IsDigit(digits[k])
    requires |h| == 4 + |host| + |digits| + |document|
    requires h[..2 + |host|] == "//" + host && h[2 + |host|] == ':'
    requires h[3 + |host|..3 + |host| + |digits|] == digits && h[3 + |host| + |digits|] == '/'
    requires h[4 + |host| + |digits|..] == document
    ensures WithPort(h) == Some(Remote(host, DigitsValue(digits), document))
  {
    var j := 2 + |host|;
    var m := j + 1 + |digits|;
    HostAt(h, host);
    PortScan(h, j + 1, m, digits);
    DocumentScan(h, m + 1);
    WithPortAt(h, host, j, DigitsValue(digits), m, document);
  }

  /** Where each piece of `//host:digits/document` sits. */
  lemma WithPortPieces(h: string, host: string, digits: string, document: string)
    requires h == "//" + host + ":" + digits + "/" + document
    ensures |h| == 4 + |host| + |digits| + |document|
    ensures h[..2 + |host|] == "//" + host && h[2 + |host|] == ':'
    ensures h[3 + |host|..3 + |host| + |digits|] == digits && h[3 + |host| + |digits|] == '/'
    ensures h[4 + |host| + |digits|..] == document
  {
    var a := "//" + host;
    var b := a + ":";
    var c := b + digits;
    var d := c + "/";
    assert h[..|d|] == d && h[|d|..] == document;
    assert d[..|c|] == c && c[..|b|] == b && b[..|a|] == a;
    assert c[|b|..] == digits;
    assert h[..|a|] == a;
    assert h[|a|] == b[|a|];
    assert h[|b|..|c|] == c[|b|..];
    assert h[|c|] == d[|c|];
  }

  lemma HostAt(s: string, host: string)
    requires IsHost(host) && |s| > 2 + |host|
    requires s[..2 + |host|] == "//" + host && !IsHostChar(s[2 + |host|])
    ensures ScanHost(s) == Some((host, 2 + |host|))
  {
    assert s[..2] == ("//" + host)[..2] == "//";
    forall k | 2 <= k < 2 + |host|
      ensures IsHostChar(s[k])
    {
      assert s[k] == ("//" + host)[k] == host[k - 2];
    }
    SpanIs(s, 2, 2 + |host|, IsHostChar);
    assert s[2..2 + |host|] == ("//" + host)[2..] == host;
  }

  lemma WithPortAt(hier: string, host: string, j: nat, port: int, m: nat, document: string)
    requires ScanHost(hier) == Some((host, j)) && j < |hier| && hier[j] == ':'
    requires ScanInt(hier, j + 1) == Some((port, m)) && m < |hier| && hier[m] == '/'
    requires ScanWord(hier, m + 1) == Some(document)
    ensures WithPort(hier) == Some(Remote(host, port, document))
  {
  }

  lemma PortScan(s: string, i: nat, m: nat, digits: string)
    requires i <= m < |s| && s[i..m] == digits && |digits| > 0 && !IsDigit(s[m])
    requires forall k :: 0 <= k < |digits| ==> IsDigit(digits[k])
    ensures ScanInt(s, i) == Some((DigitsValue(digits) as int, m))
  {
    assert s[i] == digits[0];
    SpanIs(s, i, i, IsSpace);
    forall k | i <= k < m
      ensures IsDigit(s[k])
    {
      assert s[k] == digits[k - i];
    }
    SpanIs(s, i, m, IsDigit);
  }

  /** A server's default page, `//host/`, is a malformed URL. */
  lemma DefaultPageMalformed(host: string, defaultPort: int)
    requires IsHost(host)
    ensures ParseRemote("//" + host + "/", defaultPort).None?
  {
    var h := "//" + host + "/";
    HostScan(host, "/");
    assert Span(h, |h|, IsSpace) == |h|;
  }

  // The temporary file list

  /** The temporary files of downloads under way, newest first, and the files deleted so far. */
  class TmpFiles {
    var files: seq<string>
    var unlinked: seq<string>

    constructor ()
      ensures files == [] && unlinked == []
    {
      files := [];
      unlinked := [];
    }

    /** `ifp_url_tmpfile_add`: push at the head. */
    method Add(name: string)
      modifies this
      ensures files == [name] + old(files) && unlinked == old(unlinked)
    {
      files := [name] + files;
    }

    /** `ifp_url_tmpfile_delete`: drop every entry for the file, keeping the others in order. */
    method Delete(name: string)
      modifies this
      ensures files == Dropped(old(files), name) && unlinked == old(unlinked)
    {
      var list := files;
      var kept: seq<string> := [];
      for k := 0 to |list|
        invariant kept == Dropped(list[..k], name)
      {
        assert list[..k + 1][..k] == list[..k];
        if list[k] != name {
          kept := kept + [list[k]];
        }
      }
      assert list[..|list|] == list;
      files := kept;
    }

    /** Deleting a file from disk. */
    method Unlink(name: string)
      modifies this
      ensures unlinked == old(unlinked) + [name] && files == old(files)
    {
      unlinked := unlinked + [name];
    }

    /** `ifp_url_finalize_cleanup`: every listed file is deleted, head first, and the list emptied. */
    method FinalizeCleanup()
      modifies this
      ensures files == [] && unlinked == old(unlinked) + old(files)
    {
      while files != []
        invariant unlinked + files == old(unlinked) + old(files)
        decreases |files|
      {
        Associative(unlinked, [files[0]], files[1..]);
        unlinked := unlinked + [files[0]];
        files := files[1..];
      }
    }
  }

  /** The list without the entries for one file. */
  function Dropped(files: seq<string>, name: string): (r: seq<string>)
    ensures forall f :: f in r <==> f in files && f != name
  {
    if |files| == 0 then []
    else
      var front := Dropped(files[..|files| - 1], name);
      var f := files[|files| - 1];
      assert files == files[..|files| - 1] + [f];
      if f == name then front else front + [f]
  }

  /** Adding then deleting a file that was not listed leaves the list as it was. */
  lemma {:induction false} AddThenDelete(files: seq<string>, name: string)
    requires name !in files
    ensures Dropped([name] + files, name) == files
    decreases |files|
  {
    if |files| == 0 {
      assert [name] + files == [name];
      assert Dropped([name], name) == Dropped([], name);
    } else {
      var front := files[..|files| - 1];
      AddThenDelete(front, name);
      assert ([name] + files)[..|files|] == [name] + front;
    }
  }

  // The URL object

  datatype State = Unresolved | Resolving | Resolved

  /** Why a resolution failed: `EINVAL`, `ENOTSUP`, or some other cause the C library reports. */
  datatype Failure = NoFailure | Invalid | NotSupported | Other

  /**
   * What one poll of a download observes: whether `SIGIO` could be raised,
   * the status the download handlers then report, the size `stat` gives
   * the finished file, and the clock readings of the cache.
   */
  datatype Poll = Poll(raised: bool, downloadStatus: int, statSize: Option<nat>, now: Stamp, scavengeTime: Stamp)

  /** `ifp_url_set_pause_timeout` / `ifp_url_get_pause_timeout`. */
  class PauseTimeout {
    var timeout: int
    const environmentTimeout: Option<int>

    constructor (environmentTimeout: Option<int>)
      ensures timeout == 250000 && this.environmentTimeout == environmentTimeout
    {
      timeout := 250000;
      this.environmentTimeout := environmentTimeout;
    }

    /** A negative timeout is rejected and the old one kept. */
    method Set(newTimeout: int)
      modifies this
      ensures timeout == if newTimeout < 0 then old(timeout) else newTimeout
    {
      if newTimeout >= 0 {
        timeout := newTimeout;
      }
    }

    /** `IFP_URL_TIMEOUT` from the environment wins over the set value. */
    function Get(): int
      reads this
    {
      if environmentTimeout.Some? then environmentTimeout.value else timeout
    }
  }

  /** A poll that sees the download end: `SIGIO` raised and a status other than `EAGAIN`. */
  predicate Ends(p: Poll)
  {
    p.raised && p.downloadStatus != EAGAIN
  }

  /** The first poll that sees the download end, if any. */
  function Ended(polls: seq<Poll>): (r: Option<nat>)
    ensures r.None? <==> forall j :: 0 <= j < |polls| ==> !Ends(polls[j])
    ensures r.Some? ==> r.value < |polls| && Ends(polls[r.value])
    ensures r.Some? ==> forall j :: 0 <= j < r.value ==> !Ends(polls[j])
  {
    if |polls| == 0 then None
    else if Ends(polls[0]) then Some(0)
    else match Ended(polls[1..]) {
      case None => None
      case Some(j) => Some(j + 1)
    }
  }

  /** Dropping a file just pushed on the list is dropping it from the list as it was. */
  lemma {:induction false} DroppedPush(files: seq<string>, name: string)
    ensures Dropped([name] + files, name) == Dropped(files, name)
    decreases |files|
  {
    if |files| > 0 {
      var front := files[..|files| - 1];
      DroppedPush(front, name);
      assert ([name] + files)[..|files|] == [name] + front;
      assert ([name] + files)[|files|] == files[|files| - 1];
    }
  }

  class Url {
    var kind: Kind
    var state: State
    var progress: int
    var status: int
    var urlPath: string
    var dataFile: string

    /** Only remote URLs are ever under way, and an unresolved URL has no kind. */
    predicate Valid()
      reads this
    {
      (state == Unresolved ==> kind == NoKind) &&
      (state != Unresolved ==> kind != NoKind) &&
      (state == Resolving ==> kind == Http || kind == Ftp)
    }

    /** `ifp_url_new`: an empty, unresolved URL. */
    constructor ()
      ensures Valid() && state == Unresolved && kind == NoKind
    {
      kind := NoKind;
      state := Unresolved;
      progress := 0;
      status := 0;
      urlPath := "";
      dataFile := "";
    }

    /** `ifp_url_destroy`: refused unless the URL is unresolved. */
    method Destroy() returns (destroyed: bool)
      ensures destroyed <==> state == Unresolved
    {
      destroyed := state == Unresolved;
    }

    /** `ifp_url_get_url_path`: `NULL` unless resolving or resolved. */
    function UrlPath(): (r: Option<string>)
      reads this
      ensures r.Some? <==> state != Unresolved
    {
      if state != Unresolved then Some(urlPath) else None
    }

    /** `ifp_url_get_data_file`: `NULL` unless resolved. */
    function DataFile(): (r: Option<string>)
      reads this
      ensures r.Some? <==> state == Resolved
    {
      if state == Resolved then Some(dataFile) else None
    }

    /** `ifp_url_is_remote` */
    predicate IsRemote()
      reads this
    {
      kind == Http || kind == Ftp
    }

    /** `ifp_url_get_status_async`: `EAGAIN` until resolved. */
    function StatusAsync(): (r: int)
      reads this
      ensures state != Resolved ==> r == EAGAIN
    {
      if state == Resolved then status else EAGAIN
    }

    /**
     * `ifp_url_scrub`: a download under way is cancelled and its temporary
     * file dropped from the list and deleted; a resolved remote URL
     * releases its cache entry; in every case the URL ends unresolved.
     */
    method Scrub(tmpfiles: TmpFiles, cache: Cache)
      requires Valid() && cache.Valid()
      modifies this, tmpfiles, cache
      ensures Valid() && cache.Valid() && state == Unresolved && kind == NoKind
      ensures old(state) == Resolving ==>
        tmpfiles.files == Dropped(old(tmpfiles.files), old(dataFile)) &&
        tmpfiles.unlinked == old(tmpfiles.unlinked) + [old(dataFile)] &&
        cache.entries == old(cache.entries)
      ensures old(state) == Resolved && old(IsRemote()) ==>
        tmpfiles.files == old(tmpfiles.files) && tmpfiles.unlinked == old(tmpfiles.unlinked) &&
        match Find(old(cache.entries), old(urlPath))
          case None => cache.entries == old(cache.entries)
          case Some(k) =>
            var e := old(cache.entries)[k];
            cache.entries == old(cache.entries)[k := e.(references := if e.references > 0 then e.references - 1 else 0)]
      ensures (old(state) == Unresolved || (old(state) == Resolved && !old(IsRemote()))) ==>
        tmpfiles.files == old(tmpfiles.files) && tmpfiles.unlinked == old(tmpfiles.unlinked) &&
        cache.entries == old(cache.entries)
    {
      if state == Unresolved {
        return;
      }
      if state == Resolving {
        tmpfiles.Delete(dataFile);
        tmpfiles.Unlink(dataFile);
      } else if IsRemote() {
        cache.ReleaseEntry(urlPath);
      }
      kind := NoKind;
      state := Unresolved;
    }

    /**
     * `ifp_url_poll_resolved_async`: a resolved URL is ready at once.
     * Otherwise, once `SIGIO` is raised, the download handlers record the
     * download's status; a download no longer in progress makes the URL
     * resolved, its file is handed to the cache and dropped from the
     * temporary file list.  `statSize`, `now` and `scavengeTime` are what
     * the cache sees of the file and the clock.
     */
    method PollResolved(raised: bool, downloadStatus: int, tmpfiles: TmpFiles, cache: Cache,
                        statSize: Option<nat>, now: Stamp, scavengeTime: Stamp) returns (ready: bool)
      requires Valid() && cache.Valid()
      modifies this, tmpfiles, cache
      ensures Valid() && cache.Valid()
      ensures ready <==> old(state) == Resolved || (raised && old(state) == Resolving && downloadStatus != EAGAIN)
      ensures state == (if ready then Resolved else old(state))
      ensures kind == old(kind) && urlPath == old(urlPath) && dataFile == old(dataFile)
      ensures ready && old(state) == Resolving ==>
        status == downloadStatus &&
        tmpfiles.files == Dropped(old(tmpfiles.files), dataFile) &&
        cache.entries == (if Find(old(cache.entries), urlPath).None? && statSize.Some?
                          then Scavenged([IfpCache.Entry(urlPath, dataFile, statSize.value, 1, 1, now)] + old(cache.entries),
                                         scavengeTime, cache.Limit())
                          else old(cache.entries))
      ensures !ready ==> cache.entries == old(cache.entries) && tmpfiles.files == old(tmpfiles.files)
    {
      if state == Resolved {
        return true;
      }
      if !raised {
        return false;
      }
      if state == Resolving {
        status := downloadStatus;
      }
      if state == Resolving && status != EAGAIN {
        state := Resolved;
        var _ := cache.AddEntry(urlPath, dataFile, statSize, now, scavengeTime);
        tmpfiles.Delete(dataFile);
        return true;
      }
      return false;
    }

    /**
     * `ifp_url_resolve_async`: follow the plan for the URL string.  A local
     * file must be readable; a fetch first tries the cache, then parses the
     * host, port and document, creates a temporary file (`tmpName`, `None`
     * when `mkstemp` fails), lists it, and starts the download (`started`).
     * On success the URL keeps the string as its path.
     */
    method ResolveAsync(urlpath: string, handlerInstalled: bool, readable: string -> bool,
                        tmpName: Option<string>, started: bool, tmpfiles: TmpFiles, cache: Cache, now: Stamp)
      returns (ok: bool, failure: Failure)
      requires Valid() && cache.Valid()
      modifies this, tmpfiles, cache
      ensures Valid() && cache.Valid()
      ensures ok ==> failure == NoFailure && urlPath == urlpath && state != Unresolved
      ensures !ok ==> (state == old(state) && kind == old(kind) && dataFile == old(dataFile) &&
                       urlPath == old(urlPath) && cache.entries == old(cache.entries))
      ensures !handlerInstalled ==> !ok && failure == Other
      ensures handlerInstalled ==> match PlanOf(urlpath)
        case Local(path) =>
          (ok <==> readable(path)) && (!ok ==> failure == Other) &&
          (ok ==> kind == File && state == Resolved && status == 0 && dataFile == path)
        case Unsupported => !ok && failure == NotSupported
        case Fetch(k, key, hier, port) =>
          match Find(old(cache.entries), key)
            case Some(i) =>
              ok && kind == k && state == Resolved && status == 0 && dataFile == old(cache.entries)[i].dataFile
            case None =>
              (ok <==> ParseRemote(hier, port).Some? && tmpName.Some? && started) &&
              (ParseRemote(hier, port).None? ==> failure == Invalid) &&
              (ParseRemote(hier, port).Some? && !ok ==> failure == Other) &&
              (ok ==> kind == k && state == Resolving && dataFile == tmpName.value &&
                      tmpfiles.files == [tmpName.value] + old(tmpfiles.files))
    {
      if !handlerInstalled {
        return false, Other;
      }
      var plan := PlanOf(urlpath);
      match plan {
        case Local(path) =>
          if !readable(path) {
            return false, Other;
          }
          kind, state, progress, status, dataFile := File, Resolved, 0, 0, path;
          ok, failure := true, NoFailure;
        case Unsupported =>
          return false, NotSupported;
        case Fetch(k, key, hier, port) =>
          ok, failure := ResolveFetch(urlpath, k, key, hier, port, tmpName, started, tmpfiles, cache, now);
          return;
      }
      urlPath := urlpath;
    }

    /**
     * `ifp_url_resolve`: resolve, then poll until the URL is resolved,
     * pausing between polls; a download that ended with a non-zero status
     * is scrubbed and the resolution fails.  The polls are those the
     * download allows before it ends; when they run out with the download
     * still under way, `pending` says that the C loop would still be
     * waiting.
     */
    method Resolve(urlpath: string, handlerInstalled: bool, readable: string -> bool,
                   tmpName: Option<string>, started: bool, tmpfiles: TmpFiles, cache: Cache, now: Stamp,
                   polls: seq<Poll>) returns (ok: bool, pending: bool)
      requires Valid() && cache.Valid()
      modifies this, tmpfiles, cache
      ensures Valid() && cache.Valid()
      ensures !(ok && pending)
      ensures ok ==> state == Resolved && StatusAsync() == 0 && urlPath == urlpath
      ensures pending ==> state == Resolving && urlPath == urlpath
      ensures !ok && !pending ==> state == Unresolved || state == old(state)
      ensures !handlerInstalled || PlanOf(urlpath).Unsupported? ==> !ok && !pending && state == old(state)
      ensures handlerInstalled && PlanOf(urlpath).Local? ==>
        !pending && (ok <==> readable(PlanOf(urlpath).path))
      ensures handlerInstalled && PlanOf(urlpath).Fetch? ==>
        var key, hier, port := PlanOf(urlpath).lookupKey, PlanOf(urlpath).hier, PlanOf(urlpath).defaultPort;
        if Find(old(cache.entries), key).Some? then ok && !pending
        else if !(ParseRemote(hier, port).Some? && tmpName.Some? && started) then !ok && !pending && state == old(state)
        else match Ended(polls)
          case None => pending
          case Some(i) =>
            !pending && (ok <==> polls[i].downloadStatus == 0) &&
            (!ok ==> state == Unresolved) &&
            tmpfiles.files == Dropped(old(tmpfiles.files), tmpName.value)
    {
      ghost var files0 := tmpfiles.files;
      var resolving, _ := ResolveAsync(urlpath, handlerInstalled, readable, tmpName, started, tmpfiles, cache, now);
      if !resolving {
        return false, false;
      }
      if state == Resolving {
        ghost var files1 := tmpfiles.files;
        var ready := AwaitDownload(polls, tmpfiles, cache);
        if !ready {
          return false, true;
        }
        if tmpName.Some? && dataFile == tmpName.value && files1 == [tmpName.value] + files0 {
          DroppedPush(files0, tmpName.value);
        }
      }
      if status != 0 {
        Scrub(tmpfiles, cache);
        ok, pending := false, false;
      } else {
        ok, pending := true, false;
      }
    }

    /**
     * The polling loop of `ifp_url_resolve`: poll until the download is
     * seen to end or the polls run out.
     */
    method AwaitDownload(polls: seq<Poll>, tmpfiles: TmpFiles, cache: Cache) returns (ready: bool)
      requires Valid() && cache.Valid() && state == Resolving
      modifies this, tmpfiles, cache
      ensures Valid() && cache.Valid()
      ensures urlPath == old(urlPath) && kind == old(kind) && dataFile == old(dataFile)
      ensures ready <==> Ended(polls).Some?
      ensures state == if ready then Resolved else Resolving
      ensures !ready ==> tmpfiles.files == old(tmpfiles.files)
      ensures ready ==> status == polls[Ended(polls).value].downloadStatus &&
                        tmpfiles.files == Dropped(old(tmpfiles.files), dataFile)
    {
      ready := false;
      var i := 0;
      while !ready && i < |polls|
        invariant Valid() && cache.Valid() && i <= |polls|
        invariant urlPath == old(urlPath) && kind == old(kind) && dataFile == old(dataFile)
        invariant state == (if ready then Resolved else Resolving)
        invariant !ready ==> tmpfiles.files == old(tmpfiles.files)
        invariant !ready ==> forall j :: 0 <= j < i ==> !Ends(polls[j])
        invariant ready ==> 0 < i && Ends(polls[i - 1]) && status == polls[i - 1].downloadStatus &&
                            tmpfiles.files == Dropped(old(tmpfiles.files), dataFile) &&
                            forall j :: 0 <= j < i - 1 ==> !Ends(polls[j])
        decreases |polls| - i
      {
        ready := PollDownload(polls[i], tmpfiles, cache);
        i := i + 1;
      }
      assert ready ==> Ended(polls) == Some(i - 1);
    }

    /** One poll of a download under way, as the polling loop sees it. */
    method PollDownload(p: Poll, tmpfiles: TmpFiles, cache: Cache) returns (ready: bool)
      requires Valid() && cache.Valid() && state == Resolving
      modifies this, tmpfiles, cache
      ensures Valid() && cache.Valid()
      ensures urlPath == old(urlPath) && kind == old(kind) && dataFile == old(dataFile)
      ensures ready <==> Ends(p)
      ensures state == if ready then Resolved else Resolving
      ensures !ready ==> tmpfiles.files == old(tmpfiles.files)
      ensures ready ==> status == p.downloadStatus && tmpfiles.files == Dropped(old(tmpfiles.files), dataFile)
    {
      ready := PollResolved(p.raised, p.downloadStatus, tmpfiles, cache, p.statSize, p.now, p.scavengeTime);
    }

    /** The fetched schemes: the cache first, then a download. */
    method ResolveFetch(urlpath: string, k: Kind, key: string, hier: string, port: int,
                        tmpName: Option<string>, started: bool, tmpfiles: TmpFiles, cache: Cache, now: Stamp)
      returns (ok: bool, failure: Failure)
      requires Valid() && cache.Valid() && (k == Http || k == Ftp)
      modifies this, tmpfiles, cache
      ensures Valid() && cache.Valid()
      ensures ok ==> failure == NoFailure && urlPath == urlpath && state != Unresolved
      ensures !ok ==> (state == old(state) && kind == old(kind) && dataFile == old(dataFile) &&
                       urlPath == old(urlPath) && cache.entries == old(cache.entries))
      ensures match Find(old(cache.entries), key)
        case Some(i) =>
          ok && kind == k && state == Resolved && status == 0 && dataFile == old(cache.entries)[i].dataFile
        case None =>
          (ok <==> ParseRemote(hier, port).Some? && tmpName.Some? && started) &&
          (ParseRemote(hier, port).None? ==> failure == Invalid) &&
          (ParseRemote(hier, port).Some? && !ok ==> failure == Other) &&
          (ok ==> kind == k && state == Resolving && dataFile == tmpName.value &&
                  tmpfiles.files == [tmpName.value] + old(tmpfiles.files))
    {
      ok := ResolveCache(key, k, cache, now);
      failure := NoFailure;
      if !ok {
        ok, failure := ResolveRemote(hier, port, k, tmpName, started, tmpfiles);
      }
      if ok {
        urlPath := urlpath;
      }
    }

    /** `ifp_url_resolve_cache`: a cache hit resolves the URL to the cached file. */
    method ResolveCache(key: string, k: Kind, cache: Cache, now: Stamp) returns (hit: bool)
      requires Valid() && cache.Valid() && k != NoKind
      modifies this, cache
      ensures Valid() && cache.Valid() && urlPath == old(urlPath)
      ensures hit <==> Find(old(cache.entries), key).Some?
      ensures hit ==> kind == k && state == Resolved && status == 0 && dataFile == old(cache.entries)[Find(old(cache.entries), key).value].dataFile
      ensures !hit ==> (state == old(state) && kind == old(kind) && dataFile == old(dataFile) &&
                        cache.entries == old(cache.entries))
    {
      var file := cache.FindEntry(key, now);
      if file.None? {
        return false;
      }
      kind, state, progress, status, dataFile := k, Resolved, 0, 0, file.value;
      hit := true;
    }

    /**
     * `ifp_url_resolve_remote`: parse the hierarchical part, create and
     * list a temporary file, and start the download; a download that does
     * not start has its file dropped from the list and deleted.
     */
    method ResolveRemote(hier: string, defaultPort: int, k: Kind, tmpName: Option<string>, started: bool,
                         tmpfiles: TmpFiles) returns (ok: bool, failure: Failure)
      requires Valid() && (k == Http || k == Ftp)
      modifies this, tmpfiles
      ensures Valid() && urlPath == old(urlPath)
      ensures ok <==> ParseRemote(hier, defaultPort).Some? && tmpName.Some? && started
      ensures ok ==> failure == NoFailure
      ensures ParseRemote(hier, defaultPort).None? ==> failure == Invalid
      ensures ParseRemote(hier, defaultPort).Some? && !ok ==> failure == Other
      ensures ok ==> (kind == k && state == Resolving && dataFile == tmpName.value &&
                      tmpfiles.files == [tmpName.value] + old(tmpfiles.files))
      ensures !ok ==> state == old(state) && kind == old(kind) && dataFile == old(dataFile)
    {
      var remote := ParseRemote(hier, defaultPort);
      if remote.None? {
        return false, Invalid;
      }
      if tmpName.None? {
        return false, Other;
      }
      tmpfiles.Add(tmpName.value);
      if !started {
        tmpfiles.Delete(tmpName.value);
        tmpfiles.Unlink(tmpName.value);
        return false, Other;
      }
      kind, state, dataFile := k, Resolving, tmpName.value;
      ok, failure := true, NoFailure;
    }
  }

  /**
   * `ifp_url_new_resolve`: `NULL` when the new URL cannot be resolved or
   * its download failed; `pending` as in `Url.Resolve`.
   */
  method NewResolve(urlpath: string, handlerInstalled: bool, readable: string -> bool,
                    tmpName: Option<string>, started: bool, tmpfiles: TmpFiles, cache: Cache, now: Stamp,
                    polls: seq<Poll>) returns (url: Url?, pending: bool)
    requires cache.Valid()
    modifies tmpfiles, cache
    ensures cache.Valid()
    ensures url == null ==> !pending
    ensures url != null ==> fresh(url) && url.Valid() && url.urlPath == urlpath
    ensures url != null && !pending ==> url.state == Resolved && url.StatusAsync() == 0
    ensures url != null && pending ==> url.state == Resolving
    ensures handlerInstalled && PlanOf(urlpath).Local? ==> (url != null <==> readable(PlanOf(urlpath).path))
    ensures !handlerInstalled || PlanOf(urlpath).Unsupported? ==> url == null
    ensures handlerInstalled && PlanOf(urlpath).Fetch? ==>
      var key, hier, port := PlanOf(urlpath).lookupKey, PlanOf(urlpath).hier, PlanOf(urlpath).defaultPort;
      if Find(old(cache.entries), key).Some? then url != null && !pending
      else if !(ParseRemote(hier, port).Some? && tmpName.Some? && started) then url == null
      else match Ended(polls)
        case None => url != null && pending
        case Some(i) =>
          (url != null <==> polls[i].downloadStatus == 0) &&
          tmpfiles.files == Dropped(old(tmpfiles.files), tmpName.value)
  {
    url := new Url();
    var ok;
    ok, pending := url.Resolve(urlpath, handlerInstalled, readable, tmpName, started, tmpfiles, cache, now, polls);
    if !ok && !pending {
      var _ := url.Destroy();
      url := null;
    }
  }

  /** `ifp_url_forget`: scrub, then destroy, which always succeeds on a scrubbed URL. */
  method Forget(url: Url, tmpfiles: TmpFiles, cache: Cache) returns (destroyed: bool)
    requires url.Valid() && cache.Valid()
    modifies url, tmpfiles, cache
    ensures destroyed && url.state == Unresolved
  {
    url.Scrub(tmpfiles, cache);
    destroyed := url.Destroy();
  }

  /** `ifp_url_new_resolve_async`: `NULL` when the new URL cannot be resolved. */
  method NewResolveAsync(urlpath: string, handlerInstalled: bool, readable: string -> bool,
                         tmpName: Option<string>, started: bool, tmpfiles: TmpFiles, cache: Cache, now: Stamp)
    returns (url: Url?)
    requires cache.Valid()
    modifies tmpfiles, cache
    ensures cache.Valid()
    ensures url != null ==> fresh(url) && url.Valid() && url.state != Unresolved && url.urlPath == urlpath
    ensures handlerInstalled && PlanOf(urlpath).Local? ==> (url != null <==> readable(PlanOf(urlpath).path))
    ensures !handlerInstalled || PlanOf(urlpath).Unsupported? ==> url == null
  {
    url := new Url();
    var ok, _ := url.ResolveAsync(urlpath, handlerInstalled, readable, tmpName, started, tmpfiles, cache, now);
    if !ok {
      var _ := url.Destroy();
      url := null;
    }
  }
}
