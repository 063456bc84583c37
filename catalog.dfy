/**
 * The catalog generator script: it turns a list of file paths into one
 * catalog document (IFMES RDF, IFMES INI or iFiction) with a title derived
 * from each file name.  Opening the output file, `os.path.abspath` and
 * `os.path.exists` are outside the model and come in as parameters; the
 * rest of `main` is modelled step by step.
 */
module Catalog {
  import opened Text

  // ---------------------------------------------------------------------
  // Path helpers (os.path on POSIX)
  // ---------------------------------------------------------------------

  /** `str.rfind`: the index of the last `c` in `s`, or -1. */
  function LastIndex(s: string, c: char): (r: int)
    ensures -1 <= r < |s|
    ensures r >= 0 ==> s[r] == c
    ensures forall k :: r < k < |s| ==> s[k] != c
  {
    if |s| == 0 then -1
    else if s[|s| - 1] == c then |s| - 1
    else LastIndex(s[..|s| - 1], c)
  }

  lemma {:induction false} LastIndexAppend(a: string, b: string, c: char)
    ensures LastIndex(a + b, c) == if c in b then |a| + LastIndex(b, c) else LastIndex(a, c)
    decreases |b|
  {
    if |b| == 0 {
      assert a + b == a;
    } else {
      assert (a + b)[..|a + b| - 1] == a + b[..|b| - 1];
      if b[|b| - 1] != c {
        LastIndexAppend(a, b[..|b| - 1], c);
        assert c in b <==> c in b[..|b| - 1] by {
          if c in b {
            var k :| 0 <= k < |b| && b[k] == c;
            assert b[..|b| - 1][k] == c;
          }
        }
      }
    }
  }

  /** `os.path.basename`: everything after the last '/'. */
  function Basename(p: string): (r: string)
    ensures '/' !in r && IsSuffix(r, p)
  {
    p[LastIndex(p, '/') + 1..]
  }

  /**
   * `os.path.splitext` of Python 2.2, the interpreter the script names on
   * its first line: the extension runs from the last '.' to the end when
   * that '.' comes after the last '/', leading dots of the final component
   * included; otherwise there is no extension.
   */
  function SplitExt(p: string): (r: (string, string))
    ensures r.0 + r.1 == p
  {
    var sep := LastIndex(p, '/');
    var dot := LastIndex(p, '.');
    if dot > sep then (p[..dot], p[dot..]) else (p, "")
  }

  /** An extension as `splitext` returns it: a '.', then no '.' and no '/'. */
  predicate IsExtension(e: string)
  {
    |e| > 0 && e[0] == '.' && '.' !in e[1..] && '/' !in e
  }

  /** `splitext` gives the extension `e` exactly when `p` ends in `e`. */
  lemma SplitExtIs(p: string, e: string)
    requires IsExtension(e)
    ensures SplitExt(p).1 == e <==> IsSuffix(e, p)
  {
    if IsSuffix(e, p) {
      SplitExtOfSuffix(p, e);
    }
  }

  /** When `p` ends in the extension `e`, `splitext` cuts exactly `e` off. */
  lemma SplitExtOfSuffix(p: string, e: string)
    requires IsExtension(e) && IsSuffix(e, p)
    ensures SplitExt(p) == (p[..|p| - |e|], e)
  {
    SuffixPositions(p, e);
    var dot := LastIndex(p, '.');
    assert p[dot..] == e;
  }

  /** In `q + e`, the last '.' is the first character of `e` and the last '/' is in `q`. */
  lemma SuffixPositions(p: string, e: string)
    requires IsExtension(e) && IsSuffix(e, p)
    ensures LastIndex(p, '.') == |p| - |e| && LastIndex(p, '/') == LastIndex(p[..|p| - |e|], '/')
  {
    var q := p[..|p| - |e|];
    assert p == q + e;
    LastIndexAppend(q, e, '/');
    LastIndexAppend(q, e, '.');
    ExtensionDot(e);
  }

  lemma ExtensionDot(e: string)
    requires IsExtension(e)
    ensures LastIndex(e, '.') == 0 && '/' !in e
  {
    forall k | 0 < k < |e| ensures e[k] != '.' { assert e[k] == e[1..][k - 1]; }
    LastIndexIs(e, '.', 0);
  }

  /**
   * The extension `splitext` returns is empty exactly when the final
   * component holds no '.'; otherwise it is an extension.
   */
  lemma SuffixOfSplitExt(p: string)
    ensures SplitExt(p).1 == "" <==> forall k :: LastIndex(p, '/') < k < |p| ==> p[k] != '.'
    ensures SplitExt(p).1 != "" ==> IsExtension(SplitExt(p).1)
  {
    var sep := LastIndex(p, '/');
    var dot := LastIndex(p, '.');
    var e := SplitExt(p).1;
    if dot > sep {
      assert e == p[dot..] && e[0] == '.';
      forall k | 0 <= k < |e| ensures e[k] != '/' && (k > 0 ==> e[k] != '.') {
        assert e[k] == p[dot + k];
      }
      assert '.' !in e[1..] by {
        forall k | 0 <= k < |e| - 1 ensures e[1..][k] != '.' { assert e[1..][k] == e[k + 1]; }
      }
    }
  }

  // ---------------------------------------------------------------------
  // Titles
  // ---------------------------------------------------------------------

  /** `str.replace(old, new)` for single characters. */
  function Replace(s: string, from: char, to: char): (r: string)
    ensures |r| == |s|
    ensures forall i :: 0 <= i < |s| ==> r[i] == if s[i] == from then to else s[i]
  {
    seq(|s|, i requires 0 <= i < |s| => if s[i] == from then to else s[i])
  }

  /**
   * `str.title` on a byte string: a letter after a letter is lower-cased,
   * any other letter upper-cased; `prevCased` says whether the character
   * before `s` was a letter.
   */
  function TitleFrom(s: string, prevCased: bool): (r: string)
    ensures |r| == |s|
  {
    if |s| == 0 then ""
    else if IsUpper(s[0]) then [if prevCased then ToLower(s[0]) else s[0]] + TitleFrom(s[1..], true)
    else if IsLower(s[0]) then [if prevCased then s[0] else ToUpper(s[0])] + TitleFrom(s[1..], true)
    else [s[0]] + TitleFrom(s[1..], false)
  }

  function Title(s: string): string { TitleFrom(s, false) }

  /** The character `str.title` puts at position `i`. */
  function TitleChar(s: string, i: nat): char
    requires i < |s|
  {
    if !IsAlpha(s[i]) then s[i]
    else if i == 0 || !IsAlpha(s[i - 1]) then ToUpper(s[i])
    else ToLower(s[i])
  }

  lemma {:induction false} TitleFromAt(s: string, prevCased: bool, i: nat)
    requires i < |s|
    requires i == 0 ==> (prevCased <==> false)
    ensures TitleFrom(s, prevCased)[i] == TitleChar(s, i)
  {
    if i > 0 {
      TitleFromAt2(s, prevCased, i);
    }
  }

  lemma {:induction false} TitleFromAt2(s: string, prevCased: bool, i: nat)
    requires 0 < i < |s|
    ensures TitleFrom(s, prevCased)[i] == TitleChar(s, i)
    decreases i
  {
    var next := IsAlpha(s[0]);
    assert TitleFrom(s, prevCased)[i] == TitleFrom(s[1..], next)[i - 1];
    if i == 1 {
      assert s[1..][0] == s[1];
      TitleFromHead(s[1..], next);
    } else {
      TitleFromAt2(s[1..], next, i - 1);
      assert s[1..][i - 1] == s[i] && s[1..][i - 2] == s[i - 1];
    }
  }

  lemma TitleFromHead(s: string, prevCased: bool)
    requires |s| > 0
    ensures TitleFrom(s, prevCased)[0] ==
      if !IsAlpha(s[0]) then s[0] else if prevCased then ToLower(s[0]) else ToUpper(s[0])
  {
  }

  /** Every character of `str.title`'s result is given by `TitleChar`. */
  lemma TitleIsPointwise(s: string)
    ensures |Title(s)| == |s|
    ensures forall i :: 0 <= i < |s| ==> Title(s)[i] == TitleChar(s, i)
  {
    forall i | 0 <= i < |s| ensures Title(s)[i] == TitleChar(s, i) {
      TitleFromAt(s, false, i);
    }
  }

  /** `get_title`: the file name without directory and extension, `_` as space, title-cased. */
  function GetTitle(path: string): string
  {
    Title(Replace(Basename(SplitExt(path).0), '_', ' '))
  }

  /**
   * The title has one character per character of the file-name stem, no
   * underscore and no '/', and agrees with the stem apart from case.
   */
  lemma GetTitleShape(path: string)
    ensures var stem := Basename(SplitExt(path).0);
      |GetTitle(path)| == |stem|
      && '_' !in GetTitle(path) && '/' !in GetTitle(path)
      && forall i :: 0 <= i < |stem| ==>
           ToLower(GetTitle(path)[i]) == ToLower(if stem[i] == '_' then ' ' else stem[i])
  {
    var stem := Basename(SplitExt(path).0);
    var title := GetTitle(path);
    TitleIsPointwise(Replace(stem, '_', ' '));
    forall i | 0 <= i < |stem|
      ensures title[i] != '_' && title[i] != '/'
      ensures ToLower(title[i]) == ToLower(if stem[i] == '_' then ' ' else stem[i])
    {
      TitleCharOfStem(stem, i);
    }
  }

  /** One character of a title made from a stem with no '/'. */
  lemma TitleCharOfStem(stem: string, i: nat)
    requires '/' !in stem && i < |stem|
    ensures var c := TitleChar(Replace(stem, '_', ' '), i);
      c != '_' && c != '/' && ToLower(c) == ToLower(if stem[i] == '_' then ' ' else stem[i])
  {
    assert stem[i] in stem;
  }

  /** `zork_1.z5` becomes `Zork 1`. */
  lemma GetTitleExample()
    ensures GetTitle("/games/zork_1.z5") == "Zork 1"
  {
    ExampleStem();
    ExampleBase();
    ExampleSpaced();
    ExampleCased();
  }

  lemma ExampleStem()
    ensures SplitExt("/games/zork_1.z5").0 == "/games/zork_1"
  {
    var p := "/games/zork_1.z5";
    LastIndexIs(p, '/', 6);
    LastIndexIs(p, '.', 13);
  }

  lemma ExampleBase()
    ensures Basename("/games/zork_1") == "zork_1"
  {
    LastIndexIs("/games/zork_1", '/', 6);
  }

  lemma ExampleSpaced()
    ensures Replace("zork_1", '_', ' ') == "zork 1"
  {
  }

  lemma ExampleCased()
    ensures Title("zork 1") == "Zork 1"
  {
  }

  lemma LastIndexIs(s: string, c: char, i: int)
    requires -1 <= i < |s| && (i >= 0 ==> s[i] == c)
    requires forall k :: i < k < |s| ==> s[k] != c
    ensures LastIndex(s, c) == i
  {
  }

  // ---------------------------------------------------------------------
  // The game-file filter
  // ---------------------------------------------------------------------

  const GameSuffixes: seq<string> :=
    [".z1", ".z2", ".z3", ".z4", ".z5", ".z6", ".z7", ".z8", ".z9",
     ".dat", ".acd", ".gam", ".taf", ".blb", ".ulx", ".zip", ".hex",
     ".sna", ".mag", ".lev", ".d$$", ".xml"]

  /** `is_gamelike`: the extension, compared case-sensitively, is a listed one. */
  predicate IsGamelike(path: string)
  {
    SplitExt(path).1 in GameSuffixes
  }

  lemma SuffixesAreExtensions()
    ensures |GameSuffixes| == 22
    ensures forall e :: e in GameSuffixes ==> IsExtension(e)
  {
    forall k | 0 <= k < |GameSuffixes| ensures IsExtension(GameSuffixes[k]) {
      ShortExtension(GameSuffixes[k]);
    }
  }

  /** Three or four characters: a '.', then letters, digits or '$'. */
  lemma ShortExtension(e: string)
    requires 3 <= |e| <= 4 && e[0] == '.'
    requires forall k :: 1 <= k < |e| ==> e[k] == '$' || IsAlpha(e[k]) || IsDigit(e[k])
    ensures IsExtension(e)
  {
    assert forall k :: 0 <= k < |e| - 1 ==> e[1..][k] == e[k + 1];
  }

  /** A path is game-like exactly when it ends in one of the 22 suffixes. */
  lemma IsGamelikeExactly(path: string)
    ensures IsGamelike(path) <==> exists e :: e in GameSuffixes && IsSuffix(e, path)
  {
    SuffixesAreExtensions();
    if IsGamelike(path) {
      var e := SplitExt(path).1;
      SplitExtIs(path, e);
    }
    if exists e :: e in GameSuffixes && IsSuffix(e, path) {
      var e :| e in GameSuffixes && IsSuffix(e, path);
      SplitExtIs(path, e);
    }
  }

  /**
   * The comparison is case-sensitive, and a file name made only of a
   * suffix, such as `.z5`, is game-like.
   */
  lemma IsGamelikeExamples()
    ensures IsGamelike("zork.z5")
    ensures !IsGamelike("ZORK.Z5")
    ensures IsGamelike("/games/.z5")
  {
    ZorkIsGamelike();
    UpperIsNot();
    DotFileIs();
  }

  lemma ZorkIsGamelike()
    ensures IsGamelike("zork.z5")
  {
    SuffixesAreExtensions();
    SplitExtIs("zork.z5", ".z5");
  }

  lemma UpperIsNot()
    ensures SplitExt("ZORK.Z5").1 == ".Z5" && !IsGamelike("ZORK.Z5")
  {
    LastIndexIs("ZORK.Z5", '/', -1);
    LastIndexIs("ZORK.Z5", '.', 4);
  }

  lemma DotFileIs()
    ensures SplitExt("/games/.z5") == ("/games/", ".z5") && IsGamelike("/games/.z5")
  {
    LastIndexIs("/games/.z5", '/', 6);
    var p := "/games/.z5";
    LastIndexIs(p, '.', 7);
    assert p[..7] == "/games/";
    assert p[7..] == ".z5";
    assert GameSuffixes[4] == ".z5";
  }

  /** The paths of `files` for which `keep` holds, in input order. */
  function Keep(files: seq<string>, keep: string -> bool): seq<string>
  {
    if |files| == 0 then []
    else (if keep(files[0]) then [files[0]] else []) + Keep(files[1..], keep)
  }

  /** The `-f` filter: the game-like paths, in input order. */
  function FilterGamelike(files: seq<string>): seq<string>
  {
    Keep(files, IsGamelike)
  }

  /** `a` is `b` with some elements left out, order kept. */
  predicate IsSubsequence(a: seq<string>, b: seq<string>)
    decreases |b|
  {
    if |a| == 0 then true
    else if |b| == 0 then false
    else (a[0] == b[0] && IsSubsequence(a[1..], b[1..])) || IsSubsequence(a, b[1..])
  }

  lemma {:induction false} KeepIsSubsequence(files: seq<string>, keep: string -> bool)
    ensures IsSubsequence(Keep(files, keep), files)
    ensures forall f :: f in Keep(files, keep) <==> f in files && keep(f)
  {
    if |files| > 0 {
      KeepIsSubsequence(files[1..], keep);
      assert files == [files[0]] + files[1..];
      if keep(files[0]) {
        assert Keep(files, keep) == [files[0]] + Keep(files[1..], keep);
        assert Keep(files, keep)[1..] == Keep(files[1..], keep);
      } else {
        assert Keep(files, keep) == Keep(files[1..], keep);
      }
    }
  }

  lemma {:induction false} KeepIdempotent(files: seq<string>, keep: string -> bool)
    ensures Keep(Keep(files, keep), keep) == Keep(files, keep)
  {
    if |files| > 0 {
      KeepIdempotent(files[1..], keep);
      var r := Keep(files, keep);
      if keep(files[0]) {
        assert r == [files[0]] + Keep(files[1..], keep);
        assert r[0] == files[0] && r[1..] == Keep(files[1..], keep);
        assert Keep(r, keep) == [files[0]] + Keep(r[1..], keep);
      } else {
        assert r == Keep(files[1..], keep);
      }
    }
  }

  lemma {:induction false} KeepAppend(a: seq<string>, b: seq<string>, keep: string -> bool)
    ensures Keep(a + b, keep) == Keep(a, keep) + Keep(b, keep)
  {
    if |a| == 0 {
      assert a + b == b;
    } else {
      assert (a + b)[0] == a[0] && (a + b)[1..] == a[1..] + b;
      KeepAppend(a[1..], b, keep);
    }
  }

  /**
   * The `-f` filter keeps exactly the game-like paths as a subsequence of its
   * input, in order (it distributes over concatenation), and applying it
   * twice is the same as applying it once.
   */
  lemma FilterGamelikeProperties(files: seq<string>, more: seq<string>)
    ensures IsSubsequence(FilterGamelike(files), files)
    ensures forall f :: f in FilterGamelike(files) <==> f in files && IsGamelike(f)
    ensures FilterGamelike(FilterGamelike(files)) == FilterGamelike(files)
    ensures FilterGamelike(files + more) == FilterGamelike(files) + FilterGamelike(more)
  {
    KeepIsSubsequence(files, IsGamelike);
    KeepIdempotent(files, IsGamelike);
    KeepAppend(files, more, IsGamelike);
  }

  // ---------------------------------------------------------------------
  // Standard input lines
  // ---------------------------------------------------------------------

  function StripLeft(s: string): (r: string)
    ensures IsSuffix(r, s)
    ensures forall k :: 0 <= k < |s| - |r| ==> IsCrLf(s[k])
    ensures |r| > 0 ==> !IsCrLf(r[0])
  {
    if |s| > 0 && IsCrLf(s[0]) then StripLeft(s[1..]) else s
  }

  /** `line.strip('\r\n')`: carriage returns and line feeds go from BOTH ends. */
  function StripCrLf(line: string): string
  {
    StripRight(StripLeft(line))
  }

  /**
   * The stripped line is a slice `line[i..j]` with only CR/LF outside it
   * and none at either of its own ends; a blank line becomes "".
   */
  lemma StripCrLfSlice(line: string) returns (i: nat, j: nat)
    ensures i <= j <= |line| && StripCrLf(line) == line[i..j]
    ensures forall k :: 0 <= k < i ==> IsCrLf(line[k])
    ensures forall k :: j <= k < |line| ==> IsCrLf(line[k])
    ensures |StripCrLf(line)| > 0 ==> !IsCrLf(line[i]) && !IsCrLf(line[j - 1])
  {
    var l := StripLeft(line);
    var r := StripRight(l);
    i := |line| - |l|;
    j := i + |r|;
    assert l == line[i..];
    SliceOfSuffix(line, i, j);
    assert r == l[..|r|];
    forall k | j <= k < |line| ensures IsCrLf(line[k]) {
      assert line[k] == l[k - i];
    }
    if |r| > 0 {
      assert r[0] == l[0] && r[|r| - 1] == l[j - i - 1];
    }
  }

  lemma SliceOfSuffix(s: string, i: nat, j: nat)
    requires i <= j <= |s|
    ensures s[i..][..j - i] == s[i..j]
    ensures forall k :: i <= k < |s| ==> s[i..][k - i] == s[k]
  {
  }

  lemma StripCrLfExamples()
    ensures StripCrLf("\n") == ""
    ensures StripCrLf("\r\ngame.z5\r\n") == "game.z5"
  {
    StripBlank();
    StripBoth();
  }

  lemma StripBlank()
    ensures StripCrLf("\n") == ""
  {
  }

  lemma StripBoth()
    ensures StripCrLf("\r\ngame.z5\r\n") == "game.z5"
  {
    StripLeading();
    StripTrailing();
  }

  lemma StripLeading()
    ensures StripLeft("\r\ngame.z5\r\n") == "game.z5\r\n"
  {
    var line := "\r\ngame.z5\r\n";
    var rest := "\ngame.z5\r\n";
    var kept := "game.z5\r\n";
    assert line[1..] == rest && rest[1..] == kept;
    StripLeftStep(line);
    StripLeftStep(rest);
    assert !IsCrLf(kept[0]);
  }

  lemma StripLeftStep(s: string)
    requires |s| > 0 && IsCrLf(s[0])
    ensures StripLeft(s) == StripLeft(s[1..])
  {
  }

  lemma StripTrailing()
    ensures StripRight("game.z5\r\n") == "game.z5"
  {
    assert "game.z5\r\n"[..8][..7] == "game.z5";
  }

  // ---------------------------------------------------------------------
  // Command line (Python `getopt.getopt(args, 'o:abifvh')`)
  // ---------------------------------------------------------------------

  datatype Opt = Opt(name: char, arg: string)

  datatype Failure =
    | GetoptError            // unknown option, missing argument or long option
    | CannotOpen(path: string)
    | BothFormats            // -a with -b
    | FilesWithStdin         // -i with positional files
    | NoFiles                // neither -i nor positional files

  datatype Parsed = Parsed(opts: seq<Opt>, args: seq<string>)

  datatype GetoptResult = GetoptOk(parsed: Parsed) | GetoptFail

  predicate IsFlag(c: char) { c in "abifvh" }

  /** Short options packed in one word, `-ab` or `-ofile` or `-o file`. */
  function DoShorts(word: string, rest: seq<string>): (r: GetoptResult)
    ensures r.GetoptOk? ==> |r.parsed.args| <= |rest|
    decreases |word|
  {
    if |word| == 0 then GetoptOk(Parsed([], rest))
    else if word[0] == 'o' then
      if |word| > 1 then GetoptOk(Parsed([Opt('o', word[1..])], rest))
      else if |rest| == 0 then GetoptFail
      else GetoptOk(Parsed([Opt('o', rest[0])], rest[1..]))
    else if !IsFlag(word[0]) then GetoptFail
    else match DoShorts(word[1..], rest) {
      case GetoptFail => GetoptFail
      case GetoptOk(p) => GetoptOk(Parsed([Opt(word[0], "")] + p.opts, p.args))
    }
  }

  /** Options stop at the first non-option word, at "-" and after "--". */
  function Getopt(args: seq<string>): GetoptResult
    decreases |args|
  {
    if |args| == 0 || !IsPrefix("-", args[0]) || args[0] == "-" then GetoptOk(Parsed([], args))
    else if args[0] == "--" then GetoptOk(Parsed([], args[1..]))
    else if IsPrefix("--", args[0]) then GetoptFail
    else match DoShorts(args[0][1..], args[1..]) {
      case GetoptFail => GetoptFail
      case GetoptOk(p) =>
        match Getopt(p.args) {
          case GetoptFail => GetoptFail
          case GetoptOk(q) => GetoptOk(Parsed(p.opts + q.opts, q.args))
        }
    }
  }

  /** The flags the option loop leaves behind. */
  datatype Settings = Settings(
    outfile: Option<string>, ini: bool, ifiction: bool,
    useStdin: bool, filtered: bool, verbose: bool)

  /** What the option loop does: settings, or an early exit. */
  datatype OptionsOutcome = Apply(settings: Settings) | HelpExit | OpenFailed(path: string)

  /** The option loop over `opts`, in order; `-o` opens its file at once and `-h` exits at once. */
  function ApplyOptions(opts: seq<Opt>, s: Settings, canOpen: string -> bool): OptionsOutcome
    decreases |opts|
  {
    if |opts| == 0 then Apply(s)
    else
      var o := opts[0];
      if o.name == 'o' then
        if canOpen(o.arg) then ApplyOptions(opts[1..], s.(outfile := Some(o.arg)), canOpen)
        else OpenFailed(o.arg)
      else if o.name == 'h' then HelpExit
      else ApplyOptions(opts[1..], UpdateFlag(s, o.name), canOpen)
  }

  function UpdateFlag(s: Settings, c: char): Settings
  {
    if c == 'a' then s.(ini := true)
    else if c == 'b' then s.(ifiction := true)
    else if c == 'i' then s.(useStdin := true)
    else if c == 'f' then s.(filtered := true)
    else if c == 'v' then s.(verbose := true)
    else s
  }

  const NoSettings := Settings(None, false, false, false, false, false)

  // ---------------------------------------------------------------------
  // The pipeline in `main`
  // ---------------------------------------------------------------------

  datatype Format = IfmesRdf | IfmesIni | Ifiction

  /** One catalogued file as every generator writes it. */
  datatype Entry = Entry(title: string, location: string)

  datatype Document = Document(format: Format, entries: seq<Entry>)

  datatype Outcome =
    | Usage                    // `-h`: usage on stderr, exit status 0
    | Fatal(why: Failure)      // `fatal`: message on stderr, exit status 1
    | Catalogued(outfile: Option<string>, document: Option<Document>, diagnostics: seq<string>)

  function ExitStatus(o: Outcome): int
  {
    if o.Fatal? then 1 else 0
  }

  function FormatOf(s: Settings): Format
  {
    if s.ini then IfmesIni else if s.ifiction then Ifiction else IfmesRdf
  }

  function MissingMessage(prog: string, file: string): string
  {
    prog + ": file " + file + " could not be cataloged, not found"
  }

  /** The absolute paths of the inputs that exist, in input order. */
  function Accepted(files: seq<string>, absPath: string -> string, exists_: string -> bool): seq<string>
  {
    if |files| == 0 then []
    else (if exists_(absPath(files[0])) then [absPath(files[0])] else [])
         + Accepted(files[1..], absPath, exists_)
  }

  /** One diagnostic per input that does not exist, in input order. */
  function Missing(prog: string, files: seq<string>, absPath: string -> string, exists_: string -> bool)
    : seq<string>
  {
    if |files| == 0 then []
    else (if exists_(absPath(files[0])) then [] else [MissingMessage(prog, files[0])])
         + Missing(prog, files[1..], absPath, exists_)
  }

  /** Every input ends up either accepted or reported, never both. */
  lemma {:induction false} AcceptedOrMissing(prog: string, files: seq<string>,
                                             absPath: string -> string, exists_: string -> bool)
    ensures |Accepted(files, absPath, exists_)| + |Missing(prog, files, absPath, exists_)| == |files|
    ensures forall p :: p in Accepted(files, absPath, exists_) ==> exists_(p)
  {
    if |files| > 0 {
      AcceptedOrMissing(prog, files[1..], absPath, exists_);
    }
  }

  function Entries(paths: seq<string>): (r: seq<Entry>)
    ensures |r| == |paths|
  {
    if |paths| == 0 then []
    else [Entry(GetTitle(paths[0]), "file://" + paths[0])] + Entries(paths[1..])
  }

  /** The candidate files: stripped stdin lines with `-i`, else the positional words. */
  function Candidates(s: Settings, args: seq<string>, stdin: seq<string>): seq<string>
  {
    if s.useStdin then seq(|stdin|, i requires 0 <= i < |stdin| => StripCrLf(stdin[i])) else args
  }

  /** The whole of `main` as one function of its inputs. */
  function Catalog(argv: seq<string>, stdin: seq<string>, canOpen: string -> bool,
                   absPath: string -> string, exists_: string -> bool): Outcome
    requires |argv| > 0
  {
    match Getopt(argv[1..]) {
      case GetoptFail => Fatal(GetoptError)
      case GetoptOk(p) =>
        match ApplyOptions(p.opts, NoSettings, canOpen) {
          case HelpExit => Usage
          case OpenFailed(path) => Fatal(CannotOpen(path))
          case Apply(s) =>
            if s.ini && s.ifiction then Fatal(BothFormats)
            else if s.useStdin && |p.args| > 0 then Fatal(FilesWithStdin)
            else if !s.useStdin && |p.args| == 0 then Fatal(NoFiles)
            else
              var files := Candidates(s, p.args, stdin);
              var kept := if s.filtered then FilterGamelike(files) else files;
              var paths := Accepted(kept, absPath, exists_);
              Catalogued(s.outfile,
                         if |paths| > 0 then Some(Document(FormatOf(s), Entries(paths))) else None,
                         Missing(argv[0], kept, absPath, exists_))
        }
    }
  }

  /**
   * The rules on option combinations: each invalid one ends in `fatal`
   * with exit status 1, and a run that gets past them writes a document
   * exactly when some input survives the filter and the existence test.
   */
  lemma CatalogRules(argv: seq<string>, stdin: seq<string>, canOpen: string -> bool,
                     absPath: string -> string, exists_: string -> bool)
    requires |argv| > 0
    ensures var o := Catalog(argv, stdin, canOpen, absPath, exists_);
      (o.Fatal? <==> ExitStatus(o) == 1)
      && (Getopt(argv[1..]).GetoptOk? ==>
          var p := Getopt(argv[1..]).parsed;
          ApplyOptions(p.opts, NoSettings, canOpen).Apply? ==>
          var s := ApplyOptions(p.opts, NoSettings, canOpen).settings;
          (s.ini && s.ifiction ==> o == Fatal(BothFormats))
          && (!(s.ini && s.ifiction) && s.useStdin && |p.args| > 0 ==> o == Fatal(FilesWithStdin))
          && (!(s.ini && s.ifiction) && !s.useStdin && |p.args| == 0 ==> o == Fatal(NoFiles))
          && (o.Catalogued? ==>
                var files := Candidates(s, p.args, stdin);
                var kept := if s.filtered then FilterGamelike(files) else files;
                (o.document.None? <==> Accepted(kept, absPath, exists_) == [])
                && |o.diagnostics| == |kept| - |Accepted(kept, absPath, exists_)|))
  {
    if Getopt(argv[1..]).GetoptOk? {
      var p := Getopt(argv[1..]).parsed;
      if ApplyOptions(p.opts, NoSettings, canOpen).Apply? {
        var s := ApplyOptions(p.opts, NoSettings, canOpen).settings;
        var files := Candidates(s, p.args, stdin);
        var kept := if s.filtered then FilterGamelike(files) else files;
        AcceptedOrMissing(argv[0], kept, absPath, exists_);
      }
    }
  }

  /** The option loop of `main`. */
  method ProcessOptions(opts: seq<Opt>, canOpen: string -> bool) returns (r: OptionsOutcome)
    ensures r == ApplyOptions(opts, NoSettings, canOpen)
  {
    var s := NoSettings;
    var i := 0;
    while i < |opts|
      invariant 0 <= i <= |opts|
      invariant ApplyOptions(opts, NoSettings, canOpen) == ApplyOptions(opts[i..], s, canOpen)
    {
      var opt := opts[i];
      assert opts[i..][0] == opt && opts[i..][1..] == opts[i + 1..];
      if opt.name == 'o' {
        if !canOpen(opt.arg) {
          return OpenFailed(opt.arg);
        }
        s := s.(outfile := Some(opt.arg));
      } else if opt.name == 'h' {
        return HelpExit;
      } else {
        s := UpdateFlag(s, opt.name);
      }
      i := i + 1;
    }
    return Apply(s);
  }

  /** The stdin loop of `main`: one stripped entry per line, blank lines included. */
  method ReadFiles(stdin: seq<string>) returns (files: seq<string>)
    ensures |files| == |stdin|
    ensures forall k :: 0 <= k < |stdin| ==> files[k] == StripCrLf(stdin[k])
  {
    files := [];
    var j := 0;
    while j < |stdin|
      invariant 0 <= j <= |stdin| && |files| == j
      invariant forall k :: 0 <= k < j ==> files[k] == StripCrLf(stdin[k])
    {
      files := files + [StripCrLf(stdin[j])];
      j := j + 1;
    }
  }

  /** The existence loop of `main`: `paths` gets each existing absolute path. */
  method CheckExistence(prog: string, files: seq<string>, absPath: string -> string,
                        exists_: string -> bool) returns (paths: seq<string>, diagnostics: seq<string>)
    ensures paths == Accepted(files, absPath, exists_)
    ensures diagnostics == Missing(prog, files, absPath, exists_)
  {
    paths, diagnostics := [], [];
    var j := 0;
    while j < |files|
      invariant 0 <= j <= |files|
      invariant paths == Accepted(files[..j], absPath, exists_)
      invariant diagnostics == Missing(prog, files[..j], absPath, exists_)
    {
      var path := absPath(files[j]);
      ExistenceStep(prog, files, j, absPath, exists_);
      if exists_(path) {
        paths := paths + [path];
      } else {
        diagnostics := diagnostics + [MissingMessage(prog, files[j])];
      }
      j := j + 1;
    }
    assert files[..j] == files;
  }

  /** The existence loop's step: one more input either accepted or reported. */
  lemma ExistenceStep(prog: string, files: seq<string>, j: nat, absPath: string -> string,
                      exists_: string -> bool)
    requires j < |files|
    ensures Accepted(files[..j + 1], absPath, exists_) ==
      Accepted(files[..j], absPath, exists_) + (if exists_(absPath(files[j])) then [absPath(files[j])] else [])
    ensures Missing(prog, files[..j + 1], absPath, exists_) ==
      Missing(prog, files[..j], absPath, exists_) + (if exists_(absPath(files[j])) then [] else [MissingMessage(prog, files[j])])
  {
    assert files[..j + 1] == files[..j] + [files[j]];
    AcceptedAppend(files[..j], [files[j]], absPath, exists_);
    MissingAppend(prog, files[..j], [files[j]], absPath, exists_);
  }

  lemma {:induction false} AcceptedAppend(a: seq<string>, b: seq<string>,
                                          absPath: string -> string, exists_: string -> bool)
    ensures Accepted(a + b, absPath, exists_) == Accepted(a, absPath, exists_) + Accepted(b, absPath, exists_)
  {
    if |a| == 0 {
      assert a + b == b;
    } else {
      assert (a + b)[0] == a[0] && (a + b)[1..] == a[1..] + b;
      AcceptedAppend(a[1..], b, absPath, exists_);
    }
  }

  lemma {:induction false} MissingAppend(prog: string, a: seq<string>, b: seq<string>,
                                         absPath: string -> string, exists_: string -> bool)
    ensures Missing(prog, a + b, absPath, exists_) == Missing(prog, a, absPath, exists_) + Missing(prog, b, absPath, exists_)
  {
    if |a| == 0 {
      assert a + b == b;
    } else {
      assert (a + b)[0] == a[0] && (a + b)[1..] == a[1..] + b;
      MissingAppend(prog, a[1..], b, absPath, exists_);
    }
  }

  /**
   * `main` as the script runs it: options, the combination checks, the
   * candidate list, the optional filter and the existence loop; a document
   * is produced only when some path survives.
   */
  method Run(argv: seq<string>, stdin: seq<string>, canOpen: string -> bool,
             absPath: string -> string, exists_: string -> bool) returns (o: Outcome)
    requires |argv| > 0
    ensures o == Catalog(argv, stdin, canOpen, absPath, exists_)
  {
    var parsed := Getopt(argv[1..]);
    if parsed.GetoptFail? {
      return Fatal(GetoptError);
    }
    var args := parsed.parsed.args;
    var applied := ProcessOptions(parsed.parsed.opts, canOpen);
    if applied.HelpExit? {
      return Usage;
    } else if applied.OpenFailed? {
      return Fatal(CannotOpen(applied.path));
    }
    var s := applied.settings;
    if s.ini && s.ifiction {
      return Fatal(BothFormats);
    }
    if s.useStdin && |args| > 0 {
      return Fatal(FilesWithStdin);
    }
    if !s.useStdin && |args| == 0 {
      return Fatal(NoFiles);
    }
    var files := args;
    if s.useStdin {
      files := ReadFiles(stdin);
      assert files == Candidates(s, args, stdin);
    }
    if s.filtered {
      files := FilterGamelike(files);
    }
    var paths, diagnostics := CheckExistence(argv[0], files, absPath, exists_);
    var document := if |paths| > 0 then Some(Document(FormatOf(s), Entries(paths))) else None;
    o := Catalogued(s.outfile, document, diagnostics);
  }
}
