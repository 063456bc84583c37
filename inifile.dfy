/**
 * Gamebox's INI document reader.  A document is a table of global
 * property/value pairs and an ordered list of named sections, each with
 * its own table of pairs.  Lines are classified as comments, section
 * headers or pairs by the `sscanf` patterns of the C code; any other line
 * makes the whole parse fail.
 */
module IniFile {
  import opened Text

  datatype Pair = Pair(property: string, value: string)
  datatype Section = Section(name: string, pairs: seq<Pair>)

  // ---------------------------------------------------------------------
  // Line classifiers
  // ---------------------------------------------------------------------

  predicate IsBlank(c: char) { c == ' ' || c == '\t' }
  /** The `%[^] ]` scan set. */
  predicate IsNameChar(c: char) { c != ']' && c != ' ' }
  /** The `%[^=]` scan set. */
  predicate IsNotEquals(c: char) { c != '=' }
  /** The `%[^\n]` scan set. */
  predicate IsNotNewline(c: char) { c != '\n' }

  predicate AllSpace(s: string) { forall k :: 0 <= k < |s| ==> IsSpace(s[k]) }
  predicate AllBlank(s: string) { forall k :: 0 <= k < |s| ==> IsBlank(s[k]) }

  /** `inidoc_is_parse_comment`: past the leading spaces and tabs, nothing or `;` or `#`. */
  predicate IsComment(line: string)
  {
    var i := Span(line, 0, IsBlank);
    i == |line| || line[i] == ';' || line[i] == '#'
  }

  lemma CommentIff(line: string)
    ensures IsComment(line) <==>
      AllBlank(line) || exists i :: 0 <= i < |line| && AllBlank(line[..i]) && line[i] in ";#"
  {
    var i := Span(line, 0, IsBlank);
    if AllBlank(line) {
      SpanIs(line, 0, |line|, IsBlank);
    }
    if i < |line| && line[i] in ";#" {
      assert AllBlank(line[..i]);
    }
    if i == |line| {
      assert AllBlank(line);
    }
    forall j | 0 <= j < |line| && AllBlank(line[..j]) && line[j] in ";#"
      ensures IsComment(line)
    {
      assert forall k :: 0 <= k < j ==> line[..j][k] == line[k];
      SpanIs(line, 0, j, IsBlank);
    }
  }

  /**
   * `inidoc_is_parse_section`: `sscanf (line, " [ %[^] ] %c %c", ...)`
   * must convert exactly two items, the second being `]`.
   */
  function ParseSection(line: string): Option<string>
  {
    var a := Span(line, 0, IsSpace);
    if a == |line| || line[a] != '[' then None
    else
      var b := Span(line, a + 1, IsSpace);
      var e := Span(line, b, IsNameChar);
      if e == b then None
      else
        var c := Span(line, e, IsSpace);
        if c == |line| || line[c] != ']' then None
        else if Span(line, c + 1, IsSpace) < |line| then None
        else Some(line[b..e])
  }

  /**
   * The shape of a header line `pre [ mid name post ] tail`: whitespace
   * around a non-empty name without spaces or `]`.  A tab right after the
   * name would belong to the name, so `post` starts with a space if at all.
   */
  predicate IsHeader(pre: string, mid: string, name: string, post: string, tail: string)
  {
    AllSpace(pre) && AllSpace(mid) && AllSpace(post) && AllSpace(tail)
    && |name| > 0 && !IsSpace(name[0])
    && (forall k :: 0 <= k < |name| ==> IsNameChar(name[k]))
    && (|post| > 0 ==> post[0] == ' ')
  }

  lemma SectionSound(line: string) returns (pre: string, mid: string, post: string, tail: string)
    requires ParseSection(line).Some?
    ensures IsHeader(pre, mid, ParseSection(line).value, post, tail)
    ensures line == pre + "[" + mid + ParseSection(line).value + post + "]" + tail
  {
    var a, b, e, c := SectionIndices(line);
    pre, mid, post, tail := line[..a], line[a + 1..b], line[e..c], line[c + 1..];
    NameChars(line, b, e);
    HeaderPieces(line, a, b, e, c);
  }

  lemma NameChars(line: string, b: nat, e: nat)
    requires b < e <= |line|
    requires !IsSpace(line[b]) && forall k :: b <= k < e ==> IsNameChar(line[k])
    ensures var name := line[b..e];
      |name| > 0 && !IsSpace(name[0]) && forall k :: 0 <= k < |name| ==> IsNameChar(name[k])
  {
  }

  lemma HeaderPieces(line: string, a: nat, b: nat, e: nat, c: nat)
    requires a < b < e <= c < |line| && line[a] == '[' && line[c] == ']'
    ensures line == line[..a] + "[" + line[a + 1..b] + line[b..e] + line[e..c] + "]" + line[c + 1..]
  {
    assert line[a..a + 1] == "[" && line[c..c + 1] == "]";
    Assemble7(line, a, a + 1, b, e, c, c + 1);
  }

  /** Where the pieces of a header line begin and end. */
  lemma SectionIndices(line: string) returns (a: nat, b: nat, e: nat, c: nat)
    requires ParseSection(line).Some?
    ensures a < b < e <= c < |line| && ParseSection(line).value == line[b..e]
    ensures AllSpace(line[..a]) && line[a] == '[' && AllSpace(line[a + 1..b])
    ensures !IsSpace(line[b]) && forall k :: b <= k < e ==> IsNameChar(line[k])
    ensures AllSpace(line[e..c]) && (e < c ==> line[e] == ' ')
    ensures line[c] == ']' && AllSpace(line[c + 1..])
  {
    a := Span(line, 0, IsSpace);
    b := Span(line, a + 1, IsSpace);
    e := Span(line, b, IsNameChar);
    c := Span(line, e, IsSpace);
  }

  lemma Assemble7(s: string, i1: nat, i2: nat, i3: nat, i4: nat, i5: nat, i6: nat)
    requires i1 <= i2 <= i3 <= i4 <= i5 <= i6 <= |s|
    ensures s == s[..i1] + s[i1..i2] + s[i2..i3] + s[i3..i4] + s[i4..i5] + s[i5..i6] + s[i6..]
  {
  }

  lemma SectionComplete(pre: string, mid: string, name: string, post: string, tail: string)
    requires IsHeader(pre, mid, name, post, tail)
    ensures ParseSection(pre + "[" + mid + name + post + "]" + tail) == Some(name)
  {
    var line := pre + "[" + mid + name + post + "]" + tail;
    var a := |pre|;
    var b := a + 1 + |mid|;
    var e := b + |name|;
    var c := e + |post|;
    assert line[..a] == pre && line[a] == '[' && line[a + 1..b] == mid;
    assert line[b..e] == name && line[e..c] == post && line[c] == ']' && line[c + 1..] == tail;
    SectionFromPieces(line, a, b, e, c);
  }

  lemma SectionFromPieces(line: string, a: nat, b: nat, e: nat, c: nat)
    requires a < b < e <= c < |line|
    requires AllSpace(line[..a]) && line[a] == '[' && AllSpace(line[a + 1..b])
    requires !IsSpace(line[b]) && forall k :: b <= k < e ==> IsNameChar(line[k])
    requires AllSpace(line[e..c]) && (e < c ==> line[e] == ' ')
    requires line[c] == ']' && AllSpace(line[c + 1..])
    ensures ParseSection(line) == Some(line[b..e])
  {
    assert line[..a] == line[0..a] && line[c + 1..] == line[c + 1..|line|];
    SpaceRun(line, 0, a);
    SpaceRun(line, a + 1, b);
    SpanIs(line, b, e, IsNameChar);
    SpaceRun(line, e, c);
    SpaceRun(line, c + 1, |line|);
    SectionAt(line, a, b, e, c);
  }

  /** A run of whitespace followed by something else is what `Span` measures. */
  lemma SpaceRun(line: string, i: nat, j: nat)
    requires i <= j <= |line| && AllSpace(line[i..j]) && (j < |line| ==> !IsSpace(line[j]))
    ensures Span(line, i, IsSpace) == j
  {
    assert forall k :: i <= k < j ==> line[k] == line[i..j][k - i];
    SpanIs(line, i, j, IsSpace);
  }

  lemma SectionAt(line: string, a: nat, b: nat, e: nat, c: nat)
    requires a < b <= e <= c < |line| && b < e
    requires Span(line, 0, IsSpace) == a && line[a] == '[' && Span(line, a + 1, IsSpace) == b
    requires Span(line, b, IsNameChar) == e && Span(line, e, IsSpace) == c
    requires line[c] == ']' && Span(line, c + 1, IsSpace) == |line|
    ensures ParseSection(line) == Some(line[b..e])
  {
  }

  /**
   * `inidoc_is_parse_pair`: `" %[^=] =%[^\n]"`, or failing that
   * `" %[^=] %c"` with `=` and an empty value.  The property is everything
   * from the first non-space character up to the first `=`, trailing
   * spaces included; the value is everything after that `=` up to a line
   * feed, leading spaces included.
   */
  function ParsePair(line: string): Option<Pair>
  {
    var a := Span(line, 0, IsSpace);
    var e := Span(line, a, IsNotEquals);
    if e == a || e == |line| then None
    else Some(Pair(line[a..e], line[e + 1..Span(line, e + 1, IsNotNewline)]))
  }

  /** The text of `rest` before its first line feed. */
  function UpToNewline(rest: string): string
  {
    rest[..Span(rest, 0, IsNotNewline)]
  }

  predicate IsAssignment(pre: string, property: string)
  {
    AllSpace(pre) && |property| > 0 && !IsSpace(property[0]) && '=' !in property
  }

  lemma PairSound(line: string) returns (pre: string, rest: string)
    requires ParsePair(line).Some?
    ensures IsAssignment(pre, ParsePair(line).value.property)
    ensures line == pre + ParsePair(line).value.property + "=" + rest
    ensures ParsePair(line).value.value == UpToNewline(rest)
  {
    var a, e := PairIndices(line);
    pre, rest := line[..a], line[e + 1..];
    assert line == line[..a] + line[a..e] + [line[e]] + line[e + 1..];
  }

  /** Where the property of a pair line begins and where its `=` is. */
  lemma PairIndices(line: string) returns (a: nat, e: nat)
    requires ParsePair(line).Some?
    ensures a < e < |line| && line[e] == '='
    ensures ParsePair(line).value == Pair(line[a..e], UpToNewline(line[e + 1..]))
    ensures IsAssignment(line[..a], line[a..e])
  {
    a := Span(line, 0, IsSpace);
    e := Span(line, a, IsNotEquals);
    SpanDrop(line, e + 1, IsNotNewline);
    assert forall k :: 0 <= k < a ==> line[..a][k] == line[k];
    assert forall k :: 0 <= k < e - a ==> line[a..e][k] == line[a + k];
  }

  lemma PairComplete(pre: string, property: string, rest: string)
    requires IsAssignment(pre, property)
    ensures ParsePair(pre + property + "=" + rest) == Some(Pair(property, UpToNewline(rest)))
  {
    var line := pre + property + "=" + rest;
    var a := |pre|;
    var e := a + |property|;
    assert line[..a] == pre && line[a..e] == property && line[e] == '=' && line[e + 1..] == rest;
    PairFromPieces(line, a, e);
  }

  lemma PairFromPieces(line: string, a: nat, e: nat)
    requires a < e < |line|
    requires AllSpace(line[..a]) && !IsSpace(line[a])
    requires '=' !in line[a..e] && line[e] == '='
    ensures ParsePair(line) == Some(Pair(line[a..e], UpToNewline(line[e + 1..])))
  {
    assert forall k :: 0 <= k < a ==> line[k] == line[..a][k];
    SpanIs(line, 0, a, IsSpace);
    forall k | a <= k < e
      ensures IsNotEquals(line[k])
    {
      assert line[k] == line[a..e][k - a];
    }
    SpanIs(line, a, e, IsNotEquals);
    PairAt(line, a, e);
  }

  lemma PairAt(line: string, a: nat, e: nat)
    requires a < e < |line|
    requires Span(line, 0, IsSpace) == a && Span(line, a, IsNotEquals) == e
    ensures ParsePair(line) == Some(Pair(line[a..e], UpToNewline(line[e + 1..])))
  {
    UpToNewlineAt(line, e + 1);
  }

  /** The value read after position `i` is the text up to the next line feed. */
  lemma UpToNewlineAt(line: string, i: nat)
    requires i <= |line|
    ensures UpToNewline(line[i..]) == line[i..Span(line, i, IsNotNewline)]
  {
    var j := Span(line, i, IsNotNewline);
    SpanDrop(line, i, IsNotNewline);
    assert line[i..][..j - i] == line[i..j];
  }

  // ---------------------------------------------------------------------
  // Pair tables
  // ---------------------------------------------------------------------

  /** `inidoc_find_pair`: the first pair whose property matches, ignoring case. */
  function PairIndex(pairs: seq<Pair>, property: string): (r: Option<nat>)
    ensures r.None? <==> forall k :: 0 <= k < |pairs| ==> !EqualsIgnoreCase(pairs[k].property, property)
    ensures r.Some? ==> r.value < |pairs| && EqualsIgnoreCase(pairs[r.value].property, property)
    ensures r.Some? ==> forall k :: 0 <= k < r.value ==> !EqualsIgnoreCase(pairs[k].property, property)
  {
    if |pairs| == 0 then None
    else if EqualsIgnoreCase(pairs[0].property, property) then Some(0)
    else match PairIndex(pairs[1..], property) {
      case None => None
      case Some(k) => Some(k + 1)
    }
  }

  /** `inidoc_get_property_value` and `inidoc_get_global_property_value`. */
  function Lookup(pairs: seq<Pair>, property: string): Option<string>
  {
    match PairIndex(pairs, property) {
      case None => None
      case Some(k) => Some(pairs[k].value)
    }
  }

  /**
   * `inidoc_section_add_pair` and `inidoc_global_add_pair`: overwrite the
   * value of a matching pair in place, else push a new pair at the head.
   */
  function AddPair(pairs: seq<Pair>, property: string, value: string): seq<Pair>
  {
    match PairIndex(pairs, property) {
      case Some(k) => pairs[k := Pair(pairs[k].property, value)]
      case None => [Pair(property, value)] + pairs
    }
  }

  predicate DistinctKeys(pairs: seq<Pair>)
  {
    forall j, k :: 0 <= j < k < |pairs| ==> !EqualsIgnoreCase(pairs[j].property, pairs[k].property)
  }

  /** Looking a property up after setting it: last one wins, the others are unaffected. */
  lemma AddPairLookup(pairs: seq<Pair>, property: string, value: string, query: string)
    ensures Lookup(AddPair(pairs, property, value), query)
      == if EqualsIgnoreCase(property, query) then Some(value) else Lookup(pairs, query)
  {
    match PairIndex(pairs, property) {
      case Some(k) =>
        if EqualsIgnoreCase(property, query) {
          OverwriteFound(pairs, property, value, query, k);
        } else {
          OverwriteOthers(pairs, property, value, query, k);
        }
      case None =>
        var r := AddPair(pairs, property, value);
        if !EqualsIgnoreCase(property, query) {
          assert r[1..] == pairs;
        }
    }
  }

  lemma OverwriteFound(pairs: seq<Pair>, property: string, value: string, query: string, k: nat)
    requires PairIndex(pairs, property) == Some(k) && EqualsIgnoreCase(property, query)
    ensures PairIndex(pairs[k := Pair(pairs[k].property, value)], query) == Some(k)
  {
    var r := pairs[k := Pair(pairs[k].property, value)];
    assert EqualsIgnoreCase(r[k].property, query);
    assert forall j :: 0 <= j < k ==> r[j] == pairs[j];
  }

  lemma OverwriteOthers(pairs: seq<Pair>, property: string, value: string, query: string, k: nat)
    requires k < |pairs|
    ensures PairIndex(pairs[k := Pair(pairs[k].property, value)], query) == PairIndex(pairs, query)
  {
    var r := pairs[k := Pair(pairs[k].property, value)];
    assert forall j :: 0 <= j < |r| ==> r[j].property == pairs[j].property;
  }

  /** Adding keeps the keys distinct and grows the table only for a new property. */
  lemma AddPairDistinct(pairs: seq<Pair>, property: string, value: string)
    requires DistinctKeys(pairs)
    ensures DistinctKeys(AddPair(pairs, property, value))
    ensures |AddPair(pairs, property, value)| == |pairs| + if Lookup(pairs, property).None? then 1 else 0
  {
    var r := AddPair(pairs, property, value);
    if PairIndex(pairs, property).None? {
      forall j, k | 0 <= j < k < |r|
        ensures !EqualsIgnoreCase(r[j].property, r[k].property)
      {
        if j == 0 {
          assert r[k] == pairs[k - 1];
        } else {
          assert r[j] == pairs[j - 1] && r[k] == pairs[k - 1];
        }
      }
    }
  }

  // ---------------------------------------------------------------------
  // Sections
  // ---------------------------------------------------------------------

  /** The first section whose name matches, ignoring case. */
  function SectionIndex(sections: seq<Section>, name: string): (r: Option<nat>)
    ensures r.None? <==> forall k :: 0 <= k < |sections| ==> !EqualsIgnoreCase(sections[k].name, name)
    ensures r.Some? ==> r.value < |sections| && EqualsIgnoreCase(sections[r.value].name, name)
  {
    if |sections| == 0 then None
    else if EqualsIgnoreCase(sections[0].name, name) then Some(0)
    else match SectionIndex(sections[1..], name) {
      case None => None
      case Some(k) => Some(k + 1)
    }
  }

  /** `inidoc_lookup_section`: the matching section, or a new empty one appended at the tail. */
  function WithSection(sections: seq<Section>, name: string): (r: (seq<Section>, nat))
    ensures r.1 < |r.0|
  {
    match SectionIndex(sections, name) {
      case Some(k) => (sections, k)
      case None => (sections + [Section(name, [])], |sections|)
    }
  }

  predicate DistinctNames(sections: seq<Section>)
  {
    forall j, k :: 0 <= j < k < |sections| ==> !EqualsIgnoreCase(sections[j].name, sections[k].name)
  }

  /**
   * The section found matches the name; existing sections stay first and
   * in order; the names stay distinct, so a repeated header reuses its section.
   */
  lemma LookupSectionProperties(sections: seq<Section>, name: string)
    requires DistinctNames(sections)
    ensures var (r, k) := WithSection(sections, name);
      EqualsIgnoreCase(r[k].name, name) && r[..|sections|] == sections
      && DistinctNames(r) && |r| <= |sections| + 1
      && (|r| == |sections| + 1 <==> SectionIndex(sections, name).None?)
  {
    var (r, k) := WithSection(sections, name);
    if SectionIndex(sections, name).None? {
      assert r[k] == Section(name, []);
      forall i, j | 0 <= i < j < |r|
        ensures !EqualsIgnoreCase(r[i].name, r[j].name)
      {
        if j == |sections| {
          assert !EqualsIgnoreCase(sections[i].name, name);
        }
      }
    }
  }

  // ---------------------------------------------------------------------
  // Documents
  // ---------------------------------------------------------------------

  datatype Doc = Doc(globals: seq<Pair>, sections: seq<Section>)

  datatype Line = Comment | Header(name: string) | Assignment(pair: Pair) | Unrecognised

  /** The tests of the parse loop, in their order. */
  function Classify(line: string): Line
  {
    if IsComment(line) then Comment
    else if ParseSection(line).Some? then Header(ParseSection(line).value)
    else if ParsePair(line).Some? then Assignment(ParsePair(line).value)
    else Unrecognised
  }

  predicate WellFormed(d: Doc)
  {
    DistinctKeys(d.globals) && DistinctNames(d.sections)
    && forall k :: 0 <= k < |d.sections| ==> DistinctKeys(d.sections[k].pairs)
  }

  /** A header sends later pairs to its section; `[DEFAULT]`, exactly so, to the globals. */
  function ApplyHeader(d: Doc, name: string): (r: (Doc, Option<nat>))
    ensures r.1.Some? ==> r.1.value < |r.0.sections|
  {
    if name == "DEFAULT" then (d, None)
    else
      var (sections, k) := WithSection(d.sections, name);
      (Doc(d.globals, sections), Some(k))
  }

  function ApplyPair(d: Doc, current: Option<nat>, p: Pair): (r: Doc)
    requires current.Some? ==> current.value < |d.sections|
    ensures |r.sections| == |d.sections|
  {
    match current {
      case None => Doc(AddPair(d.globals, p.property, p.value), d.sections)
      case Some(k) =>
        var s := d.sections[k];
        Doc(d.globals, d.sections[k := Section(s.name, AddPair(s.pairs, p.property, p.value))])
    }
  }

  /** `inidoc_parse` from a document state and current section onwards. */
  function ParseFrom(d: Doc, current: Option<nat>, lines: seq<string>): Option<Doc>
    requires current.Some? ==> current.value < |d.sections|
    decreases |lines|, 1
  {
    if |lines| == 0 then Some(d) else ParseLines(d, current, lines)
  }

  /** `ParseFrom` on at least one line: classify the first, apply it, go on. */
  function ParseLines(d: Doc, current: Option<nat>, lines: seq<string>): Option<Doc>
    requires current.Some? ==> current.value < |d.sections|
    requires |lines| > 0
    decreases |lines|, 0
  {
    match Classify(StripRight(lines[0])) {
      case Comment => ParseFrom(d, current, lines[1..])
      case Header(name) =>
        var (d', current') := ApplyHeader(d, name);
        ParseFrom(d', current', lines[1..])
      case Assignment(p) => ParseFrom(ApplyPair(d, current, p), current, lines[1..])
      case Unrecognised => None
    }
  }

  /** `inidoc_parse` over the lines `fgets` returns. */
  function Parse(lines: seq<string>): Option<Doc>
  {
    ParseFrom(Doc([], []), None, lines)
  }

  predicate IsRecognised(line: string)
  {
    !Classify(StripRight(line)).Unrecognised?
  }

  /** The parse fails exactly when some line is unrecognised. */
  lemma {:induction false} ParseFromFails(d: Doc, current: Option<nat>, lines: seq<string>)
    requires current.Some? ==> current.value < |d.sections|
    ensures ParseFrom(d, current, lines).None? <==> exists k :: 0 <= k < |lines| && !IsRecognised(lines[k])
    decreases |lines|
  {
    if |lines| > 0 {
      assert ParseFrom(d, current, lines) == ParseLines(d, current, lines);
      match Classify(StripRight(lines[0])) {
        case Comment => ParseFromFails(d, current, lines[1..]);
        case Header(name) =>
          var (d', current') := ApplyHeader(d, name);
          ParseFromFails(d', current', lines[1..]);
        case Assignment(p) => ParseFromFails(ApplyPair(d, current, p), current, lines[1..]);
        case Unrecognised =>
      }
      UnrecognisedCons(lines);
    }
  }

  lemma UnrecognisedCons(lines: seq<string>)
    requires |lines| > 0
    ensures (exists k :: 0 <= k < |lines| && !IsRecognised(lines[k])) <==>
      !IsRecognised(lines[0]) || exists k :: 0 <= k < |lines[1..]| && !IsRecognised(lines[1..][k])
  {
    if exists k :: 0 <= k < |lines| && !IsRecognised(lines[k]) {
      var k :| 0 <= k < |lines| && !IsRecognised(lines[k]);
      if k > 0 {
        assert lines[1..][k - 1] == lines[k];
      }
    }
    if exists k :: 0 <= k < |lines[1..]| && !IsRecognised(lines[1..][k]) {
      var k :| 0 <= k < |lines[1..]| && !IsRecognised(lines[1..][k]);
      assert lines[k + 1] == lines[1..][k];
    }
  }

  lemma ParseFails(lines: seq<string>)
    ensures Parse(lines).None? <==> exists k :: 0 <= k < |lines| && !IsRecognised(lines[k])
  {
    ParseFromFails(Doc([], []), None, lines);
  }

  /**
   * A successful parse keeps the documents's sections first and in order,
   * and keeps every table free of duplicate keys.
   */
  lemma {:induction false} ParseFromKeeps(d: Doc, current: Option<nat>, lines: seq<string>)
    requires current.Some? ==> current.value < |d.sections|
    requires WellFormed(d)
    ensures ParseFrom(d, current, lines).Some? ==>
      var r := ParseFrom(d, current, lines).value;
      WellFormed(r) && |d.sections| <= |r.sections|
      && forall k :: 0 <= k < |d.sections| ==> r.sections[k].name == d.sections[k].name
    decreases |lines|
  {
    if |lines| > 0 {
      assert ParseFrom(d, current, lines) == ParseLines(d, current, lines);
      match Classify(StripRight(lines[0])) {
        case Comment => ParseFromKeeps(d, current, lines[1..]);
        case Header(name) =>
          var (d', current') := ApplyHeader(d, name);
          HeaderKeeps(d, name);
          ParseFromKeeps(d', current', lines[1..]);
        case Assignment(p) =>
          PairKeeps(d, current, p);
          ParseFromKeeps(ApplyPair(d, current, p), current, lines[1..]);
        case Unrecognised =>
      }
    }
  }

  /** A header keeps the document well formed and its sections' names in place. */
  lemma HeaderKeeps(d: Doc, name: string)
    requires WellFormed(d)
    ensures var d' := ApplyHeader(d, name).0;
      WellFormed(d') && |d.sections| <= |d'.sections|
      && forall k :: 0 <= k < |d.sections| ==> d'.sections[k] == d.sections[k]
  {
    if name != "DEFAULT" {
      LookupSectionProperties(d.sections, name);
      var d' := ApplyHeader(d, name).0;
      assert d'.sections[..|d.sections|] == d.sections;
      forall k | 0 <= k < |d.sections| ensures d'.sections[k] == d.sections[k] {
        assert d'.sections[..|d.sections|][k] == d'.sections[k];
      }
    }
  }

  /** A pair keeps the document well formed and every section's name. */
  lemma PairKeeps(d: Doc, current: Option<nat>, p: Pair)
    requires current.Some? ==> current.value < |d.sections|
    requires WellFormed(d)
    ensures var d' := ApplyPair(d, current, p);
      WellFormed(d') && forall k :: 0 <= k < |d.sections| ==> d'.sections[k].name == d.sections[k].name
  {
    match current {
      case None => AddPairDistinct(d.globals, p.property, p.value);
      case Some(k) => AddPairDistinct(d.sections[k].pairs, p.property, p.value);
    }
  }

  lemma ParseWellFormed(lines: seq<string>)
    ensures Parse(lines).Some? ==> WellFormed(Parse(lines).value)
  {
    ParseFromKeeps(Doc([], []), None, lines);
  }

  /** No carriage return or line feed in `s`. */
  predicate NoBreak(s: string) { forall k :: 0 <= k < |s| ==> !IsCrLf(s[k]) }

  lemma Unbroken(line: string)
    requires |line| > 0 && !IsCrLf(line[|line| - 1])
    ensures StripRight(line) == line
  {
  }

  /** A bare `[name]` line is a header. */
  lemma BareHeader(name: string)
    requires IsHeader("", "", name, "", "")
    ensures Classify("[" + name + "]") == Header(name)
    ensures StripRight("[" + name + "]") == "[" + name + "]"
  {
    var line := "[" + name + "]";
    SectionComplete("", "", name, "", "");
    assert "" + "[" + "" + name + "" + "]" + "" == line;
    assert !IsComment(line) by { SpanIs(line, 0, 0, IsBlank); }
  }

  /** A bare `property=value` line, with no line feed in the value, is a pair. */
  lemma BareAssignment(property: string, value: string)
    requires IsAssignment("", property) && property[0] !in "[;#" && '\n' !in value
    ensures Classify(property + "=" + value) == Assignment(Pair(property, value))
    ensures NoBreak(value) ==> StripRight(property + "=" + value) == property + "=" + value
  {
    var line := property + "=" + value;
    if NoBreak(value) {
      BareUnbroken(property, value);
    }
    assert line[0] == property[0];
    assert !IsComment(line) by { SpanIs(line, 0, 0, IsBlank); }
    assert ParseSection(line).None? by { SpanIs(line, 0, 0, IsSpace); }
    BarePair(property, value);
  }

  lemma BareUnbroken(property: string, value: string)
    requires |property| > 0 && NoBreak(value)
    ensures StripRight(property + "=" + value) == property + "=" + value
  {
    var line := property + "=" + value;
    assert line[|line| - 1] == if |value| > 0 then value[|value| - 1] else '=';
    Unbroken(line);
  }

  lemma BarePair(property: string, value: string)
    requires IsAssignment("", property) && '\n' !in value
    ensures ParsePair(property + "=" + value) == Some(Pair(property, value))
  {
    PairComplete("", property, value);
    assert "" + property + "=" + value == property + "=" + value;
    SpanIs(value, 0, |value|, IsNotNewline);
    assert value[..|value|] == value;
  }

  lemma StepComment(d: Doc, current: Option<nat>, line: string, rest: seq<string>)
    requires current.Some? ==> current.value < |d.sections|
    requires Classify(StripRight(line)) == Comment
    ensures ParseFrom(d, current, [line] + rest) == ParseFrom(d, current, rest)
  {
    assert ParseFrom(d, current, [line] + rest) == ParseLines(d, current, [line] + rest);
    assert ([line] + rest)[1..] == rest;
  }

  lemma StepHeader(d: Doc, current: Option<nat>, line: string, rest: seq<string>, name: string)
    requires current.Some? ==> current.value < |d.sections|
    requires Classify(StripRight(line)) == Header(name)
    ensures ParseFrom(d, current, [line] + rest) == ParseFrom(ApplyHeader(d, name).0, ApplyHeader(d, name).1, rest)
  {
    assert ParseFrom(d, current, [line] + rest) == ParseLines(d, current, [line] + rest);
    assert ([line] + rest)[1..] == rest;
  }

  lemma StepAssignment(d: Doc, current: Option<nat>, line: string, rest: seq<string>, p: Pair)
    requires current.Some? ==> current.value < |d.sections|
    requires Classify(StripRight(line)) == Assignment(p)
    ensures ParseFrom(d, current, [line] + rest) == ParseFrom(ApplyPair(d, current, p), current, rest)
  {
    assert ParseFrom(d, current, [line] + rest) == ParseLines(d, current, [line] + rest);
    assert ([line] + rest)[1..] == rest;
  }

  /** `[DEFAULT]` routes the pairs after it to the globals. */
  lemma ParseDefaultSection(header: string, property: string, value: string)
    requires header == "[DEFAULT]"
    requires IsAssignment("", property) && property[0] !in "[;#" && NoBreak(value)
    ensures Parse([header, property + "=" + value]) == Some(Doc([Pair(property, value)], []))
  {
    var lines := [header, property + "=" + value];
    var globals := [Pair(property, value)];
    assert ApplyPair(Doc([], []), None, Pair(property, value)) == Doc(globals, []) by {
      assert [Pair(property, value)] + [] == globals;
    }
    assert lines[1..][1..] == [];
    DefaultHeaderLine(lines);
    PairLine(Doc([], []), None, property, value, lines[1..], Doc(globals, []));
  }

  lemma DefaultHeaderLine(lines: seq<string>)
    requires |lines| > 0 && lines[0] == "[DEFAULT]"
    ensures ParseFrom(Doc([], []), None, lines) == ParseFrom(Doc([], []), None, lines[1..])
  {
    assert IsHeader("", "", "DEFAULT", "", "");
    assert ApplyHeader(Doc([], []), "DEFAULT") == (Doc([], []), None);
    HeaderLine(Doc([], []), None, "DEFAULT", lines, Doc([], []), None);
  }

  /**
   * A header repeated in another case reuses the section it names, and a
   * property set twice in it keeps the last value under its first spelling.
   */
  lemma ParseRepeatedSection(name: string, again: string, property: string, first: string, second: string)
    requires IsHeader("", "", name, "", "") && IsHeader("", "", again, "", "")
    requires EqualsIgnoreCase(name, again) && name != "DEFAULT" && again != "DEFAULT"
    requires IsAssignment("", property) && property[0] !in "[;#"
    requires NoBreak(first) && NoBreak(second)
    ensures Parse(["[" + name + "]", property + "=" + first, "[" + again + "]", property + "=" + second])
      == Some(Doc([], [Section(name, [Pair(property, second)])]))
  {
    var l0, l1, l2, l3 := "[" + name + "]", property + "=" + first, "[" + again + "]", property + "=" + second;
    var lines := [l0, l1, l2, l3];
    var s1 := [Section(name, [])];
    var s2 := [Section(name, [Pair(property, first)])];
    var s3 := [Section(name, [Pair(property, second)])];
    RepeatedSectionDocs(name, again, property, first, second);
    assert lines[1..][1..][1..][1..] == [];
    HeaderLine(Doc([], []), None, name, lines, Doc([], s1), Some(0));
    PairLine(Doc([], s1), Some(0), property, first, lines[1..], Doc([], s2));
    HeaderLine(Doc([], s2), Some(0), again, lines[1..][1..], Doc([], s2), Some(0));
    PairLine(Doc([], s2), Some(0), property, second, lines[1..][1..][1..], Doc([], s3));
  }

  /** A bare header line applies its header. */
  lemma HeaderLine(d: Doc, current: Option<nat>, name: string, lines: seq<string>, next: Doc, nextCurrent: Option<nat>)
    requires current.Some? ==> current.value < |d.sections|
    requires |lines| > 0 && lines[0] == "[" + name + "]"
    requires IsHeader("", "", name, "", "") && ApplyHeader(d, name) == (next, nextCurrent)
    ensures ParseFrom(d, current, lines) == ParseFrom(next, nextCurrent, lines[1..])
  {
    BareHeader(name);
    StepHeader(d, current, lines[0], lines[1..], name);
    assert lines == [lines[0]] + lines[1..];
  }

  /** A bare pair line applies its pair. */
  lemma PairLine(d: Doc, current: Option<nat>, property: string, value: string, lines: seq<string>, next: Doc)
    requires current.Some? ==> current.value < |d.sections|
    requires |lines| > 0 && lines[0] == property + "=" + value
    requires IsAssignment("", property) && property[0] !in "[;#" && NoBreak(value)
    requires ApplyPair(d, current, Pair(property, value)) == next
    ensures ParseFrom(d, current, lines) == ParseFrom(next, current, lines[1..])
  {
    BareAssignment(property, value);
    StepAssignment(d, current, lines[0], lines[1..], Pair(property, value));
    assert lines == [lines[0]] + lines[1..];
  }

  /** The document after each line of the repeated-section example. */
  lemma RepeatedSectionDocs(name: string, again: string, property: string, first: string, second: string)
    requires EqualsIgnoreCase(name, again) && name != "DEFAULT" && again != "DEFAULT"
    ensures var s1 := [Section(name, [])];
      var s2 := [Section(name, [Pair(property, first)])];
      var s3 := [Section(name, [Pair(property, second)])];
      ApplyHeader(Doc([], []), name) == (Doc([], s1), Some(0))
      && ApplyPair(Doc([], s1), Some(0), Pair(property, first)) == Doc([], s2)
      && ApplyHeader(Doc([], s2), again) == (Doc([], s2), Some(0))
      && ApplyPair(Doc([], s2), Some(0), Pair(property, second)) == Doc([], s3)
  {
    var s1 := [Section(name, [])];
    var s2 := [Section(name, [Pair(property, first)])];
    var s3 := [Section(name, [Pair(property, second)])];
    assert ApplyHeader(Doc([], []), name) == (Doc([], s1), Some(0)) by {
      assert [] + [Section(name, [])] == s1;
    }
    assert ApplyPair(Doc([], s1), Some(0), Pair(property, first)) == Doc([], s2) by {
      assert [Pair(property, first)] + [] == s2[0].pairs;
      assert s1[0 := Section(name, s2[0].pairs)] == s2;
    }
    assert ApplyHeader(Doc([], s2), again) == (Doc([], s2), Some(0)) by {
      assert SectionIndex(s2, again) == Some(0);
    }
    assert ApplyPair(Doc([], s2), Some(0), Pair(property, second)) == Doc([], s3) by {
      assert EqualsIgnoreCase(property, property);
      assert PairIndex(s2[0].pairs, property) == Some(0);
      assert AddPair(s2[0].pairs, property, second) == s3[0].pairs;
      assert s2[0 := Section(name, s3[0].pairs)] == s3;
    }
  }

  /** A line that is no comment, header or pair fails the whole parse. */
  lemma ParseUnrecognisedExample()
    ensures Parse(["title"]).None?
  {
    var t := "title";
    assert !IsComment(t) by { SpanIs(t, 0, 0, IsBlank); }
    assert ParseSection(t).None? by { SpanIs(t, 0, 0, IsSpace); }
    assert ParsePair(t).None? by { SpanIs(t, 0, 0, IsSpace); SpanIs(t, 0, 5, IsNotEquals); }
    assert StripRight(t) == t;
  }

  // ---------------------------------------------------------------------
  // The document object and the parse loop
  // ---------------------------------------------------------------------

  /** `inidoc_find_pair`, walking the list from its head. */
  method FindPair(pairs: seq<Pair>, property: string) returns (r: Option<nat>)
    ensures r == PairIndex(pairs, property)
  {
    var k := 0;
    while k < |pairs|
      invariant 0 <= k <= |pairs|
      invariant forall j :: 0 <= j < k ==> !EqualsIgnoreCase(pairs[j].property, property)
    {
      if EqualsIgnoreCase(pairs[k].property, property) {
        return Some(k);
      }
      k := k + 1;
    }
    return None;
  }

  /** `inidoc_parse_getline`: drop every trailing carriage return and line feed. */
  method GetLine(raw: string) returns (line: string)
    ensures line == StripRight(raw)
  {
    var bytes := |raw|;
    while bytes > 0 && IsCrLf(raw[bytes - 1])
      invariant 0 <= bytes <= |raw|
      invariant StripRight(raw[..bytes]) == StripRight(raw)
    {
      assert raw[..bytes][..bytes - 1] == raw[..bytes - 1];
      bytes := bytes - 1;
    }
    line := raw[..bytes];
  }

  class IniDoc {
    var globals: seq<Pair>
    var sections: seq<Section>

    function Value(): Doc
      reads this
    {
      Doc(globals, sections)
    }

    /** `inidoc_create_empty` */
    constructor ()
      ensures Value() == Doc([], [])
    {
      globals := [];
      sections := [];
    }

    /** `inidoc_lookup_section` */
    method LookupSection(name: string) returns (index: nat)
      modifies this
      ensures (sections, index) == WithSection(old(sections), name)
      ensures globals == old(globals)
    {
      var k := 0;
      while k < |sections|
        invariant 0 <= k <= |sections|
        invariant forall j :: 0 <= j < k ==> !EqualsIgnoreCase(sections[j].name, name)
      {
        if EqualsIgnoreCase(sections[k].name, name) {
          SectionIndexIs(sections, name, k);
          return k;
        }
        k := k + 1;
      }
      sections := sections + [Section(name, [])];
      index := k;
    }

    /** `inidoc_section_add_pair` */
    method SectionAddPair(index: nat, property: string, value: string)
      requires index < |sections|
      modifies this
      ensures globals == old(globals)
      ensures sections == old(sections)[index := Section(old(sections)[index].name,
                                           AddPair(old(sections)[index].pairs, property, value))]
    {
      var pairs := sections[index].pairs;
      var found := FindPair(pairs, property);
      match found {
        case Some(k) => pairs := pairs[k := Pair(pairs[k].property, value)];
        case None => pairs := [Pair(property, value)] + pairs;
      }
      sections := sections[index := Section(sections[index].name, pairs)];
    }

    /** `inidoc_global_add_pair` */
    method GlobalAddPair(property: string, value: string)
      modifies this
      ensures sections == old(sections)
      ensures globals == AddPair(old(globals), property, value)
    {
      var found := FindPair(globals, property);
      match found {
        case Some(k) => globals := globals[k := Pair(globals[k].property, value)];
        case None => globals := [Pair(property, value)] + globals;
      }
    }

    /** `inidoc_get_property_value` */
    function GetPropertyValue(index: nat, property: string): Option<string>
      reads this
      requires index < |sections|
    {
      Lookup(sections[index].pairs, property)
    }

    /** `inidoc_get_global_property_value` */
    function GetGlobalPropertyValue(property: string): Option<string>
      reads this
    {
      Lookup(globals, property)
    }
  }

  lemma SectionIndexIs(sections: seq<Section>, name: string, k: nat)
    requires k < |sections| && EqualsIgnoreCase(sections[k].name, name)
    requires forall j :: 0 <= j < k ==> !EqualsIgnoreCase(sections[j].name, name)
    ensures SectionIndex(sections, name) == Some(k)
  {
    if k > 0 {
      SectionIndexIs(sections[1..], name, k - 1);
    }
  }

  /**
   * `inidoc_parse`: every line is read and classified; an unrecognised
   * line is counted as an error, and any error makes the result null.
   */
  method ParseDocument(lines: seq<string>) returns (doc: IniDoc?)
    ensures doc == null <==> Parse(lines).None?
    ensures doc != null ==> fresh(doc) && doc.Value() == Parse(lines).value
  {
    var d := new IniDoc();
    var current: Option<nat> := None;
    var errors := 0;
    var i := 0;
    while i < |lines|
      invariant 0 <= i <= |lines|
      invariant fresh(d)
      invariant current.Some? ==> current.value < |d.sections|
      invariant errors == 0 ==> ParseFrom(d.Value(), current, lines[i..]) == Parse(lines)
      invariant errors > 0 ==> Parse(lines).None?
    {
      var ok;
      current, ok := ParseLine(d, current, lines[i], lines[i + 1..]);
      assert lines[i..] == [lines[i]] + lines[i + 1..];
      if !ok {
        errors := errors + 1;
      }
      i := i + 1;
    }
    if errors > 0 {
      return null;
    }
    doc := d;
  }

  /** One pass of the loop in `inidoc_parse`: read a line and apply it, or report it unrecognised. */
  method ParseLine(d: IniDoc, current: Option<nat>, raw: string, ghost rest: seq<string>)
    returns (next: Option<nat>, ok: bool)
    requires current.Some? ==> current.value < |d.sections|
    modifies d
    ensures next.Some? ==> next.value < |d.sections|
    ensures ok ==> ParseFrom(old(d.Value()), current, [raw] + rest) == ParseFrom(d.Value(), next, rest)
    ensures !ok ==> ParseFrom(old(d.Value()), current, [raw] + rest).None?
  {
    var line := GetLine(raw);
    assert ([raw] + rest)[0] == raw && ([raw] + rest)[1..] == rest;
    assert ParseFrom(d.Value(), current, [raw] + rest) == ParseLines(d.Value(), current, [raw] + rest);
    next, ok := current, true;
    if IsComment(line) {
    } else if ParseSection(line).Some? {
      var name := ParseSection(line).value;
      if name == "DEFAULT" {
        next := None;
      } else {
        var k := d.LookupSection(name);
        next := Some(k);
      }
    } else if ParsePair(line).Some? {
      var p := ParsePair(line).value;
      match current {
        case None => d.GlobalAddPair(p.property, p.value);
        case Some(k) => d.SectionAddPair(k, p.property, p.value);
      }
    } else {
      ok := false;
    }
  }
}
