/**
 * IFP's string splitter: a string is cut at every occurrence of a separator
 * character, keeping empty elements for leading, trailing and adjacent
 * separators; the empty string has no elements at all.
 */
module IfpUtils {
  import opened Text

  /** `strcspn` with a one-character reject set: the end of the run from `i` free of `sep`. */
  function CSpan(s: string, i: nat, sep: char): (j: nat)
    requires i <= |s|
    ensures i <= j <= |s|
    ensures j < |s| ==> s[j] == sep
    decreases |s| - i
  {
    if i == |s| || s[i] == sep then i else CSpan(s, i + 1, sep)
  }

  /** The run holds no separator. */
  lemma {:induction false} CSpanFree(s: string, i: nat, sep: char)
    requires i <= |s|
    ensures sep !in s[i..CSpan(s, i, sep)]
    decreases |s| - i
  {
    if i < |s| && s[i] != sep {
      CSpanFree(s, i + 1, sep);
      assert s[i..CSpan(s, i, sep)] == [s[i]] + s[i + 1..CSpan(s, i, sep)];
    }
  }

  /** The elements of `s[i..]`: every element ends at a separator or at the end of the string. */
  function FieldsFrom(s: string, i: nat, sep: char): (r: seq<string>)
    requires i <= |s|
    decreases |s| - i
  {
    var j := CSpan(s, i, sep);
    if j == |s| then [s[i..]] else [s[i..j]] + FieldsFrom(s, j + 1, sep)
  }

  /** The elements `ifp_split_string` produces. */
  function Split(s: string, sep: char): seq<string>
  {
    if |s| == 0 then [] else FieldsFrom(s, 0, sep)
  }

  /** How many times `c` occurs in `s`. */
  function Occurrences(s: string, c: char): nat
  {
    if |s| == 0 then 0
    else (if s[0] == c then 1 else 0) + Occurrences(s[1..], c)
  }

  lemma {:induction false} OccurrencesAppend(a: string, b: string, c: char)
    ensures Occurrences(a + b, c) == Occurrences(a, c) + Occurrences(b, c)
    decreases |a|
  {
    if |a| > 0 {
      assert (a + b)[1..] == a[1..] + b;
      OccurrencesAppend(a[1..], b, c);
    } else {
      assert a + b == b;
    }
  }

  lemma {:induction false} NoOccurrences(a: string, c: char)
    requires c !in a
    ensures Occurrences(a, c) == 0
    decreases |a|
  {
    if |a| > 0 {
      assert a[0] in a;
      NoOccurrences(a[1..], c);
    }
  }

  /**
   * `ifp_split_string`: count the separators, then copy one element per
   * `strcspn` run, stepping over the separator that ends it, and add a
   * final empty element when the string ended with a separator.
   */
  method SplitString(s: string, sep: char) returns (count: nat, elements: seq<string>)
    ensures elements == Split(s, sep)
    ensures count == |elements|
  {
    if |s| == 0 {
      return 0, [];
    }
    count := 1;
    for k := 0 to |s|
      invariant count == Occurrences(s[..k], sep) + 1
    {
      assert s[..k + 1] == s[..k] + [s[k]];
      OccurrencesAppend(s[..k], [s[k]], sep);
      if s[k] == sep {
        count := count + 1;
      }
    }
    assert s[..|s|] == s;
    FieldCount(s, 0, sep);
    assert s[0..] == s;
    elements := CopyElements(s, sep);
    FieldsAtEnd(s, sep);
    if |elements| < count {
      elements := elements + [""];
    }
  }

  /** The copying loop of `ifp_split_string`: everything but a final empty element. */
  method CopyElements(s: string, sep: char) returns (elements: seq<string>)
    requires |s| > 0
    ensures elements + Rest(s, |s|, sep) == FieldsFrom(s, 0, sep)
  {
    elements := [];
    var pos := 0;
    while pos < |s|
      invariant pos <= |s|
      invariant elements + Rest(s, pos, sep) == FieldsFrom(s, 0, sep)
      decreases |s| - pos
    {
      var element, next := CopyElement(s, pos, sep);
      Associative(elements, [element], Rest(s, next, sep));
      elements := elements + [element];
      pos := next;
    }
  }

  /**
   * One round of the copying loop: the `strcspn` run from `pos`, and the
   * position after it and after the separator that ends it, if any.
   */
  method CopyElement(s: string, pos: nat, sep: char) returns (element: string, next: nat)
    requires pos < |s|
    ensures pos < next <= |s|
    ensures Rest(s, pos, sep) == [element] + Rest(s, next, sep)
  {
    var length := CSpan(s, pos, sep) - pos;
    RestStep(s, pos, sep);
    element := s[pos..pos + length];
    next := pos + length + (if pos + length < |s| && s[pos + length] == sep then 1 else 0);
  }

  /** Past the last separator there is one empty element. */
  lemma FieldsAtEnd(s: string, sep: char)
    ensures FieldsFrom(s, |s|, sep) == [""]
  {
    assert CSpan(s, |s|, sep) == |s|;
    assert s[|s|..] == "";
  }

  /** What remains to be split once the cursor is at `pos`. */
  function Rest(s: string, pos: nat, sep: char): seq<string>
    requires pos <= |s|
  {
    if pos < |s| || (pos > 0 && s[pos - 1] == sep) then FieldsFrom(s, pos, sep) else []
  }

  lemma RestStep(s: string, pos: nat, sep: char)
    requires pos < |s|
    ensures var j := CSpan(s, pos, sep);
      Rest(s, pos, sep) == [s[pos..j]] + Rest(s, if j < |s| then j + 1 else j, sep)
  {
    var j := CSpan(s, pos, sep);
    if j == |s| {
      CSpanFree(s, pos, sep);
      assert s[j - 1] in s[pos..j];
      assert s[pos..j] == s[pos..];
    }
  }

  /** There is one element more than there are separators. */
  lemma {:induction false} FieldCount(s: string, i: nat, sep: char)
    requires i <= |s|
    ensures |FieldsFrom(s, i, sep)| == Occurrences(s[i..], sep) + 1
    decreases |s| - i
  {
    var j := CSpan(s, i, sep);
    if j == |s| {
      CSpanFree(s, i, sep);
      assert s[i..j] == s[i..];
      OccurrencesSplit(s[i..], [], sep);
    } else {
      FieldCount(s, j + 1, sep);
      FieldCountStep(s, i, sep);
    }
  }

  lemma FieldCountStep(s: string, i: nat, sep: char)
    requires i <= |s| && CSpan(s, i, sep) < |s|
    requires |FieldsFrom(s, CSpan(s, i, sep) + 1, sep)| == Occurrences(s[CSpan(s, i, sep) + 1..], sep) + 1
    ensures |FieldsFrom(s, i, sep)| == Occurrences(s[i..], sep) + 1
  {
    OccurrencesAtSeparator(s, i, sep);
    FieldsAtSeparator(s, i, sep);
  }

  lemma OccurrencesAtSeparator(s: string, i: nat, sep: char)
    requires i <= |s| && CSpan(s, i, sep) < |s|
    ensures Occurrences(s[i..], sep) == Occurrences(s[CSpan(s, i, sep) + 1..], sep) + 1
  {
    var j := CSpan(s, i, sep);
    CSpanFree(s, i, sep);
    SliceAround(s, i, j);
    OccurrencesSplit(s[i..j], s[j + 1..], sep);
  }

  lemma FieldsAtSeparator(s: string, i: nat, sep: char)
    requires i <= |s| && CSpan(s, i, sep) < |s|
    ensures FieldsFrom(s, i, sep) == [s[i..CSpan(s, i, sep)]] + FieldsFrom(s, CSpan(s, i, sep) + 1, sep)
  {
  }

  /** A separator-free run followed by a separator adds one occurrence. */
  lemma OccurrencesSplit(front: string, rest: string, sep: char)
    requires sep !in front
    ensures Occurrences(front, sep) == 0
    ensures Occurrences(front + [sep] + rest, sep) == Occurrences(rest, sep) + 1
  {
    NoOccurrences(front, sep);
    OccurrencesAppend(front, [sep] + rest, sep);
    assert front + [sep] + rest == front + ([sep] + rest);
    assert ([sep] + rest)[1..] == rest;
  }

  /** The empty string splits into no elements. */
  lemma EmptySplit(sep: char)
    ensures Split("", sep) == []
  {
  }

  /** A non-empty string has as many elements as separators, plus one. */
  lemma SplitCount(s: string, sep: char)
    requires |s| > 0
    ensures |Split(s, sep)| == Occurrences(s, sep) + 1
  {
    FieldCount(s, 0, sep);
    assert s[0..] == s;
  }

  /** No element holds the separator. */
  lemma {:induction false} FieldsFree(s: string, i: nat, sep: char)
    requires i <= |s|
    ensures forall e :: e in FieldsFrom(s, i, sep) ==> sep !in e
    decreases |s| - i
  {
    var j := CSpan(s, i, sep);
    CSpanFree(s, i, sep);
    if j < |s| {
      FieldsFree(s, j + 1, sep);
    }
  }

  /** Joining the elements with the separator gives back the string. */
  lemma {:induction false} FieldsJoin(s: string, i: nat, sep: char)
    requires i <= |s|
    ensures Join(FieldsFrom(s, i, sep), [sep]) == s[i..]
    decreases |s| - i
  {
    var j := CSpan(s, i, sep);
    if j < |s| {
      FieldsJoin(s, j + 1, sep);
      FieldsJoinStep(s, i, sep);
    } else {
      assert FieldsFrom(s, i, sep) == [s[i..]];
    }
  }

  lemma FieldsJoinStep(s: string, i: nat, sep: char)
    requires i <= |s| && CSpan(s, i, sep) < |s|
    requires Join(FieldsFrom(s, CSpan(s, i, sep) + 1, sep), [sep]) == s[CSpan(s, i, sep) + 1..]
    ensures Join(FieldsFrom(s, i, sep), [sep]) == s[i..]
  {
    var j := CSpan(s, i, sep);
    var rest := FieldsFrom(s, j + 1, sep);
    assert FieldsFrom(s, i, sep) == [s[i..j]] + rest;
    JoinCons(s[i..j], rest, [sep]);
    SliceAround(s, i, j);
  }

  /** A slice cut around one of its characters. */
  lemma SliceAround(s: string, i: nat, j: nat)
    requires i <= j < |s|
    ensures s[i..] == s[i..j] + [s[j]] + s[j + 1..]
  {
  }

  lemma JoinCons(x: string, rest: seq<string>, sep: string)
    requires |rest| > 0
    ensures Join([x] + rest, sep) == x + sep + Join(rest, sep)
  {
    assert ([x] + rest)[1..] == rest;
  }

  /** Splitting and joining again is the identity, and no element holds the separator. */
  lemma SplitJoin(s: string, sep: char)
    ensures Join(Split(s, sep), [sep]) == s
    ensures forall e :: e in Split(s, sep) ==> sep !in e
  {
    if |s| > 0 {
      FieldsJoin(s, 0, sep);
      FieldsFree(s, 0, sep);
      assert s[0..] == s;
    }
  }

  /** A string ending in the separator has a final empty element. */
  lemma {:induction false} TrailingField(s: string, i: nat, sep: char)
    requires i <= |s| && |s| > 0 && s[|s| - 1] == sep
    ensures |FieldsFrom(s, i, sep)| > 0
    ensures FieldsFrom(s, i, sep)[|FieldsFrom(s, i, sep)| - 1] == ""
    decreases |s| - i
  {
    var j := CSpan(s, i, sep);
    if j < |s| {
      TrailingField(s, j + 1, sep);
    } else if i < |s| {
      CSpanFree(s, i, sep);
      assert false;
    }
  }

  lemma TrailingSeparator(s: string, sep: char)
    requires |s| > 0 && s[|s| - 1] == sep
    ensures |Split(s, sep)| > 0 && Split(s, sep)[|Split(s, sep)| - 1] == ""
  {
    TrailingField(s, 0, sep);
  }
}
