/**
 * IFP's tracer and message switch.  A trace message is a `printf` format
 * whose text up to the first `:` names a facility, such as `loader:`; it
 * is printed when the facility is selected by either of two selectors,
 * one set by the program and one read once from the environment variable
 * `IFP_TRACE`.  A selector is a space-separated list of facility names,
 * or `all` (in any case) or `*` for every facility.  Notices and errors
 * can be switched off; fatal messages always print.
 *
 * What is printed, and where, is not modelled: each operation says
 * whether it prints.
 */
module IfpTracer {
  import opened Text

  /** The size of the local buffer the facility is copied into, terminator included. */
  const FacilityBuffer: nat := 1024

  /** The environment variable holding the second selector. */
  const TraceEnvironment := "IFP_TRACE"

  /**
   * The facility of a format: the text before the first `:` of the copy
   * `strncpy` makes, which keeps at most 1023 characters; `None` when the
   * copy has no `:` or nothing precedes it.
   */
  function Facility(format: string): Option<string>
  {
    var copy := if |format| < FacilityBuffer then format else format[..FacilityBuffer - 1];
    match IndexOf(copy, ':') {
      case None => None
      case Some(e) => if e == 0 then None else Some(copy[..e])
    }
  }

  /**
   * A facility is the non-empty, colon-free text that a `:` follows at
   * the start of the format, within the first 1023 characters.
   */
  lemma FacilityIsColonPrefix(format: string, f: string)
    ensures Facility(format) == Some(f) <==>
              |f| > 0 && ':' !in f && |f| < FacilityBuffer - 1 && IsPrefix(f + ":", format)
  {
    if |f| > 0 && ':' !in f && |f| < FacilityBuffer - 1 && IsPrefix(f + ":", format) {
      ColonPrefixIsFacility(format, f);
    }
    if Facility(format) == Some(f) {
      FacilityIsPrefix(format);
    }
  }

  lemma ColonPrefixIsFacility(format: string, f: string)
    requires |f| > 0 && ':' !in f && |f| < FacilityBuffer - 1 && IsPrefix(f + ":", format)
    ensures Facility(format) == Some(f)
  {
    var copy := if |format| < FacilityBuffer then format else format[..FacilityBuffer - 1];
    var n := |f|;
    assert copy[..n + 1] == format[..n + 1] == f + ":";
    assert copy[..n] == f;
    assert copy[n] == ':';
    IndexOfIs(copy, ':', n);
  }

  lemma FacilityIsPrefix(format: string)
    requires Facility(format).Some?
    ensures var f := Facility(format).value;
            |f| > 0 && ':' !in f && |f| < FacilityBuffer - 1 && IsPrefix(f + ":", format)
  {
    var copy := if |format| < FacilityBuffer then format else format[..FacilityBuffer - 1];
    var e := IndexOf(copy, ':').value;
    assert copy[..e + 1] == copy[..e] + ":";
    assert format[..e + 1] == copy[..e + 1];
  }

  /** A format with no `:`, or one that starts with `:`, has no facility. */
  lemma NoColonNoFacility(format: string)
    requires ':' !in format || (|format| > 0 && format[0] == ':')
    ensures Facility(format).None?
  {
    var copy := if |format| < FacilityBuffer then format else format[..FacilityBuffer - 1];
    if ':' !in format {
      assert forall i :: 0 <= i < |copy| ==> copy[i] == format[i];
      assert ':' !in copy;
    } else {
      assert copy[0] == ':';
      IndexOfIs(copy, ':', 0);
    }
  }

  /** `word` occurs in `selector` at `m` as a whole word: bounded by spaces or the ends. */
  predicate WordAt(selector: string, word: string, m: nat)
  {
    OccursAt(selector, word, m) &&
    (m == 0 || selector[m - 1] == ' ') &&
    (m + |word| == |selector| || selector[m + |word|] == ' ')
  }

  /** The selector names every facility. */
  predicate SelectsAll(selector: string)
  {
    EqualsIgnoreCase(selector, "all") || selector == "*"
  }

  /**
   * The word test of `ifp_trace_check_selector` as the source has it:
   * only the first occurrence `strstr` finds is tested for word bounds.
   */
  predicate FirstIsWord(selector: string, word: string)
  {
    match FirstOccurrence(selector, word) {
      case None => false
      case Some(m) => WordAt(selector, word, m)
    }
  }

  /** The first position at or after `i` where `word` occurs in `selector`. */
  function NextOccurrence(selector: string, word: string, i: nat): (r: Option<nat>)
    requires i <= |selector|
    ensures r.Some? ==> i <= r.value <= |selector| && OccursAt(selector, word, r.value)
    ensures r.Some? ==> forall k :: i <= k < r.value ==> !OccursAt(selector, word, k)
    ensures r.None? ==> forall k :: i <= k <= |selector| ==> !OccursAt(selector, word, k)
    decreases |selector| - i
  {
    if OccursAt(selector, word, i) then Some(i)
    else if i == |selector| then None
    else NextOccurrence(selector, word, i + 1)
  }

  /** Searching from the start is `strstr`. */
  lemma NextOccurrenceFromStart(selector: string, word: string)
    ensures NextOccurrence(selector, word, 0) == FirstOccurrence(selector, word)
  {
    var n, f := NextOccurrence(selector, word, 0), FirstOccurrence(selector, word);
    if n.Some? && f.Some? {
      assert !(n.value < f.value) && !(f.value < n.value);
    }
  }

  /**
   * The word test as evidently intended: after an occurrence that is not
   * a whole word, the search goes on from the next position.
   */
  predicate WordFrom(selector: string, word: string, i: nat)
    requires i <= |selector|
    decreases |selector| - i
  {
    match NextOccurrence(selector, word, i) {
      case None => false
      case Some(m) => WordAt(selector, word, m) || (m < |selector| && WordFrom(selector, word, m + 1))
    }
  }

  predicate HasWord(selector: string, word: string)
  {
    WordFrom(selector, word, 0)
  }

  /** The search from `i` finds a whole word exactly when one starts at `i` or later. */
  lemma WordFromFindsAny(selector: string, word: string, i: nat)
    requires i <= |selector|
    ensures WordFrom(selector, word, i) <==> exists m :: i <= m <= |selector| && WordAt(selector, word, m)
  {
    if WordFrom(selector, word, i) {
      var m := WordFromFound(selector, word, i);
    }
    if exists m :: i <= m <= |selector| && WordAt(selector, word, m) {
      var m :| i <= m <= |selector| && WordAt(selector, word, m);
      WordFromFinds(selector, word, i, m);
    }
  }

  /** What the search from `i` accepts is a whole word at `i` or later. */
  lemma {:induction false} WordFromFound(selector: string, word: string, i: nat) returns (m: nat)
    requires i <= |selector| && WordFrom(selector, word, i)
    ensures i <= m <= |selector| && WordAt(selector, word, m)
    decreases |selector| - i
  {
    var n := NextOccurrence(selector, word, i).value;
    if WordAt(selector, word, n) {
      m := n;
    } else {
      m := WordFromFound(selector, word, n + 1);
    }
  }

  /** A whole word at `m` is found by a search from any `i` up to `m`. */
  lemma {:induction false} WordFromFinds(selector: string, word: string, i: nat, m: nat)
    requires i <= m <= |selector| && WordAt(selector, word, m)
    ensures WordFrom(selector, word, i)
    decreases |selector| - i
  {
    var found := NextOccurrence(selector, word, i);
    assert found.Some?;
    var n := found.value;
    if n < m {
      WordFromFinds(selector, word, n + 1, m);
    }
  }

  /** The intended test: the word is one of the selector's space-bounded words. */
  lemma HasWordIsWholeWord(selector: string, word: string)
    ensures HasWord(selector, word) <==> exists m :: 0 <= m <= |selector| && WordAt(selector, word, m)
  {
    WordFromFindsAny(selector, word, 0);
  }

  /** The first-occurrence test never accepts what the intended test refuses. */
  lemma FirstIsWordSound(selector: string, word: string)
    ensures FirstIsWord(selector, word) ==> HasWord(selector, word)
  {
    HasWordIsWholeWord(selector, word);
    if FirstIsWord(selector, word) {
      var m := FirstOccurrence(selector, word).value;
      assert WordAt(selector, word, m);
    }
  }

  /**
   * `ifp_trace_check_selector` as the source has it: `None` (NULL) never
   * selects; `all` or `*` always does; otherwise the format's facility
   * must be the first occurrence of itself in the selector, as a word.
   */
  predicate SelectsAsWritten(selector: Option<string>, format: string)
  {
    selector.Some? &&
    (SelectsAll(selector.value) ||
     (Facility(format).Some? && FirstIsWord(selector.value, Facility(format).value)))
  }

  /** `ifp_trace_check_selector` with the intended word test. */
  predicate Selects(selector: Option<string>, format: string)
  {
    selector.Some? &&
    (SelectsAll(selector.value) ||
     (Facility(format).Some? && HasWord(selector.value, Facility(format).value)))
  }

  /**
   * What selects a format: a present selector that names every facility,
   * or one in which the format's facility is a whole word.
   */
  lemma SelectsFacilityWord(selector: Option<string>, format: string, f: string)
    requires Facility(format) == Some(f)
    ensures Selects(selector, format) <==>
              selector.Some? &&
              (SelectsAll(selector.value) ||
               exists m :: 0 <= m <= |selector.value| && WordAt(selector.value, f, m))
  {
    if selector.Some? {
      HasWordIsWholeWord(selector.value, f);
    }
  }

  /** A format without a facility is selected only by a selector naming every facility. */
  lemma NoFacilityNoTrace(selector: Option<string>, format: string)
    requires ':' !in format || (|format| > 0 && format[0] == ':')
    ensures Selects(selector, format) <==> selector.Some? && SelectsAll(selector.value)
    ensures SelectsAsWritten(selector, format) <==> selector.Some? && SelectsAll(selector.value)
  {
    NoColonNoFacility(format);
  }

  /**
   * The source's test misses a facility whose name first occurs inside a
   * longer word: with the selector `loaders loader`, a `loader:` trace is
   * not printed, although `loader` is a word of the selector.
   */
  lemma FirstOccurrenceMissesLaterWord()
    ensures !SelectsAsWritten(Some("loaders loader"), "loader: x")
    ensures Selects(Some("loaders loader"), "loader: x")
  {
    LoaderFacility();
    LoadersNotAll();
    LoaderFirstInsideLoaders();
    LoaderIsSecondWord();
  }

  /** The facility of `loader: x` is `loader`. */
  lemma LoaderFacility()
    ensures Facility("loader: x") == Some("loader")
  {
    assert IsPrefix("loader" + ":", "loader: x");
    ColonPrefixIsFacility("loader: x", "loader");
  }

  /** `loaders loader` does not name every facility. */
  lemma LoadersNotAll()
    ensures !SelectsAll("loaders loader")
  {
    assert |Lower("loaders loader")| != |Lower("all")|;
  }

  /** `strstr` finds `loader` at the start of `loaders`, which is no whole word. */
  lemma LoaderFirstInsideLoaders()
    ensures !FirstIsWord("loaders loader", "loader")
  {
    var selector := "loaders loader";
    assert selector[0..6] == "loader";
    assert OccursAt(selector, "loader", 0);
    assert FirstOccurrence(selector, "loader") == Some(0);
    assert selector[6] == 's';
  }

  /** The second word of `loaders loader` is `loader`. */
  lemma LoaderIsSecondWord()
    ensures HasWord("loaders loader", "loader")
  {
    var selector := "loaders loader";
    assert selector[8..14] == "loader";
    assert WordAt(selector, "loader", 8);
    WordFromFinds(selector, "loader", 0, 8);
  }

  /** Which reports print. */
  datatype Severity = Notice | Error | Fatal

  /** The tracer's module state. */
  class Tracer {
    /** `ifp_trace_selector`, set by `ifp_trace_select`. */
    var selector: Option<string>
    /** Whether `IFP_TRACE` has been read, and what it held. */
    var initialized: bool
    var envSelector: Option<string>
    /** `ifp_error_messages`. */
    var messagesEnabled: bool

    /** No selector, the environment unread, and messages on. */
    constructor ()
      ensures selector.None? && !initialized && envSelector.None? && messagesEnabled
    {
      selector, initialized, envSelector, messagesEnabled := None, false, None, true;
    }

    /** `ifp_trace_select`: replace the program's selector; `None` clears it. */
    method Select(newSelector: Option<string>)
      modifies this
      ensures selector == newSelector
      ensures initialized == old(initialized) && envSelector == old(envSelector)
      ensures messagesEnabled == old(messagesEnabled)
    {
      selector := newSelector;
    }

    /**
     * `ifp_trace`: on the first call read `IFP_TRACE` through `getenv`;
     * print when either selector selects the format.
     */
    method Trace(format: string, getenv: string -> Option<string>) returns (printed: bool)
      modifies this
      ensures initialized
      ensures envSelector == if old(initialized) then old(envSelector) else getenv(TraceEnvironment)
      ensures selector == old(selector) && messagesEnabled == old(messagesEnabled)
      ensures printed <==> Selects(selector, format) || Selects(envSelector, format)
    {
      if !initialized {
        envSelector := getenv(TraceEnvironment);
        initialized := true;
      }
      printed := Selects(selector, format) || Selects(envSelector, format);
    }

    /** `ifp_messages`: any non-zero `enabled` turns notices and errors on. */
    method Messages(enabled: int)
      modifies this
      ensures messagesEnabled <==> enabled != 0
      ensures selector == old(selector) && initialized == old(initialized) && envSelector == old(envSelector)
    {
      messagesEnabled := enabled != 0;
    }

    /** `ifp_messages_enabled`. */
    method MessagesEnabled() returns (enabled: bool)
      ensures enabled == messagesEnabled
    {
      enabled := messagesEnabled;
    }

    /**
     * `ifp_notice`, `ifp_error` and `ifp_fatal`: fatal messages always
     * print (and the process aborts); the others print only while
     * messages are on.
     */
    method Report(severity: Severity) returns (printed: bool, aborts: bool)
      ensures printed <==> severity == Fatal || messagesEnabled
      ensures aborts <==> severity == Fatal
    {
      aborts := severity == Fatal;
      printed := aborts || messagesEnabled;
    }
  }
}
