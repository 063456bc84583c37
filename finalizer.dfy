/**
 * IFP's finalizers: functions a plugin registers to be called when its
 * shared object is unloaded, in the manner of `atexit`.  Registration
 * pushes on the head of a list; unloading runs the list from the head,
 * so finalizers run in reverse order of registration.
 *
 * A finalizer is named by a number standing for its function pointer.
 */
module Finalizer {

  /** A sequence backwards. */
  function Reverse<T>(s: seq<T>): (r: seq<T>)
    ensures |r| == |s|
  {
    if |s| == 0 then [] else Reverse(s[1..]) + [s[0]]
  }

  /** The element at each position of a reversed sequence. */
  lemma {:induction false} ReverseAt<T>(s: seq<T>, i: nat)
    requires i < |s|
    ensures Reverse(s)[i] == s[|s| - 1 - i]
  {
    if i < |s| - 1 {
      ReverseAt(s[1..], i);
    }
  }

  /** The list after registering `fs` in order, each on the head. */
  function RegisterAll(list: seq<nat>, fs: seq<nat>): (r: seq<nat>)
    ensures |r| == |list| + |fs|
    decreases |fs|
  {
    if |fs| == 0 then list else RegisterAll([fs[0]] + list, fs[1..])
  }

  /** Registering pushes the registrations, newest first, in front of the list. */
  lemma {:induction false} RegisterAllReverses(list: seq<nat>, fs: seq<nat>)
    ensures RegisterAll(list, fs) == Reverse(fs) + list
    decreases |fs|
  {
    if |fs| > 0 {
      RegisterAllReverses([fs[0]] + list, fs[1..]);
      assert Reverse(fs) == Reverse(fs[1..]) + [fs[0]];
    }
  }

  /**
   * From an empty list, the finalizer registered `k`-th is the one that
   * runs `k`-th from the end: the run is the registrations reversed.
   */
  lemma RunsInReverse(fs: seq<nat>, k: nat)
    requires k < |fs|
    ensures RegisterAll([], fs)[|fs| - 1 - k] == fs[k]
  {
    var reversed, i := Reverse(fs), |fs| - 1 - k;
    assert RegisterAll([], fs) == reversed by {
      RegisterAllReverses([], fs);
      assert reversed + [] == reversed;
    }
    assert reversed[i] == fs[k] by {
      ReverseAt(fs, i);
    }
  }

  /** `ifp_finalizer_list`, head first. */
  class Finalizers {
    var list: seq<nat>

    /** The list starts empty. */
    constructor ()
      ensures list == []
    {
      list := [];
    }

    /**
     * `ifp_register_finalizer`: `gotEntry` says whether the C library
     * could allocate the list entry.  When it could not, the library
     * aborts the process; otherwise the finalizer goes on the head.
     */
    method Register(finalizer: nat, gotEntry: bool) returns (aborted: bool)
      modifies this
      ensures aborted <==> !gotEntry
      ensures list == if aborted then old(list) else [finalizer] + old(list)
    {
      if !gotEntry {
        return true;
      }
      list := [finalizer] + list;
      return false;
    }

    /**
     * `ifpi_finalizer`: until the list is empty, run its head and unlink
     * it.  The result is the finalizers run, in the order they ran.
     */
    method Finalize() returns (ran: seq<nat>)
      modifies this
      ensures ran == old(list) && list == []
    {
      ran := [];
      while list != []
        invariant ran + list == old(list)
        decreases |list|
      {
        ran := ran + [list[0]];
        list := list[1..];
      }
    }
  }

  /** Each finalizer registered runs as often as it was registered, and nothing else runs. */
  lemma {:induction false} EachRunsOnce(fs: seq<nat>)
    ensures multiset(RegisterAll([], fs)) == multiset(fs)
  {
    RegisterAllReverses([], fs);
    ReversePermutes(fs);
  }

  lemma {:induction false} ReversePermutes<T>(s: seq<T>)
    ensures multiset(Reverse(s)) == multiset(s)
  {
    if |s| > 0 {
      ReversePermutes(s[1..]);
      assert s == [s[0]] + s[1..];
    }
  }
}
