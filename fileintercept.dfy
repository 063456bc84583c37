/**
 * The open-file tracker of IFP's libc interception.  File descriptors and
 * streams that a plugin opens through the intercepted calls are kept on two
 * lists, newest first, so that whatever the plugin leaves open can be
 * closed when it finishes.  The tracker is lenient: removing something not
 * listed does nothing.
 *
 * Each list is modelled by the sequence of its entries from the head; a
 * stream is named by its `FILE *`, with 0 for NULL.  The calls into the C
 * library are parameters: each intercept receives the result the library
 * returned.
 */
module FileIntercept {

  /** `EOF`, the failure result of `fclose`. */
  const EOF: int := -1

  /** A list with every entry equal to `x` taken out, the others in order. */
  function Without<T(==)>(list: seq<T>, x: T): seq<T>
  {
    if |list| == 0 then []
    else Without(list[..|list| - 1], x) + (if list[|list| - 1] == x then [] else [list[|list| - 1]])
  }

  /** `Without` keeps exactly the entries other than `x`, each as often as before. */
  lemma {:induction false} WithoutKeepsOthers<T>(list: seq<T>, x: T)
    ensures x !in Without(list, x)
    ensures forall y :: y in Without(list, x) <==> y in list && y != x
    ensures forall y :: y != x ==> multiset(Without(list, x))[y] == multiset(list)[y]
    ensures |Without(list, x)| == |list| - multiset(list)[x]
  {
    if |list| > 0 {
      var front, last := list[..|list| - 1], list[|list| - 1];
      WithoutKeepsOthers(front, x);
      assert list == front + [last];
    }
  }

  /** Taking out the entries of a list joined from two parts works part by part. */
  lemma {:induction false} WithoutAppend<T>(a: seq<T>, b: seq<T>, x: T)
    ensures Without(a + b, x) == Without(a, x) + Without(b, x)
    decreases |b|
  {
    if |b| > 0 {
      var front, last := b[..|b| - 1], b[|b| - 1];
      assert (a + b)[..|a + b| - 1] == a + front;
      WithoutAppend(a, front, x);
    } else {
      assert a + b == a;
    }
  }

  /** Taking out an entry that was just pushed takes out every copy of it. */
  lemma PushThenWithout<T>(list: seq<T>, x: T)
    ensures Without([x] + list, x) == Without(list, x)
  {
    WithoutAppend([x], list, x);
    assert Without([x], x) == Without([], x) + [];
  }

  /** Taking out the same entry twice is taking it out once. */
  lemma {:induction false} WithoutIdempotent<T>(list: seq<T>, x: T)
    ensures Without(Without(list, x), x) == Without(list, x)
  {
    if |list| > 0 {
      var front, last := list[..|list| - 1], list[|list| - 1];
      WithoutIdempotent(front, x);
      WithoutAppend(Without(front, x), if last == x then [] else [last], x);
    }
  }

  /**
   * The search loop of `ifp_file_remove_file` and `ifp_file_remove_stream`:
   * walk the list, unlinking every entry equal to `x` and keeping the rest.
   */
  method Unlink<T(==)>(list: seq<T>, x: T) returns (kept: seq<T>)
    ensures kept == Without(list, x)
  {
    kept := [];
    for i := 0 to |list|
      invariant kept == Without(list[..i], x)
    {
      assert list[..i + 1][..i] == list[..i];
      if list[i] != x {
        kept := kept + [list[i]];
      }
    }
    assert list[..|list|] == list;
  }

  /** The two open-file lists, `ifp_fd_list` and `ifp_stream_list`, head first. */
  class OpenFiles {
    var fds: seq<int>
    var streams: seq<nat>

    /** Both lists start empty. */
    constructor ()
      ensures fds == [] && streams == []
    {
      fds, streams := [], [];
    }

    /** `ifp_file_add_file`: push `fd` on the head of the descriptor list. */
    method AddFile(fd: int)
      modifies this
      ensures fds == [fd] + old(fds) && streams == old(streams)
    {
      fds := [fd] + fds;
    }

    /** `ifp_file_add_stream`: push `stream` on the head of the stream list. */
    method AddStream(stream: nat)
      modifies this
      ensures streams == [stream] + old(streams) && fds == old(fds)
    {
      streams := [stream] + streams;
    }

    /** `ifp_file_remove_file`: unlink every entry for `fd`; an unlisted `fd` changes nothing. */
    method RemoveFile(fd: int)
      modifies this
      ensures fds == Without(old(fds), fd) && streams == old(streams)
    {
      fds := Unlink(fds, fd);
    }

    /** `ifp_file_remove_stream`: unlink every entry for `stream`. */
    method RemoveStream(stream: nat)
      modifies this
      ensures streams == Without(old(streams), stream) && fds == old(fds)
    {
      streams := Unlink(streams, stream);
    }

    /**
     * `ifp_libc_intercept_open_2`, `ifp_libc_intercept_open_3`,
     * `ifp_libc_intercept_creat` and `ifp_libc_intercept_dup`: `fd` is the
     * C library's result, listed unless it is -1.
     */
    method Opened(fd: int)
      modifies this
      ensures fds == (if fd != -1 then [fd] else []) + old(fds) && streams == old(streams)
    {
      if fd != -1 {
        AddFile(fd);
      }
    }

    /** `ifp_libc_intercept_close`: `fd` is unlisted only when `close` returned `status` other than -1. */
    method Close(fd: int, status: int)
      modifies this
      ensures fds == (if status != -1 then Without(old(fds), fd) else old(fds)) && streams == old(streams)
    {
      if status != -1 {
        RemoveFile(fd);
      }
    }

    /**
     * `ifp_libc_intercept_dup2`: when `dup2` returned `fd` other than -1,
     * `newfd`, which it closed, is unlisted and `fd` listed.
     */
    method Dup2(newfd: int, fd: int)
      modifies this
      ensures fds == (if fd != -1 then [fd] + Without(old(fds), newfd) else old(fds)) && streams == old(streams)
    {
      if fd != -1 {
        RemoveFile(newfd);
        AddFile(fd);
      }
    }

    /** `ifp_libc_intercept_fopen`: a non-NULL `stream` from `fopen` is listed. */
    method Fopen(stream: nat)
      modifies this
      ensures streams == (if stream != 0 then [stream] else []) + old(streams) && fds == old(fds)
    {
      if stream != 0 {
        AddStream(stream);
      }
    }

    /**
     * `ifp_libc_intercept_fdopen`: when `fdopen(filedes)` returned a
     * non-NULL `stream`, the descriptor moves from the descriptor list to
     * the stream list as that stream.
     */
    method Fdopen(filedes: int, stream: nat)
      modifies this
      ensures stream != 0 ==> fds == Without(old(fds), filedes) && streams == [stream] + old(streams)
      ensures stream == 0 ==> fds == old(fds) && streams == old(streams)
    {
      if stream != 0 {
        RemoveFile(filedes);
        AddStream(stream);
      }
    }

    /**
     * `ifp_libc_intercept_freopen`: when `freopen` on `stream` returned a
     * non-NULL `newStream`, the old stream, which it closed, is replaced
     * by the new one at the head.
     */
    method Freopen(stream: nat, newStream: nat)
      modifies this
      ensures streams == (if newStream != 0 then [newStream] + Without(old(streams), stream) else old(streams))
      ensures fds == old(fds)
    {
      if newStream != 0 {
        RemoveStream(stream);
        AddStream(newStream);
      }
    }

    /** `ifp_libc_intercept_fclose`: `stream` is unlisted unless `fclose` returned `EOF`. */
    method Fclose(stream: nat, status: int)
      modifies this
      ensures streams == (if status != EOF then Without(old(streams), stream) else old(streams))
      ensures fds == old(fds)
    {
      if status != EOF {
        RemoveStream(stream);
      }
    }

    /**
     * `ifp_file_open_files_cleanup`: close every listed descriptor, head
     * first, then every listed stream, and empty both lists.  The results
     * are the descriptors passed to `close` and the streams passed to
     * `fclose`, in order.
     */
    method Cleanup() returns (closedFds: seq<int>, closedStreams: seq<nat>)
      modifies this
      ensures closedFds == old(fds) && closedStreams == old(streams)
      ensures fds == [] && streams == []
    {
      closedFds := [];
      var fdList := fds;
      for i := 0 to |fdList|
        invariant closedFds == fdList[..i]
      {
        assert fdList[..i + 1] == fdList[..i] + [fdList[i]];
        closedFds := closedFds + [fdList[i]];
      }
      assert fdList[..|fdList|] == fdList;
      fds := [];
      closedStreams := [];
      var streamList := streams;
      for i := 0 to |streamList|
        invariant closedStreams == streamList[..i]
      {
        assert streamList[..i + 1] == streamList[..i] + [streamList[i]];
        closedStreams := closedStreams + [streamList[i]];
      }
      assert streamList[..|streamList|] == streamList;
      streams := [];
    }
  }

  /** A descriptor that was closed is no longer listed, and every other listed descriptor still is. */
  lemma CloseUnlists(fds: seq<int>, fd: int, other: int)
    requires other != fd
    ensures fd !in Without(fds, fd)
    ensures other in Without(fds, fd) <==> other in fds
  {
    WithoutKeepsOthers(fds, fd);
  }

  /** After `dup2`, `newfd` is listed exactly when it is the descriptor returned. */
  lemma Dup2Lists(fds: seq<int>, newfd: int, fd: int)
    ensures newfd in [fd] + Without(fds, newfd) <==> newfd == fd
    ensures fd in [fd] + Without(fds, newfd)
  {
    WithoutKeepsOthers(fds, newfd);
  }
}
