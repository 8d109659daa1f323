/**
 * The follower of the `simpletailer` package: construction only records the
 * path and the encoding; the file is opened, its size recorded and the
 * cursor moved to the end when iteration starts. Each poll cycle runs the
 * truncation check and then reads one line.
 *
 * The environment is passed in: `f` is the file at the path at the moment
 * of the call. The ghost counters `opens` (handles opened so far) and `live`
 * (handles opened and not yet closed) make the handle's lifecycle visible.
 */
module Tailer {
  import opened Wrappers
  import opened Environment
  import opened Polling
  import opened Text

  class SimpleTailer {
    const path: string
    const encoding: string
    /** `self.handle`: absent until iteration starts. */
    var handle: Option<Handle>
    /** `self.size`: absent until the file is first opened. */
    var size: Option<nat>
    ghost var opens: nat
    ghost var live: nat

    /** The handle held, when it is open, is one of the live handles. */
    ghost predicate Valid()
      reads this
    {
      handle.Some? && handle.value.isOpen ==> live >= 1
    }

    /** Iterating: an open handle whose cursor is not beyond the recorded size. */
    ghost predicate Following()
      reads this
    {
      handle.Some? && handle.value.isOpen && size.Some? && handle.value.cursor <= size.value
    }

    /** The cursor and the recorded size, once both exist. */
    function View(): Follow
      reads this
      requires handle.Some? && size.Some?
    {
      Follow(handle.value.cursor, size.value)
    }

    /** `SimpleTailer(path, encoding)`: records the path and the encoding (`encoding or preferred`) and opens nothing. */
    constructor (path: string, encoding: Option<string>, preferred: string)
      ensures Valid()
      ensures this.path == path
      ensures this.encoding == if encoding.Some? && encoding.value != [] then encoding.value else preferred
      ensures handle == None && size == None && opens == 0 && live == 0
    {
      this.path := path;
      this.encoding := if encoding.Some? && encoding.value != [] then encoding.value else preferred;
      handle := None;
      size := None;
      opens, live := 0, 0;
    }

    /**
     * `_open_handle(seek_to_end)`: raise ENOENT, changing nothing, when no
     * regular file is at the path; otherwise open a fresh handle, record the
     * file's size and, on request, move the cursor to the end.
     */
    method Open(f: File, seekToEnd: bool) returns (r: Outcome<Error>)
      requires Valid()
      modifies this
      ensures Valid()
      ensures r == if IsFile(f) then Pass else Fail(NotFound)
      ensures !IsFile(f) ==> handle == old(handle) && size == old(size) && opens == old(opens) && live == old(live)
      ensures IsFile(f) ==> Following() && View() == Opened(f, seekToEnd)
      ensures IsFile(f) ==> opens == old(opens) + 1 && live == old(live) + 1
    {
      if !IsFile(f) {
        return Fail(NotFound);
      }
      handle := Some(Handle(0, true));
      opens, live := opens + 1, live + 1;
      size := Some(Stat(f).value);
      if seekToEnd {
        SeekToEnd(f);
      }
      r := Pass;
    }

    /** `_close_handle`: close the handle held; closing a closed handle does nothing. */
    method Close()
      requires Valid() && handle.Some?
      modifies this
      ensures Valid()
      ensures handle == Some(old(handle).value.(isOpen := false))
      ensures live == old(live) - (if old(handle).value.isOpen then 1 else 0)
      ensures size == old(size) && opens == old(opens)
    {
      if handle.value.isOpen {
        live := live - 1;
      }
      handle := Some(handle.value.(isOpen := false));
    }

    /**
     * `_reopen_handle`: close the handle first, then open the file again
     * without seeking, so the cursor starts at byte 0.
     */
    method Reopen(f: File) returns (r: Outcome<Error>)
      requires Valid() && handle.Some?
      modifies this
      ensures Valid()
      ensures r == if IsFile(f) then Pass else Fail(NotFound)
      ensures IsFile(f) ==> Following() && View() == Opened(f, false) && opens == old(opens) + 1
      ensures IsFile(f) ==> live == old(live) - (if old(handle).value.isOpen then 1 else 0) + 1
      ensures !IsFile(f) ==> handle == Some(old(handle).value.(isOpen := false)) && size == old(size)
      ensures !IsFile(f) ==> opens == old(opens) && live == old(live) - (if old(handle).value.isOpen then 1 else 0)
    {
      Close();
      r := Open(f, false);
    }

    /** `_seek_to_end`: move the cursor to the end of the file. */
    method SeekToEnd(f: File)
      requires handle.Some? && handle.value.isOpen
      modifies this
      ensures handle == Some(old(handle).value.(cursor := |f.data|))
      ensures size == old(size) && opens == old(opens) && live == old(live)
    {
      handle := Some(handle.value.(cursor := |f.data|));
    }

    /**
     * `truncated_check`: stat the file (which raises, changing nothing, when
     * it is gone); reopen it when it is now shorter than the recorded size,
     * otherwise only record its size. The recorded size is then the size seen.
     */
    method TruncatedCheck(f: File) returns (r: Outcome<Error>)
      requires Valid() && Following()
      modifies this
      ensures Valid()
      ensures r == if IsFile(f) then Pass else Fail(NotFound)
      ensures !IsFile(f) ==> handle == old(handle) && size == old(size) && opens == old(opens) && live == old(live)
      ensures IsFile(f) ==> Following() && View() == Checked(old(View()), f) && size == Some(|f.data|)
      ensures IsFile(f) && Truncated(old(View()), f) ==> handle == Some(Handle(0, true)) && opens == old(opens) + 1
      ensures IsFile(f) && !Truncated(old(View()), f) ==> handle == old(handle) && opens == old(opens)
      ensures live == old(live)
    {
      var current := Stat(f);
      if current.Err? {
        return Fail(current.error);
      }
      if size.value > current.value {
        r := Reopen(f);
      } else {
        size := Some(Stat(f).value);
        r := Pass;
      }
    }

    /** `handle.readline()`: the line at the cursor, which moves past it. */
    method ReadLine(f: File) returns (line: string)
      requires handle.Some? && handle.value.isOpen
      modifies this
      ensures line == LineAt(f.data, old(handle).value.cursor)
      ensures handle == Some(old(handle).value.(cursor := old(handle).value.cursor + |line|))
      ensures size == old(size) && opens == old(opens) && live == old(live)
    {
      line := ReadLineFrom(f.data, handle.value.cursor);
      handle := Some(handle.value.(cursor := handle.value.cursor + |line|));
    }

    /**
     * One cycle of `__iter__`: the truncation check, then one `readline()`;
     * the stripped line is yielded when the read returned something, and
     * `None` stands for the one-second sleep otherwise.
     */
    method Step(f: File) returns (r: Result<Option<string>, Error>)
      requires Valid() && Following()
      modifies this
      ensures Valid() && live == old(live)
      ensures Cycle(old(View()), f).Err? ==> r == Err(NotFound) && handle == old(handle) && size == old(size) && opens == old(opens)
      ensures Cycle(old(View()), f).Ok? ==> var c := Cycle(old(View()), f).value;
        r == Ok(Yield(c.raw)) && Following() && View() == c.next
        && opens == old(opens) + (if c.reopened then 1 else 0)
    {
      var checked := TruncatedCheck(f);
      if checked.Fail? {
        return Err(checked.error);
      }
      var line := ReadLine(f);
      assert Consistent(View());
      if line != [] {
        r := Ok(Some(Strip(line)));
      } else {
        r := Ok(None);
      }
    }

    /**
     * `__iter__` over the states `fs` the file passes through: open at the
     * end of the file `f0` (raising ENOENT when it is absent), then poll.
     */
    method Iterate(f0: File, fs: seq<File>) returns (out: seq<Option<string>>, err: Option<Error>)
      requires Valid()
      modifies this
      ensures Valid()
      ensures !IsFile(f0) ==> out == [] && err == Some(NotFound)
      ensures !IsFile(f0) ==> handle == old(handle) && size == old(size) && opens == old(opens) && live == old(live)
      ensures IsFile(f0) ==> var t := Run(Opened(f0, true), fs);
        out == t.outputs && err == t.error && Following() && View() == t.last
        && opens == old(opens) + 1 + t.reopens && live == old(live) + 1
    {
      var start := Open(f0, true);
      if start.Fail? {
        return [], Some(start.error);
      }
      out, err := Poll(fs);
    }

    /**
     * The `while True` loop of `__iter__`: one cycle per state in `fs`, from
     * the current cursor, ending at the first error.
     */
    method Poll(fs: seq<File>) returns (out: seq<Option<string>>, err: Option<Error>)
      requires Valid() && Following()
      modifies this
      ensures Valid() && Following() && live == old(live)
      ensures var t := Run(old(View()), fs);
        out == t.outputs && err == t.error && View() == t.last && opens == old(opens) + t.reopens
    {
      ghost var s0 := View();
      ghost var read: string := [];
      ghost var reopens := 0;
      out, err := [], None;
      var i := 0;
      while i < |fs|
        invariant 0 <= i <= |fs|
        invariant Valid() && Following() && live == old(live)
        invariant Run(s0, fs[..i]) == Trace(View(), out, read, reopens, None)
        invariant opens == old(opens) + reopens
      {
        ghost var before := View();
        RunNextCycle(s0, fs, i);
        var r := Step(fs[i]);
        if r.Err? {
          err := Some(r.error);
          RunStopsAtError(s0, fs, i + 1);
          return;
        }
        var c := Cycle(before, fs[i]).value;
        out := out + [r.value];
        read := read + c.raw;
        reopens := reopens + (if c.reopened then 1 else 0);
        i := i + 1;
      }
      assert fs[..i] == fs;
    }
  }
}
