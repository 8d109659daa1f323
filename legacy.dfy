/**
 * The older top-level follower: its constructor checks that the path is a
 * regular file, opens it, records its size and seeks to the end; iteration
 * then polls from there without opening or seeking again.
 *
 * Python's `SimpleTailer(filepath)` first allocates the object and runs
 * `self.handle = None`, then the rest of `__init__`, which may raise. The
 * model keeps these apart: the constructor is the first part, `Initialise`
 * the rest, and `Construct` the two together.
 */
module LegacyTailer {
  import opened Wrappers
  import opened Environment
  import opened Polling
  import opened Text

  class SimpleTailer {
    /** `self.filepath`: set only once the path is known to be a regular file. */
    var filepath: Option<string>
    var handle: Option<Handle>
    var size: Option<nat>
    /** `self.current_state.st_size`: the size seen by the last stat. */
    var currentState: Option<nat>
    ghost var opens: nat
    ghost var live: nat

    /** The handle held, when it is open, is one of the live handles. */
    ghost predicate Valid()
      reads this
    {
      handle.Some? && handle.value.isOpen ==> live >= 1
    }

    /** Ready to iterate: an open handle whose cursor is not beyond the recorded size, which is the size the last stat saw. */
    ghost predicate Following()
      reads this
    {
      filepath.Some? && handle.Some? && handle.value.isOpen && size.Some? && handle.value.cursor <= size.value
      && currentState == size
    }

    /** The cursor and the recorded size, once both exist. */
    function View(): Follow
      reads this
      requires handle.Some? && size.Some?
    {
      Follow(handle.value.cursor, size.value)
    }

    /** The object as allocated, after `self.handle = None`. */
    constructor ()
      ensures Valid()
      ensures filepath == None && handle == None && size == None && currentState == None
      ensures opens == 0 && live == 0
    {
      filepath, handle, size, currentState := None, None, None, None;
      opens, live := 0, 0;
    }

    /**
     * The rest of `__init__`: raise ENOENT, opening nothing, when no regular
     * file is at the path; otherwise open it, record its size and put the
     * cursor at its end.
     */
    method Initialise(path: string, f: File) returns (r: Outcome<Error>)
      requires Valid()
      modifies this
      ensures Valid()
      ensures r == if IsFile(f) then Pass else Fail(NotFound)
      ensures !IsFile(f) ==> filepath == old(filepath) && handle == old(handle) && size == old(size) && currentState == old(currentState)
      ensures !IsFile(f) ==> opens == old(opens) && live == old(live)
      ensures IsFile(f) ==> filepath == Some(path) && Following() && View() == Opened(f, true)
      ensures IsFile(f) ==> currentState == Some(|f.data|) && opens == old(opens) + 1 && live == old(live) + 1
    {
      if !IsFile(f) {
        return Fail(NotFound);
      }
      filepath := Some(path);
      r := OpenHandle(f);
      handle := Some(handle.value.(cursor := |f.data|));
    }

    /**
     * `open_handle`: open the file (raising ENOENT, changing nothing, when it
     * is absent) with the cursor at byte 0 (there is no seek here), and
     * record its size.
     */
    method OpenHandle(f: File) returns (r: Outcome<Error>)
      requires Valid() && filepath.Some?
      modifies this
      ensures Valid() && filepath == old(filepath)
      ensures r == if IsFile(f) then Pass else Fail(NotFound)
      ensures !IsFile(f) ==> handle == old(handle) && size == old(size) && currentState == old(currentState)
      ensures !IsFile(f) ==> opens == old(opens) && live == old(live)
      ensures IsFile(f) ==> Following() && View() == Opened(f, false) && currentState == Some(|f.data|)
      ensures IsFile(f) ==> opens == old(opens) + 1 && live == old(live) + 1
    {
      if !IsFile(f) {
        return Fail(NotFound);
      }
      handle := Some(Handle(0, true));
      opens, live := opens + 1, live + 1;
      currentState := Some(Stat(f).value);
      size := currentState;
      r := Pass;
    }

    /** `reopen_handle`: close the old handle before opening the file again, cursor at byte 0. */
    method ReopenHandle(f: File) returns (r: Outcome<Error>)
      requires Valid() && filepath.Some? && handle.Some?
      modifies this
      ensures Valid() && filepath == old(filepath)
      ensures r == if IsFile(f) then Pass else Fail(NotFound)
      ensures IsFile(f) ==> Following() && View() == Opened(f, false) && currentState == Some(|f.data|)
      ensures IsFile(f) ==> opens == old(opens) + 1 && live == old(live) - (if old(handle).value.isOpen then 1 else 0) + 1
      ensures !IsFile(f) ==> handle == Some(old(handle).value.(isOpen := false)) && size == old(size) && currentState == old(currentState)
      ensures !IsFile(f) ==> opens == old(opens) && live == old(live) - (if old(handle).value.isOpen then 1 else 0)
    {
      if handle.value.isOpen {
        live := live - 1;
      }
      handle := Some(handle.value.(isOpen := false));
      r := OpenHandle(f);
    }

    /**
     * `truncated_check`: stat the file into `current_state` (raising,
     * changing nothing, when it is gone); reopen when the recorded size is
     * strictly greater than the size seen, otherwise only record that size.
     */
    method TruncatedCheck(f: File) returns (r: Outcome<Error>)
      requires Valid() && Following()
      modifies this
      ensures Valid() && filepath == old(filepath) && live == old(live)
      ensures r == if IsFile(f) then Pass else Fail(NotFound)
      ensures !IsFile(f) ==> handle == old(handle) && size == old(size) && currentState == old(currentState) && opens == old(opens)
      ensures IsFile(f) ==> Following() && View() == Checked(old(View()), f) && currentState == Some(|f.data|)
      ensures IsFile(f) && Truncated(old(View()), f) ==> handle == Some(Handle(0, true)) && opens == old(opens) + 1
      ensures IsFile(f) && !Truncated(old(View()), f) ==> handle == old(handle) && opens == old(opens)
    {
      var stat := Stat(f);
      if stat.Err? {
        return Fail(stat.error);
      }
      currentState := Some(stat.value);
      if size.value > currentState.value {
        r := ReopenHandle(f);
      } else {
        size := currentState;
        r := Pass;
      }
    }

    /** `handle.readline()`: the line at the cursor, which moves past it. */
    method ReadLine(f: File) returns (line: string)
      requires handle.Some? && handle.value.isOpen
      modifies this
      ensures line == LineAt(f.data, old(handle).value.cursor)
      ensures handle == Some(old(handle).value.(cursor := old(handle).value.cursor + |line|))
      ensures filepath == old(filepath) && size == old(size) && currentState == old(currentState)
      ensures opens == old(opens) && live == old(live)
    {
      line := ReadLineFrom(f.data, handle.value.cursor);
      handle := Some(handle.value.(cursor := handle.value.cursor + |line|));
    }

    /**
     * One cycle of `__iter__`: the truncation check, then one `readline()`;
     * the stripped line is yielded when the read returned something, and
     * `None` stands for the one-second sleep otherwise.
     */
    method Step(f: File) returns (r: Result<Option<string>, Error>)
      requires Valid() && Following()
      modifies this
      ensures Valid() && filepath == old(filepath) && live == old(live)
      ensures Cycle(old(View()), f).Err? ==> r == Err(NotFound) && handle == old(handle) && size == old(size) && opens == old(opens)
      ensures Cycle(old(View()), f).Err? ==> currentState == old(currentState)
      ensures Cycle(old(View()), f).Ok? ==> var c := Cycle(old(View()), f).value;
        r == Ok(Yield(c.raw)) && Following() && View() == c.next
        && opens == old(opens) + (if c.reopened then 1 else 0)
    {
      var checked := TruncatedCheck(f);
      if checked.Fail? {
        return Err(checked.error);
      }
      var line := ReadLine(f);
      assert Consistent(View());
      if line != [] {
        r := Ok(Some(Strip(line)));
      } else {
        r := Ok(None);
      }
    }

    /**
     * `__iter__` over the states `fs` the file passes through: no open and
     * no seek, just one cycle per state from where the constructor left the
     * cursor, ending at the first error.
     */
    method Iterate(fs: seq<File>) returns (out: seq<Option<string>>, err: Option<Error>)
      requires Valid() && Following()
      modifies this
      ensures Valid() && Following() && filepath == old(filepath) && live == old(live)
      ensures var t := Run(old(View()), fs);
        out == t.outputs && err == t.error && View() == t.last && opens == old(opens) + t.reopens
    {
      ghost var s0 := View();
      ghost var read: string := [];
      ghost var reopens := 0;
      out, err := [], None;
      var i := 0;
      while i < |fs|
        invariant 0 <= i <= |fs|
        invariant Valid() && Following() && filepath == old(filepath) && live == old(live)
        invariant Run(s0, fs[..i]) == Trace(View(), out, read, reopens, None)
        invariant opens == old(opens) + reopens
      {
        ghost var before := View();
        RunNextCycle(s0, fs, i);
        var r := Step(fs[i]);
        if r.Err? {
          err := Some(r.error);
          RunStopsAtError(s0, fs, i + 1);
          return;
        }
        var c := Cycle(before, fs[i]).value;
        out := out + [r.value];
        read := read + c.raw;
        reopens := reopens + (if c.reopened then 1 else 0);
        i := i + 1;
      }
      assert fs[..i] == fs;
    }

    /** `__del__`: close the handle only when there is one; after a failed construction there is none, and nothing happens. */
    method Del()
      requires Valid()
      modifies this
      ensures Valid()
      ensures old(handle).None? ==> handle == None && live == old(live)
      ensures old(handle).Some? ==> handle == Some(old(handle).value.(isOpen := false))
      ensures old(handle).Some? ==> live == old(live) - (if old(handle).value.isOpen then 1 else 0)
      ensures filepath == old(filepath) && size == old(size) && currentState == old(currentState) && opens == old(opens)
    {
      if handle.Some? {
        if handle.value.isOpen {
          live := live - 1;
        }
        handle := Some(handle.value.(isOpen := false));
      }
    }
  }

  /**
   * `SimpleTailer(filepath)`: a new follower that, when construction raises
   * ENOENT, holds no handle, so its teardown closes nothing; otherwise one
   * handle is open with the cursor at the end of the file.
   */
  method Construct(path: string, f: File) returns (t: SimpleTailer, r: Outcome<Error>)
    ensures fresh(t) && t.Valid()
    ensures r == if IsFile(f) then Pass else Fail(NotFound)
    ensures !IsFile(f) ==> t.handle == None && t.live == 0 && t.opens == 0
    ensures IsFile(f) ==> t.Following() && t.View() == Opened(f, true) && t.filepath == Some(path)
    ensures IsFile(f) ==> t.currentState == Some(|f.data|) && t.live == 1 && t.opens == 1
  {
    t := new SimpleTailer();
    r := t.Initialise(path, f);
  }
}
