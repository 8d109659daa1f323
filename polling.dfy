/**
 * One poll cycle of the follower, stated on values: the truncation check,
 * then one `readline()`, then what the cycle outputs. Both tailer classes are
 * proved to change their state exactly as these functions say, and the
 * lemmas here are what follows for the lines a follower delivers.
 */
module Polling {
  import opened Wrappers
  import opened Environment
  import opened Text

  /** A follower with an open handle: the handle's read cursor and the file size it last recorded. */
  datatype Follow = Follow(cursor: nat, size: nat)

  /** What one cycle did: the state after it, the raw line `readline()` returned, and whether it reopened the file. */
  datatype Cycled = Cycled(next: Follow, raw: string, reopened: bool)

  /**
   * Several cycles: the state after the last, what each cycle yielded
   * (`None` for an idle cycle that sleeps), every raw line read, one after
   * the other, how many cycles reopened the file, and the error that ended
   * the run early, if one did.
   */
  datatype Trace = Trace(last: Follow, outputs: seq<Option<string>>, read: string, reopens: nat, error: Option<Error>)

  /** The read cursor is never beyond the recorded size. */
  predicate Consistent(s: Follow) {
    s.cursor <= s.size
  }

  /** The state right after the file is opened and its size recorded, with the cursor at the start or, on request, at the end. */
  function Opened(f: File, seekToEnd: bool): (r: Follow)
    ensures r.size == |f.data| && Consistent(r)
    ensures r.cursor == (if seekToEnd then r.size else 0)
  {
    Follow(if seekToEnd then |f.data| else 0, |f.data|)
  }

  /** The size heuristic: the file counts as truncated when it is now strictly shorter than the recorded size. */
  predicate Truncated(s: Follow, f: File) {
    s.size > |f.data|
  }

  /** `truncated_check` on a file that exists: reopen without seeking when truncated, otherwise record the new size. */
  function Checked(s: Follow, f: File): (r: Follow)
    ensures r.size == |f.data| && r.cursor <= s.cursor
    ensures Consistent(s) ==> Consistent(r)
    ensures r.cursor == s.cursor <==> !Truncated(s, f) || s.cursor == 0
  {
    if Truncated(s, f) then Opened(f, false) else Follow(s.cursor, |f.data|)
  }

  /** What a cycle hands to the consumer: the stripped line when `readline()` returned something, nothing otherwise. */
  function Yield(raw: string): (r: Option<string>)
    ensures r.Some? <==> raw != []
    ensures r.Some? ==> |r.value| <= |raw|
  {
    if raw != [] then Some(Strip(raw)) else None
  }

  /** One cycle of `__iter__` against the file as it is now. */
  function Cycle(s: Follow, f: File): (r: Result<Cycled, Error>)
    ensures r.Err? <==> !IsFile(f)
    ensures r.Ok? ==> r.value.next.size == |f.data|
    ensures r.Ok? ==> (r.value.reopened <==> Truncated(s, f))
    ensures r.Ok? && Consistent(s) ==> Consistent(r.value.next)
    ensures r.Ok? && r.value.raw == [] ==> r.value.next == Checked(s, f)
  {
    if !IsFile(f) then Err(NotFound)
    else
      var t := Checked(s, f);
      var raw := LineAt(f.data, t.cursor);
      Ok(Cycled(Follow(t.cursor + |raw|, t.size), raw, Truncated(s, f)))
  }

  /** One more cycle after a run: nothing, once the run has failed. */
  function Extend(t: Trace, f: File): Trace {
    if t.error.Some? then t
    else match Cycle(t.last, f)
      case Err(e) => t.(error := Some(e))
      case Ok(c) => Trace(c.next, t.outputs + [Yield(c.raw)], t.read + c.raw,
                          t.reopens + (if c.reopened then 1 else 0), None)
  }

  /**
   * The cycles run against successive states of the file, one cycle per
   * state; the first error (the file vanished) ends the run.
   */
  function Run(s: Follow, fs: seq<File>): (t: Trace)
    ensures t.reopens <= |t.outputs|
    ensures if t.error.None? then |t.outputs| == |fs| else |t.outputs| < |fs|
    ensures Consistent(s) ==> Consistent(t.last)
    decreases |fs|
  {
    if fs == [] then Trace(s, [], [], 0, None) else Extend(Run(s, fs[..|fs| - 1]), fs[|fs| - 1])
  }

  /**
   * A run fails exactly when some state has no file at the path, and then at
   * the first such state, after one output for each state before it.
   */
  lemma {:induction false} RunFailsAtFirstMissing(s: Follow, fs: seq<File>)
    ensures var t := Run(s, fs);
      (t.error.None? <==> forall i :: 0 <= i < |fs| ==> IsFile(fs[i]))
      && (t.error.Some? ==> !IsFile(fs[|t.outputs|]) && forall i :: 0 <= i < |t.outputs| ==> IsFile(fs[i]))
    decreases |fs|
  {
    if fs != [] {
      var init, f := fs[..|fs| - 1], fs[|fs| - 1];
      RunFailsAtFirstMissing(s, init);
      var t0 := Run(s, init);
      assert forall i :: 0 <= i < |init| ==> init[i] == fs[i];
      if t0.error.None? {
        assert |t0.outputs| == |init|;
        if !IsFile(f) {
          assert Run(s, fs) == t0.(error := Some(NotFound));
        } else {
          assert Run(s, fs).error.None?;
        }
      }
    }
  }

  /** Once a run has failed, later file states change nothing: the error ends the iteration. */
  lemma {:induction false} RunStopsAtError(s: Follow, fs: seq<File>, i: nat)
    requires i <= |fs|
    requires Run(s, fs[..i]).error.Some?
    ensures Run(s, fs) == Run(s, fs[..i])
    decreases |fs| - i
  {
    if i < |fs| {
      assert fs[..i + 1][..i] == fs[..i];
      RunStopsAtError(s, fs, i + 1);
    } else {
      assert fs[..i] == fs;
    }
  }

  /** Running one more cycle extends the run by exactly that cycle. */
  lemma RunSnoc(s: Follow, fs: seq<File>, f: File)
    ensures Run(s, fs + [f]) == Extend(Run(s, fs), f)
  {
    assert (fs + [f])[..|fs + [f]| - 1] == fs;
  }

  /** The run over the first `i + 1` states is the run over the first `i`, extended by the next state. */
  lemma RunNext(s: Follow, fs: seq<File>, i: nat)
    requires i < |fs|
    ensures Run(s, fs[..i + 1]) == Extend(Run(s, fs[..i]), fs[i])
  {
    assert fs[..i + 1][..i] == fs[..i];
  }

  /** The run over the first `i + 1` states, by what the cycle on state `i` does. */
  lemma RunNextCycle(s: Follow, fs: seq<File>, i: nat)
    requires i < |fs| && Run(s, fs[..i]).error.None?
    ensures var t, c := Run(s, fs[..i]), Cycle(Run(s, fs[..i]).last, fs[i]);
      (c.Err? ==> Run(s, fs[..i + 1]) == t.(error := Some(c.error)))
      && (c.Ok? ==> Run(s, fs[..i + 1]) == Trace(c.value.next, t.outputs + [Yield(c.value.raw)], t.read + c.value.raw,
                                                    t.reopens + (if c.value.reopened then 1 else 0), None))
  {
    RunNext(s, fs, i);
  }

  /** The raw line decides what a cycle outputs: a stripped line exactly when it is non-empty; a bare "\n" outputs "". */
  lemma YieldIffLineRead(raw: string)
    ensures Yield(raw).Some? <==> raw != []
    ensures raw != [] ==> Yield(raw) == Some(Strip(raw))
    ensures raw == ['\n'] ==> Yield(raw) == Some([])
  {
    StripBareNewline();
  }

  /** An idle cycle (no line to read) outputs nothing and leaves the cursor where the check put it. */
  lemma IdleCycleKeepsCursor(s: Follow, f: File)
    requires IsFile(f) && !Truncated(s, f) && s.cursor >= |f.data|
    ensures Cycle(s, f) == Ok(Cycled(Follow(s.cursor, |f.data|), [], false))
    ensures Yield(Cycle(s, f).value.raw) == None
  {
  }

  /** Growth or equal size is never taken for truncation: the cursor carries on and only the size is updated. */
  lemma GrowthKeepsCursor(s: Follow, f: File)
    requires IsFile(f) && s.size <= |f.data|
    ensures Checked(s, f) == Follow(s.cursor, |f.data|)
    ensures Cycle(s, f) == Ok(Cycled(Follow(s.cursor + |LineAt(f.data, s.cursor)|, |f.data|), LineAt(f.data, s.cursor), false))
  {
  }

  /** On truncation the file is read again from byte 0: the first line of the new contents comes next. */
  lemma TruncationRestartsAtZero(s: Follow, f: File)
    requires IsFile(f) && Truncated(s, f)
    ensures Checked(s, f) == Follow(0, |f.data|)
    ensures Cycle(s, f) == Ok(Cycled(Follow(|LineAt(f.data, 0)|, |f.data|), LineAt(f.data, 0), true))
  {
  }

  /**
   * A line `l + "\n"` appended while the follower sits at the end of the
   * file is yielded, stripped, by the next cycle, and the cursor moves past it.
   */
  lemma AppendedLineIsYielded(s: Follow, f: File, l: string)
    requires IsFile(f) && NoNewline(l)
    requires s.cursor == |f.data| && s.size <= |f.data|
    ensures var g := Append(f, l + ['\n']);
      Cycle(s, g) == Ok(Cycled(Follow(|f.data| + |l| + 1, |g.data|), l + ['\n'], false))
      && Yield(Cycle(s, g).value.raw) == Some(Strip(l))
  {
    var g := Append(f, l + ['\n']);
    var line := l + ['\n'];
    assert g.data == f.data + l + ['\n'] + [];
    LineAtCompleteLine(f.data, l, []);
    assert Checked(s, g) == Follow(|f.data|, |g.data|);
    assert Cycle(s, g) == Ok(Cycled(Follow(|f.data| + |line|, |g.data|), line, false));
    StripDropsNewline(l);
    assert Yield(line) == Some(Strip(l));
  }

  /**
   * The file is truncated to nothing and a line `l + "\n"` shorter than the
   * recorded size is written: the next cycle reopens and delivers that line
   * from byte 0.
   */
  lemma RewrittenLineIsYielded(s: Follow, f: File, l: string)
    requires IsFile(f) && NoNewline(l) && s.size > |l| + 1
    ensures var g := Append(Truncate(f, 0), l + ['\n']);
      Cycle(s, g) == Ok(Cycled(Follow(|l| + 1, |l| + 1), l + ['\n'], true))
      && Yield(Cycle(s, g).value.raw) == Some(Strip(l))
  {
    var g := Append(Truncate(f, 0), l + ['\n']);
    assert g.data == [] + l + ['\n'] + [];
    LineAtCompleteLine([], l, []);
    StripDropsNewline(l);
  }

  /**
   * `readline()` does not wait for a '\n': text appended without one is read
   * and yielded at once as a line of its own, and the cursor reaches the end.
   */
  lemma PartialLineIsYielded(s: Follow, f: File, l: string)
    requires IsFile(f) && NoNewline(l) && l != []
    requires s.cursor == |f.data| && s.size <= |f.data|
    ensures var g := Append(f, l);
      Cycle(s, g) == Ok(Cycled(Follow(|g.data|, |g.data|), l, false))
      && Yield(Cycle(s, g).value.raw) == Some(Strip(l))
  {
    LineAtPartialLine(f.data, l);
  }

  /**
   * The size heuristic's blind spot: contents replaced by anything at least
   * as long as the recorded size are not noticed, and in the model reading
   * simply goes on from the old cursor in the new contents (the model has no
   * read-ahead buffer holding lines of the old contents).
   */
  lemma ReplacementAtLeastAsLongIsMissed(s: Follow, g: string)
    requires |g| >= s.size
    ensures Cycle(s, Overwrite(g)).value.reopened == false
    ensures Cycle(s, Overwrite(g)).value.raw == LineAt(g, s.cursor)
  {
  }

  /** Each state of the file extends the one before it: the writers only append. */
  predicate Grows(fs: seq<File>) {
    forall i :: 0 < i < |fs| ==> fs[i - 1].data <= fs[i].data
  }

  /** One cycle on grown contents: no reopen, and the line read continues the text read so far. */
  lemma GrowthStep(c0: nat, t: Trace, f: File)
    requires IsFile(f) && t.error.None?
    requires c0 <= t.last.cursor <= t.last.size <= |f.data| && t.read == f.data[c0..t.last.cursor]
    ensures var u := Extend(t, f);
      u.error.None? && u.reopens == t.reopens
      && c0 <= u.last.cursor <= u.last.size == |f.data| && u.read == f.data[c0..u.last.cursor]
  {
    var k := t.last.cursor;
    var raw := LineAt(f.data, k);
    assert Cycle(t.last, f) == Ok(Cycled(Follow(k + |raw|, |f.data|), raw, false));
    if k < |f.data| {
      LineAtShape(f.data, k);
    }
    assert f.data[c0..k] + f.data[k..k + |raw|] == f.data[c0..k + |raw|];
  }

  /** Text read from an earlier state of the file is the same stretch of any later, grown state. */
  lemma PrefixSlice(e: string, d: string, c0: nat, k: nat)
    requires e <= d && c0 <= k <= |e|
    ensures e[c0..k] == d[c0..k]
  {
  }

  /**
   * While the file only grows, no cycle reopens it, and everything read over
   * the cycles is exactly the file's text from the starting cursor to the
   * final cursor: in order, nothing skipped, nothing read twice.
   */
  lemma {:induction false} GrowthReadsForward(s: Follow, fs: seq<File>)
    requires Consistent(s) && |fs| > 0 && Grows(fs)
    requires forall i :: 0 <= i < |fs| ==> IsFile(fs[i])
    requires s.size <= |fs[0].data|
    ensures var t := Run(s, fs);
      t.error.None? && t.reopens == 0
      && s.cursor <= t.last.cursor <= t.last.size == |fs[|fs| - 1].data|
      && t.read == fs[|fs| - 1].data[s.cursor..t.last.cursor]
    decreases |fs|
  {
    var n := |fs|;
    var init := fs[..n - 1];
    assert init + [fs[n - 1]] == fs;
    RunSnoc(s, init, fs[n - 1]);
    if n == 1 {
      assert fs[0].data[s.cursor..s.cursor] == [];
      GrowthStep(s.cursor, Run(s, []), fs[0]);
    } else {
      GrowsInit(fs);
      GrowthReadsForward(s, init);
      var t := Run(s, init);
      PrefixSlice(fs[n - 2].data, fs[n - 1].data, s.cursor, t.last.cursor);
      GrowthStep(s.cursor, t, fs[n - 1]);
    }
  }

  /**
   * Without the growth-only restriction `ExistingLinesNeverRead` fails: opened
   * at the end of `l + "\n" + rest`, a follower that sees the file truncated
   * to `l + "\n"` reopens and yields `strip(l)`, from a line that was there at
   * opening (for instance "a" from "a\nb\n" truncated to "a\n").
   */
  lemma TruncationRereadsExistingLine(l: string, rest: string)
    requires NoNewline(l) && rest != []
    ensures var f0, f1 := File(true, l + ['\n'] + rest), File(true, l + ['\n']);
      var t := Run(Opened(f0, true), [f1]);
      t.outputs == [Some(Strip(l))] && t.reopens == 1 && t.read == l + ['\n'] && t.read <= f0.data
  {
    var f0, f1 := File(true, l + ['\n'] + rest), File(true, l + ['\n']);
    var s := Opened(f0, true);
    var line := l + ['\n'];
    assert LineAt(f1.data, 0) == line by {
      LineAtCompleteLine([], l, []);
      assert [] + l + ['\n'] + [] == f1.data;
    }
    TruncationRestartsAtZero(s, f1);
    StripDropsNewline(l);
    RunSnoc(s, [], f1);
    assert [] + [f1] == [f1];
    assert Run(s, [f1]) == Trace(Follow(|line|, |line|), [Yield(line)], line, 1, None);
    assert line <= f0.data by {
      assert f0.data == line + rest;
    }
  }

  /** Dropping the last state keeps the others growing and existing. */
  lemma GrowsInit(fs: seq<File>)
    requires |fs| > 1 && Grows(fs)
    requires forall i :: 0 <= i < |fs| ==> IsFile(fs[i])
    ensures var init := fs[..|fs| - 1];
      Grows(init) && init[0] == fs[0] && init[|init| - 1] == fs[|fs| - 2]
      && forall i :: 0 <= i < |init| ==> IsFile(init[i])
  {
    var init := fs[..|fs| - 1];
    forall i | 0 < i < |init| ensures init[i - 1].data <= init[i].data {
      assert init[i - 1] == fs[i - 1] && init[i] == fs[i];
    }
  }

  /**
   * Opened at the end of the file, then following appends only: every
   * character read lies after what the file held at opening, so lines that
   * were already there are never yielded.
   */
  lemma ExistingLinesNeverRead(f0: File, fs: seq<File>)
    requires IsFile(f0) && |fs| > 0 && Grows([f0] + fs)
    requires forall i :: 0 <= i < |fs| ==> IsFile(fs[i])
    ensures var t := Run(Opened(f0, true), fs);
      t.reopens == 0 && |f0.data| <= t.last.cursor <= |fs[|fs| - 1].data|
      && t.read == fs[|fs| - 1].data[|f0.data|..t.last.cursor]
  {
    assert Grows(fs) by {
      forall i | 0 < i < |fs| ensures fs[i - 1].data <= fs[i].data {
        assert ([f0] + fs)[i] == fs[i - 1] && ([f0] + fs)[i + 1] == fs[i];
      }
    }
    assert ([f0] + fs)[0] == f0 && ([f0] + fs)[1] == fs[0];
    GrowthReadsForward(Opened(f0, true), fs);
  }
}
