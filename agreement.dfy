/** Clients of the two followers: what a consumer sees, proved from their contracts alone. */
module Agreement {
  import opened Wrappers
  import opened Environment
  import opened Polling
  import opened Text
  import Tailer
  import LegacyTailer

  /**
   * The two variants deliver the same lines: the newer one opens and seeks
   * to the end when iteration starts, the older one in its constructor, and
   * the older `__iter__` carries on from there. They differ only in when a
   * missing file is reported: at construction, or when iteration starts.
   */
  method BothVariantsAgree(path: string, f0: File, fs: seq<File>)
    returns (lazyOut: seq<Option<string>>, lazyErr: Option<Error>,
             eagerInit: Outcome<Error>, eagerOut: seq<Option<string>>, eagerErr: Option<Error>)
    ensures IsFile(f0) ==> eagerInit == Pass && lazyOut == eagerOut && lazyErr == eagerErr
    ensures !IsFile(f0) ==> eagerInit == Fail(NotFound) && lazyOut == [] && lazyErr == Some(NotFound)
  {
    var lazy := new Tailer.SimpleTailer(path, None, "latin-1");
    lazyOut, lazyErr := lazy.Iterate(f0, fs);
    var eager;
    eager, eagerInit := LegacyTailer.Construct(path, f0);
    eagerOut, eagerErr := [], None;
    if eagerInit.Pass? {
      eagerOut, eagerErr := eager.Iterate(fs);
    }
  }

  /**
   * A follower started on `f0` sees a line appended, then the file truncated
   * and rewritten with a shorter line, then no change: it yields the first
   * line, then the second (read from byte 0 after reopening), then nothing;
   * it opened two handles in all, one of which is still open.
   */
  method AppendThenTruncate(path: string, f0: File, l1: string, l2: string)
    returns (t: Tailer.SimpleTailer, out: seq<Option<string>>)
    requires IsFile(f0) && NoNewline(l1) && NoNewline(l2)
    requires |l2| < |f0.data| + |l1|
    ensures out == [Some(Strip(l1)), Some(Strip(l2)), None]
    ensures t.live == 1 && t.opens == 2
  {
    t := new Tailer.SimpleTailer(path, None, "latin-1");
    var f1 := Append(f0, l1 + ['\n']);
    var f2 := Append(Truncate(f1, 0), l2 + ['\n']);
    var fs := [f1, f2, f2];
    var s0 := Opened(f0, true);
    AppendedLineIsYielded(s0, f0, l1);
    var s1 := Cycle(s0, f1).value.next;
    RewrittenLineIsYielded(s1, f1, l2);
    var s2 := Cycle(s1, f2).value.next;
    IdleCycleKeepsCursor(s2, f2);
    RunSnoc(s0, [], f1);
    RunSnoc(s0, [f1], f2);
    RunSnoc(s0, [f1, f2], f2);
    assert [] + [f1] == [f1] && [f1] + [f2] == [f1, f2] && [f1, f2] + [f2] == fs;
    var err;
    out, err := t.Iterate(f0, fs);
  }
}
