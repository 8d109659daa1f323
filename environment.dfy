/**
 * The file system as a follower sees it: the one file at the followed path,
 * the read handles opened on it, and what `readline` returns from a cursor.
 * Characters stand for bytes (a one-byte-per-character encoding), so the
 * file's size is its number of characters. Files holding '\r' are outside
 * the model: there universal newline translation makes the text handle
 * deliver fewer characters than the file has bytes.
 */
module Environment {
  import opened Wrappers

  /** The file at the followed path: whether a regular file is there and, if so, its contents. */
  datatype File = File(isFile: bool, data: string)

  /** The error the follower raises for a missing file: errno ENOENT. */
  datatype Error = NotFound

  /** A read handle on the file: its read cursor and whether it is still open. */
  datatype Handle = Handle(cursor: nat, isOpen: bool)

  /**
   * `os.path.isfile(path)`, the follower's `file_exists`: true exactly when
   * `os.stat` on the path succeeds, false (never raising) otherwise.
   */
  predicate IsFile(f: File): (b: bool)
    ensures b <==> Stat(f).Ok?
  {
    f.isFile
  }

  /**
   * `os.stat(path).st_size`, the follower's `current_handle_size`: the file's
   * size in bytes, or ENOENT when no regular file is at the path.
   */
  function Stat(f: File): (r: Result<nat, Error>)
    ensures r.Ok? ==> r.value == |f.data|
    ensures r.Err? ==> r.error == NotFound
  {
    if f.isFile then Ok(|f.data|) else Err(NotFound)
  }

  /** A writer appends `s` to the file (creating it when it is absent). */
  function Append(f: File, s: string): File {
    File(true, (if IsFile(f) then f.data else []) + s)
  }

  /** A writer truncates the file to its first `n` characters. */
  function Truncate(f: File, n: nat): File
    requires n <= |f.data|
  {
    File(f.isFile, f.data[..n])
  }

  /** A writer replaces the whole file with `s` (truncate, then write). */
  function Overwrite(s: string): File {
    File(true, s)
  }

  /** True when `s` holds no line terminator. */
  predicate NoNewline(s: string) {
    forall i :: 0 <= i < |s| ==> s[i] != '\n'
  }

  /**
   * What `readline()` returns when the cursor is at `pos`: the characters up
   * to and including the next '\n', or the rest of the file when no '\n'
   * follows, or "" when the cursor is at or past the end.
   */
  function LineAt(data: string, pos: nat): (line: string)
    ensures line == [] <==> pos >= |data|
    ensures pos + |line| <= |data| || line == []
    decreases |data| - pos
  {
    if pos >= |data| then []
    else if data[pos] == '\n' then ['\n']
    else [data[pos]] + LineAt(data, pos + 1)
  }

  /**
   * The line read at `pos` is the file's text from `pos` on; it holds no
   * '\n' but possibly its last character, and it ends at a '\n' or at the
   * end of the file.
   */
  lemma {:induction false} LineAtShape(data: string, pos: nat)
    requires pos < |data|
    ensures var line := LineAt(data, pos);
      line == data[pos..pos + |line|]
      && NoNewline(line[..|line| - 1])
      && (line[|line| - 1] == '\n' || pos + |line| == |data|)
    decreases |data| - pos
  {
    var line := LineAt(data, pos);
    if data[pos] != '\n' && pos + 1 < |data| {
      LineAtShape(data, pos + 1);
      var rest := LineAt(data, pos + 1);
      assert line == [data[pos]] + rest;
      assert data[pos..pos + |line|] == [data[pos]] + data[pos + 1..pos + 1 + |rest|];
      assert line[..|line| - 1] == [data[pos]] + rest[..|rest| - 1];
    }
  }

  /** The scan `readline()` performs: read forward from `pos` until a '\n' or the end. */
  method ReadLineFrom(data: string, pos: nat) returns (line: string)
    ensures line == LineAt(data, pos)
  {
    if pos >= |data| {
      return [];
    }
    var i := pos;
    while i < |data| && data[i] != '\n'
      invariant pos <= i <= |data|
      invariant forall k :: pos <= k < i ==> data[k] != '\n'
    {
      i := i + 1;
    }
    ScanEnds(data, pos, i);
    line := if i < |data| then data[pos..i + 1] else data[pos..];
  }

  /** A scan from `pos` that meets no '\n' before `i`, and stops at a '\n' or the end, has read one line. */
  lemma {:induction false} ScanEnds(data: string, pos: nat, i: nat)
    requires pos <= i <= |data|
    requires forall k :: pos <= k < i ==> data[k] != '\n'
    requires i == |data| || data[i] == '\n'
    ensures LineAt(data, pos) == if i < |data| then data[pos..i + 1] else data[pos..]
    decreases i - pos
  {
    if pos < i {
      ScanEnds(data, pos + 1, i);
      assert data[pos..] == [data[pos]] + data[pos + 1..];
      if i < |data| {
        assert data[pos..i + 1] == [data[pos]] + data[pos + 1..i + 1];
      }
    }
  }

  /** A complete line `l + "\n"` at `pos` is exactly what `readline()` returns there. */
  lemma {:induction false} LineAtCompleteLine(pre: string, l: string, post: string)
    requires NoNewline(l)
    ensures LineAt(pre + l + ['\n'] + post, |pre|) == l + ['\n']
    decreases |l|
  {
    var data := pre + l + ['\n'] + post;
    if l == [] {
      assert data[|pre|] == '\n';
    } else {
      assert data[|pre|] == l[0];
      assert NoNewline(l[1..]);
      LineAtCompleteLine(pre + [l[0]], l[1..], post);
      assert pre + [l[0]] + l[1..] + ['\n'] + post == data;
      assert [l[0]] + (l[1..] + ['\n']) == l + ['\n'];
    }
  }

  /** Text with no '\n' at the end of the file is returned as a partial line, and nothing follows it. */
  lemma {:induction false} LineAtPartialLine(pre: string, l: string)
    requires NoNewline(l)
    ensures LineAt(pre + l, |pre|) == l
    decreases |l|
  {
    if l != [] {
      var data := pre + l;
      assert data[|pre|] == l[0];
      assert NoNewline(l[1..]);
      LineAtPartialLine(pre + [l[0]], l[1..]);
      assert pre + [l[0]] + l[1..] == data;
      assert [l[0]] + l[1..] == l;
    }
  }
}
