# SimpleTailer, modelled in Dafny

`SimpleTailer` follows a text file like `tail -f`. It opens the file, moves to
its end and then polls forever. Each poll cycle first runs a truncation check:
when the size recorded at the last check is strictly greater than the file's
size now, the file is taken to have been truncated, so the handle is closed and
the file reopened without seeking (the cursor starts at byte 0). Otherwise only
the recorded size is updated. The cycle then reads one line from the cursor and
yields it with surrounding whitespace stripped, or sleeps for a second when
nothing was read.

There are two variants, and both are modelled:

- **`simpletailer/__init__.py`** (module `Tailer`). This is the newer, lazy
  variant. Construction records the path and the encoding and nothing else.
  The file is opened, sized and seeked to its end only when iteration starts,
  and a missing file is reported then.
- **`__init__.py`** (module `LegacyTailer`). This is the older, eager variant.
  The constructor checks that the path is a regular file, opens it, records
  its size and seeks to the end. Iteration then polls from there without
  opening or seeking again.

The modules are:

- `Environment`: the file system as the follower sees it.
  - A `File` is a "regular file is here" flag plus its characters.
  - `IsFile` is `os.path.isfile` and `file_exists`.
  - `Stat` is `os.stat(path).st_size` and `current_handle_size`. It fails when
    no regular file is at the path.
  - `Append`, `Truncate` and `Overwrite` are the writers other processes
    perform.
  - `LineAt` and `ReadLineFrom` are what `readline()` returns from a cursor.
- `Text`: Python's `str.strip()`, with Python's set of whitespace characters.
- `Polling`: one poll cycle stated on values.
  - `Cycle` is the value-level cycle.
  - `Run` runs one cycle per successive state of the file and stops at the
    first error.
  - The lemmas say which lines a follower delivers.
- `Tailer` and `LegacyTailer`: the two classes. Their fields are updated in
  place, like the source's attributes. Two ghost counters make the handle's
  lifecycle visible:
  - `opens` counts the handles opened so far;
  - `live` counts the handles opened and not yet closed.

  Each method's ensures give its new state; `Step`, `Poll` and `Iterate`
  match `Polling.Cycle` and `Polling.Run` exactly.
- `Agreement`: clients of both classes, proved from the class contracts alone.
  - The two variants deliver the same lines and differ only in when a missing
    file is reported.
  - A concrete append-then-truncate scenario yields exactly the expected lines.

The environment is passed in explicitly. Each method that touches the file
takes the `File` as it is at the moment of the call. The infinite `__iter__`
generator becomes `Iterate`, which runs over a finite sequence of successive
file states, one poll cycle per state. An idle cycle, the one that sleeps in
the source, outputs `None`.

## Model

| member | source | states |
|---|---|---|
| Environment.IsFile | simpletailer/__init__.py:102-107 | `file_exists` is true exactly when a stat of the path succeeds, that is when a regular file is there. Otherwise it is false and raises nothing. |
| Environment.Stat | simpletailer/__init__.py:97-100 | `current_handle_size` is the file's size when a regular file is at the path. Otherwise `os.stat` raises ENOENT. |
| Environment.LineAt | simpletailer/__init__.py:80 | `readline()` returns "" exactly when the cursor is at or past the end of the file. Otherwise the line it returns lies within the file. |
| Environment.LineAtShape | simpletailer/__init__.py:80 | The line read at a cursor before the end is the file's text from that cursor on. It holds no '\n' except possibly its last character, and it ends at a '\n' or at the end of the file. |
| Environment.ReadLineFrom | simpletailer/__init__.py:80 | The scan forward from the cursor to the next '\n' or the end returns exactly the line `LineAt` describes. |
| Environment.ScanEnds | simpletailer/__init__.py:80 | A scan that meets no '\n' before index i, and stops at a '\n' or the end, has read exactly one line: up to and including that '\n', or the rest of the file. |
| Environment.LineAtCompleteLine | simpletailer/__init__.py:80 | When a complete line `l + "\n"` (with no '\n' in `l`) starts at the cursor, `readline()` returns exactly it, whatever follows. |
| Environment.LineAtPartialLine | simpletailer/__init__.py:80 | Text without a '\n' at the end of the file is returned whole, as a partial line, without waiting for a terminator. |
| Text.Strip | simpletailer/__init__.py:83 | `line.strip()` never lengthens a line; `Text.StripShape` characterises it fully. |
| Text.LeadShape | simpletailer/__init__.py:83 | The leading whitespace `strip()` removes is all whitespace. It is either the whole string or followed by a non-space character. |
| Text.TrailShape | simpletailer/__init__.py:83 | The trailing whitespace `strip()` removes is all whitespace. It is either the whole string or preceded by a non-space character. |
| Text.StripShape | simpletailer/__init__.py:83 | `strip()` returns "" exactly when the line is all whitespace. Otherwise its result is the slice of the line between the leading and trailing whitespace, and that result starts and ends with non-space characters. |
| Text.StripEnds | simpletailer/__init__.py:83 | A non-empty stripped line neither starts nor ends with whitespace. |
| Text.StripSlices | simpletailer/__init__.py:83 | The stripped line is the line with only whitespace cut from its two ends. |
| Text.StripDropsNewline | simpletailer/__init__.py:83 | Stripping a line with its terminator gives the same result as stripping the line without it. |
| Text.LeadIgnoresTail | simpletailer/__init__.py:83 | Appending any character to a line that is not all whitespace leaves its leading whitespace unchanged. |
| Text.StripBareNewline | simpletailer/__init__.py:83 | A bare "\n" strips to "". |
| Polling.Opened | simpletailer/__init__.py:36-40 | Right after opening, the recorded size is the file's size and the cursor is at 0, or at the end when seeking there; either way the cursor is within the size. |
| Polling.Checked | simpletailer/__init__.py:59-68 | The check records the current size and never moves the cursor forward. It keeps the cursor within the size, and it leaves the cursor in place exactly when it did not reopen, or when the cursor was already at 0. |
| Polling.Yield | simpletailer/__init__.py:82-86 | A cycle outputs something exactly when the raw line is non-empty, and what it outputs is never longer than the raw line. |
| Polling.Cycle | simpletailer/__init__.py:77-86 | A cycle fails exactly when no regular file is at the path. After a successful cycle, the recorded size is the size seen by the check, the cycle reopened exactly when the file had shrunk, and the cursor is still within the recorded size. When nothing was read, the state is the one the check left. |
| Polling.Run | simpletailer/__init__.py:77-86 | A run yields one output per file state, and strictly fewer when it ended in an error. It never reopens more often than it cycled, and it keeps the cursor within the recorded size. |
| Polling.RunFailsAtFirstMissing | simpletailer/__init__.py:97-100 | A run fails exactly when some state has no file at the path, and then at the first such state. Every state before that one produced an output. |
| Polling.RunStopsAtError | simpletailer/__init__.py:79 | Once a cycle has raised, later file states change nothing: the error ends the iteration. |
| Polling.RunSnoc | simpletailer/__init__.py:77 | Running one more cycle extends the run by exactly that cycle. |
| Polling.RunNext | simpletailer/__init__.py:77 | The run over the first i+1 states is the run over the first i states, extended by one cycle on state i. |
| Polling.RunNextCycle | simpletailer/__init__.py:77-86 | When the run so far has not failed, one more state either ends it with the cycle's error, keeping what was output, or appends exactly that cycle's output, raw line and reopen to the run. |
| Polling.YieldIffLineRead | simpletailer/__init__.py:80-86 | A cycle outputs a line exactly when `readline()` returned a non-empty string, and that line is the stripped raw line. A bare "\n" outputs "". |
| Polling.IdleCycleKeepsCursor | simpletailer/__init__.py:82-86 | When there is nothing to read and no truncation, a cycle outputs nothing, does not reopen, and leaves the cursor where it was. |
| Polling.GrowthKeepsCursor | simpletailer/__init__.py:65-68 | When the file has grown or kept its size, the check only records the new size. It does not reopen, and the cycle reads on from the same cursor. |
| Polling.TruncationRestartsAtZero | simpletailer/__init__.py:45-51 | When the file has shrunk, the check reopens with the cursor at 0 and records the current size, and the cycle reads the new contents' first line. |
| Polling.AppendedLineIsYielded | simpletailer/__init__.py:75-83 | A line `l + "\n"` appended while the follower sits at the end is yielded by the next cycle as `strip(l)`, with no reopen, and the cursor moves forward by the length of `l` plus one. |
| Polling.RewrittenLineIsYielded | simpletailer/__init__.py:65-66 | When the file is truncated to nothing and a line shorter than the recorded size is written, the next cycle reopens and yields that line, stripped, from byte 0. |
| Polling.PartialLineIsYielded | simpletailer/__init__.py:80-83 | Text appended without a '\n' is yielded at once, stripped, and the cursor reaches the end of the file. |
| Polling.ReplacementAtLeastAsLongIsMissed | simpletailer/__init__.py:65 | Contents replaced by text at least as long as the recorded size are not taken for a truncation, and reading simply goes on from the old cursor. |
| Polling.GrowthStep | simpletailer/__init__.py:65-68 | One cycle on a grown file does not reopen, and the line it reads continues exactly the text read so far. |
| Polling.GrowthReadsForward | simpletailer/__init__.py:77-83 | While the file only grows, no cycle reopens it. Everything read is the file's text from the starting cursor to the final cursor, in order, with nothing skipped and nothing read twice. |
| Polling.ExistingLinesNeverRead | simpletailer/__init__.py:36-40 | Opened at the end and then following appends only, every character read lies after what the file held at opening. Lines already in the file are never yielded. The growth-only restriction is necessary: `Polling.TruncationRereadsExistingLine` shows a truncation that makes an existing line be yielded. |
| Polling.TruncationRereadsExistingLine | simpletailer/__init__.py:65-66 | Opened at the end of `l + "\n" + rest`, a follower that sees the file truncated to `l + "\n"` reopens once and yields `strip(l)`, read from a line that was already in the file at opening. |
| Tailer.SimpleTailer.constructor | simpletailer/__init__.py:24-26 | Construction records the path and the encoding (`encoding or preferred`, so "" also falls back to the preferred encoding). It opens no handle and records no size. |
| Tailer.SimpleTailer.Open | simpletailer/__init__.py:28-40 | When no regular file is at the path, Open raises ENOENT and changes nothing. Otherwise it opens one fresh handle, records the file's size, and puts the cursor at 0, or at the end on request. |
| Tailer.SimpleTailer.Close | simpletailer/__init__.py:42-43 | Close closes the held handle and changes nothing else. |
| Tailer.SimpleTailer.Reopen | simpletailer/__init__.py:45-51 | Reopen closes the handle first, then opens the file again without seeking: cursor 0 and the current size. The number of live handles stays the same. |
| Tailer.SimpleTailer.SeekToEnd | simpletailer/__init__.py:53-57 | SeekToEnd moves the cursor to the end of the file and changes nothing else. |
| Tailer.SimpleTailer.TruncatedCheck | simpletailer/__init__.py:59-68 | When the file has shrunk below the recorded size, the check reopens, with cursor 0 and exactly one more handle opened. Otherwise it only records the size, with the same handle. Either way the recorded size becomes the size seen, and the number of live handles is unchanged. A stat on a missing file raises and changes nothing. |
| Tailer.SimpleTailer.ReadLine | simpletailer/__init__.py:80 | ReadLine returns the line at the cursor and moves the cursor past it. |
| Tailer.SimpleTailer.Step | simpletailer/__init__.py:77-86 | One cycle moves the state exactly as `Polling.Cycle` says, yields the stripped line when one was read, and otherwise yields nothing. Exactly one more handle is opened when it reopened. |
| Tailer.SimpleTailer.Iterate | simpletailer/__init__.py:70-86 | Iterate raises ENOENT, having done nothing, when the file is absent. Otherwise it opens at the end and its outputs, error, final state and reopen count are those of `Polling.Run`, with one more handle live. |
| Tailer.SimpleTailer.Poll | simpletailer/__init__.py:77-86 | The polling loop, one cycle per file state from the current cursor, produces exactly the outputs, error, final state and reopen count of `Polling.Run` from that state, and keeps the number of live handles. |
| LegacyTailer.SimpleTailer.constructor | __init__.py:26 | The object starts with no handle, no path, no size and no stat result. |
| LegacyTailer.SimpleTailer.Initialise | __init__.py:27-32 | When no regular file is at the path, Initialise raises ENOENT and opens nothing. Otherwise it records the path, opens the file, records its size and puts the cursor at its end. On the ENOENT branch the stat result is unchanged too. |
| LegacyTailer.SimpleTailer.OpenHandle | __init__.py:34-40 | OpenHandle opens one fresh handle with the cursor at 0 (there is no seek) and records the current size and the stat result. |
| LegacyTailer.SimpleTailer.ReopenHandle | __init__.py:42-48 | ReopenHandle closes the old handle before opening the new one, with cursor 0; the number of live handles then stays the same. When the file is gone, the old handle is closed and the recorded size and the stat result are unchanged. |
| LegacyTailer.SimpleTailer.TruncatedCheck | __init__.py:50-60 | The check stores the stat result. It reopens exactly when the recorded size is strictly greater than the size seen; otherwise it only records that size. |
| LegacyTailer.SimpleTailer.ReadLine | __init__.py:66 | ReadLine returns the line at the cursor and moves the cursor past it. |
| LegacyTailer.SimpleTailer.Step | __init__.py:63-72 | One cycle moves the state exactly as `Polling.Cycle` says, and yields the stripped line exactly when one was read. The stored stat result then equals the recorded size, the size this cycle saw; when the stat raises, it is unchanged. |
| LegacyTailer.SimpleTailer.Iterate | __init__.py:62-74 | Iterate neither opens nor seeks: it continues from the current cursor. Its outputs, error, final state and reopen count are those of `Polling.Run` from that state, and the stored stat result still equals the recorded size. |
| LegacyTailer.SimpleTailer.Del | __init__.py:79-81 | Teardown closes the handle only when there is one, and leaves the path, the recorded size, the stat result and the open count unchanged. Without a handle it changes nothing. |
| LegacyTailer.Construct | __init__.py:22-32 | When construction raises ENOENT, the object holds no handle and no handle is live, so teardown closes nothing. Otherwise exactly one handle is open, with the cursor at the end of the file, and the stored stat result and the recorded size are the file's size. |
| Agreement.BothVariantsAgree | __init__.py:62-74 | On an existing file, the eager and lazy variants deliver the same outputs and end in the same error. On a missing file, the eager variant fails at construction and the lazy one fails when iteration starts, having output nothing. |
| Agreement.AppendThenTruncate | simpletailer/__init__.py:59-86 | A line appended, then the file truncated and rewritten with a shorter line, then no change: the follower yields the first line stripped, then the second line stripped (read from byte 0), then nothing. It has opened two handles in all, and exactly one is still open. |

## Left out

- The one-second `time.sleep`: an idle cycle outputs `None`. Wall-clock timing is not modelled.
- The `KeyboardInterrupt` handler: it is a bare re-raise.
- Encodings: `locale.getpreferredencoding()` and decoding are not modelled. The preferred encoding is a constructor parameter. One character stands for one byte, so `st_size` is the number of characters and a seek to the end is the character count.
- Files holding '\r': they are outside the model. With universal newline translation the text handle turns "\r\n" and "\r" into "\n", so it delivers fewer characters than `st_size` counts, and the size test would then compare two different measures. For example, a follower sits at the end of "a\r\nb\r\n" (6 bytes), and the file is rewritten in place to "wxyz\n" (5 bytes). The source sees 6 > 5, reopens and yields "wxyz". A model that took the translated text "a\nb\n" (4 characters) would not reopen and would yield "". In the model every character is one byte, and '\n' is the only line terminator.
- ENOENT's path and message payload: the error is the single value `NotFound`, since the path is always the follower's own.
- A directory or other non-regular object at the path: it is treated as absent. In the source, `os.stat` on a directory succeeds while `os.path.isfile` fails.
- The race between `open` and `stat` (the file changing between the two calls), and concurrent writers within one cycle: each call sees one file state.
- The older `Iterate` on an object whose construction raised: Python hands no such object to its caller, so `LegacyTailer.SimpleTailer.Iterate` requires a follower that was constructed successfully.
- `SimpleTailer.__del__` of the newer variant: it would raise `AttributeError` when iteration never started, and garbage-collection timing is not modelled. The empty `__exit__` of both variants is left out too.
- The infinite generator: `Iterate` runs over a finite sequence of file states, one cycle each. A second `__iter__` on the same newer follower opens a second handle without closing the first; `Open` shows this through `live`, but no lemma is stated about it.
- Inode or rename based rotation: the source does not detect it. `Polling.ReplacementAtLeastAsLongIsMissed` is the in-place counterpart of that blind spot, not the rotation case itself.
- Handle identity: a handle reads the file currently at the path, and the writers `Append`, `Truncate` and `Overwrite` act in place. After a rename or a delete-and-recreate, the source's open handle goes on reading the old file until a size drop triggers a reopen; the model instead reads the new file's text from the old cursor.
- Other I/O errors (a file that cannot be read, a failing stat or read): the model's file is always readable, and every stat of an existing file succeeds. In the source these errors propagate uncaught out of the generator.
- `example/app.py`: a print loop that drives the follower.
- Closing the handle when the generator is closed: neither variant closes the handle then; it stays open until teardown.
- Read-ahead buffering of the text handle: `readline()` is served from a decoded chunk of up to 8 KiB, so after an undetected in-place rewrite lines of the old contents still in that chunk are delivered, and the operating system's file offset can lie past the line cursor. The model reads every line directly from the file as it is at the call. Append-only growth and a detected truncation, which opens a new handle, are not affected; `Polling.ReplacementAtLeastAsLongIsMissed` describes the model, not the buffered reads.
