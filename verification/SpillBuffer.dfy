/**
  The spill buffer: bytes stay in memory up to a size, then move to a file. With a working file
  system it cannot be told from a plain bounded buffer, which is defined here too.
 */
module SpillBuffers {
  import opened Results
  import opened Bytes
  import opened Sequences

  datatype SpillError = BufferFull | OpenFailed | WriteFailed | CloseFailed | RemoveFailed

  /** The count and the error that a write returns. */
  datatype WriteResult = WriteResult(n: nat, err: Option<SpillError>)

  /** A plain buffer that refuses what would make it larger than `max`. */
  function PlainWrite(content: bytes, data: bytes, max: int): (r: (bytes, WriteResult))
  {
    if |content| + |data| > max then (content, WriteResult(0, Some(BufferFull)))
    else (content + data, WriteResult(|data|, None))
  }

  /** A write to a file: all of it, or only its first bytes and an error. */
  datatype FileWrite = Complete | Broken(written: nat)

  /** What the file system does during one write to the buffer, if it is asked. */
  datatype Files = Files(opens: bool, flush: FileWrite, write: FileWrite)

  const WORKING := Files(true, Complete, Complete)

  function Written(w: FileWrite, data: bytes): (r: bytes)
  {
    if w.Broken? && w.written < |data| then data[..w.written] else data
  }

  /** The buffer's fields; the file is its content on disk. */
  datatype Spill = Spill(
    buffer: bytes, file: Option<bytes>, size: int, maxMemorySize: int, maxBufferSize: int)

  function NewSpill(maxMemorySize: int, maxBufferSize: int): (s: Spill)
  {
    Spill([], None, 0, maxMemorySize, maxBufferSize)
  }

  /** What a reader returns. */
  function Content(s: Spill): (b: bytes)
  {
    if s.file.None? then s.buffer else s.file.value
  }

  /** Appends to the file; the size grows only when the whole write succeeds. */
  function WriteFile(s: Spill, data: bytes, w: FileWrite): (r: (Spill, WriteResult))
    requires s.file.Some?
  {
    var after := s.(file := Some(s.file.value + Written(w, data)));
    if w.Broken? then (after, WriteResult(|Written(w, data)|, Some(WriteFailed)))
    else (after.(size := s.size + |data|), WriteResult(|data|, None))
  }

  function SpillWrite(s: Spill, data: bytes, files: Files): (r: (Spill, WriteResult))
  {
    if s.size + |data| > s.maxBufferSize then (s, WriteResult(0, Some(BufferFull)))
    else if s.file.Some? then WriteFile(s, data, files.write)
    else if |s.buffer| + |data| <= s.maxMemorySize then
      (s.(buffer := s.buffer + data, size := s.size + |data|), WriteResult(|data|, None))
    else if !files.opens then (s, WriteResult(0, Some(OpenFailed)))
    else
      var spilled := s.(file := Some(Written(files.flush, s.buffer)));
      if files.flush.Broken? then (spilled, WriteResult(0, Some(WriteFailed)))
      else WriteFile(spilled.(buffer := []), data, files.write)
  }

  /** What the file system does when a spilled buffer is closed; a file that is gone already counts as removed. */
  datatype Closing = Removed | NotClosed | NotRemoved

  /** Closing forgets the file unless it cannot be closed, and nothing else. */
  function CloseSpill(s: Spill, closing: Closing): (r: (Spill, Option<SpillError>))
  {
    if s.file.None? then (s, None)
    else match closing
      case Removed => (s.(file := None), None)
      case NotClosed => (s, Some(CloseFailed))
      case NotRemoved => (s.(file := None), Some(RemoveFailed))
  }

  class SpillBuffer {
    var buffer: bytes
    var file: Option<bytes>
    var size: int
    const maxMemorySize: int
    const maxBufferSize: int

    ghost function View(): (s: Spill)
      reads this
    {
      Spill(buffer, file, size, maxMemorySize, maxBufferSize)
    }

    constructor (maxMemorySize: int, maxBufferSize: int)
      ensures View() == NewSpill(maxMemorySize, maxBufferSize)
    {
      buffer, file, size := [], None, 0;
      this.maxMemorySize, this.maxBufferSize := maxMemorySize, maxBufferSize;
    }

    method Size() returns (n: int)
      ensures n == View().size
    {
      n := size;
    }

    method Reader(opens: bool) returns (r: Result<bytes, SpillError>)
      ensures r == if file.Some? && !opens then Err(OpenFailed) else Ok(Content(View()))
    {
      if file.None? {
        return Ok(buffer);
      }
      if !opens {
        return Err(OpenFailed);
      }
      return Ok(file.value);
    }

    method Write(data: bytes, files: Files) returns (r: WriteResult)
      modifies this
      ensures (View(), r) == SpillWrite(old(View()), data, files)
    {
      if size + |data| > maxBufferSize {
        return WriteResult(0, Some(BufferFull));
      }
      if file.None? {
        if |buffer| + |data| <= maxMemorySize {
          buffer := buffer + data;
          size := size + |data|;
          return WriteResult(|data|, None);
        }
        if !files.opens {
          return WriteResult(0, Some(OpenFailed));
        }
        file := Some(Written(files.flush, buffer));
        if files.flush.Broken? {
          return WriteResult(0, Some(WriteFailed));
        }
        buffer := [];
      }
      file := Some(file.value + Written(files.write, data));
      if files.write.Broken? {
        return WriteResult(|Written(files.write, data)|, Some(WriteFailed));
      }
      size := size + |data|;
      return WriteResult(|data|, None);
    }

    method Close(closing: Closing) returns (err: Option<SpillError>)
      modifies this
      ensures (View(), err) == CloseSpill(old(View()), closing)
    {
      if file.Some? {
        if closing.NotClosed? {
          return Some(CloseFailed);
        }
        file := None;
        if closing.NotRemoved? {
          return Some(RemoveFailed);
        }
      }
      return None;
    }
  }

  /** The buffer's size is that of its content, and nothing stays in memory behind a file. */
  predicate Sound(s: Spill)
  {
    s.size == |Content(s)| && (s.file.Some? ==> s.buffer == [])
  }

  /** A write that meets no fault of the file system. */
  predicate NoFault(s: Spill, data: bytes, files: Files)
  {
    || s.size + |data| > s.maxBufferSize
    || (s.file.None? && |s.buffer| + |data| <= s.maxMemorySize)
    || (files.write.Complete? && (s.file.Some? || (files.opens && files.flush.Complete?)))
  }

  /** A write agrees with the plain buffer exactly when it meets no fault. */
  lemma WriteIsPlain(s: Spill, data: bytes, files: Files)
    requires Sound(s)
    ensures var (after, r) := SpillWrite(s, data, files);
            (Content(after), r) == PlainWrite(Content(s), data, s.maxBufferSize) <==> NoFault(s, data, files)
    ensures NoFault(s, data, files) ==> Sound(SpillWrite(s, data, files).0)
  {
  }

  /** A refused write and a failed open change nothing. */
  lemma RefusalsChangeNothing(s: Spill, data: bytes, files: Files)
    ensures var (after, r) := SpillWrite(s, data, files);
            r.err == Some(BufferFull) || r.err == Some(OpenFailed) ==> after == s && r.n == 0
  {
  }

  /**
    A broken write behind an opened file leaves what the disk took: the size then falls behind the
    content by the bytes that were written in part, so the buffer stays sound only if there were none.
   */
  lemma BrokenWrite(s: Spill, data: bytes, files: Files)
    requires Sound(s) && s.file.Some? && files.write.Broken? && s.size + |data| <= s.maxBufferSize
    ensures var (after, r) := SpillWrite(s, data, files);
            && Content(after) == Content(s) + Written(files.write, data)
            && r == WriteResult(|Written(files.write, data)|, Some(WriteFailed))
            && after.size == |Content(after)| - r.n
            && (Sound(after) <==> r.n == 0)
  {
  }

  /** A broken flush loses what the disk did not take, although the memory still holds it. */
  lemma BrokenFlush(s: Spill, data: bytes, files: Files)
    requires Sound(s) && s.file.None? && files.opens && files.flush.Broken?
    requires |s.buffer| + |data| > s.maxMemorySize && s.size + |data| <= s.maxBufferSize
    ensures var after := SpillWrite(s, data, files).0;
            && Content(after) == Written(files.flush, Content(s))
            && (Content(after) == Content(s) <==> files.flush.written >= |Content(s)|)
  {
  }

  function RunSpill(s: Spill, writes: seq<bytes>): (r: (Spill, seq<WriteResult>))
    decreases |writes|
  {
    if writes == [] then (s, [])
    else
      var (next, r) := SpillWrite(s, writes[0], WORKING);
      var (end, rs) := RunSpill(next, writes[1..]);
      (end, [r] + rs)
  }

  function RunPlain(content: bytes, writes: seq<bytes>, max: int): (r: (bytes, seq<WriteResult>))
    decreases |writes|
  {
    if writes == [] then (content, [])
    else
      var (next, r) := PlainWrite(content, writes[0], max);
      var (end, rs) := RunPlain(next, writes[1..], max);
      (end, [r] + rs)
  }

  lemma {:induction false} RunIsPlain(s: Spill, writes: seq<bytes>)
    requires Sound(s)
    ensures var (end, rs) := RunSpill(s, writes);
            Sound(end) && (Content(end), rs) == RunPlain(Content(s), writes, s.maxBufferSize)
    decreases |writes|
  {
    if writes != [] {
      WriteIsPlain(s, writes[0], WORKING);
      RunIsPlain(SpillWrite(s, writes[0], WORKING).0, writes[1..]);
    }
  }

  lemma {:induction false} PlainStaysBounded(content: bytes, writes: seq<bytes>, max: int)
    requires |content| <= max
    ensures |RunPlain(content, writes, max).0| <= max
    decreases |writes|
  {
    if writes != [] {
      PlainStaysBounded(PlainWrite(content, writes[0], max).0, writes[1..], max);
    }
  }

  /**
    Transparency: with a working file system, any sequence of writes gives the results and the
    content of the plain buffer, whatever the memory size is; the size is that of the content, and
    never exceeds the maximum.
   */
  lemma Transparency(maxMemorySize: int, maxBufferSize: nat, writes: seq<bytes>)
    ensures var (end, rs) := RunSpill(NewSpill(maxMemorySize, maxBufferSize), writes);
            && (Content(end), rs) == RunPlain([], writes, maxBufferSize)
            && end.size == |Content(end)| <= maxBufferSize
  {
    RunIsPlain(NewSpill(maxMemorySize, maxBufferSize), writes);
    PlainStaysBounded([], writes, maxBufferSize);
  }

  /** Closing keeps the buffer sound exactly when nothing has gone to a file, or only nothing has, or it fails. */
  lemma CloseKeepsSound(s: Spill, closing: Closing)
    requires Sound(s)
    ensures Sound(CloseSpill(s, closing).0) <==> s.file.None? || s.size == 0 || closing.NotClosed?
  {
  }

  /** Each failure of closing is reported, exactly when there is a file to close; only an open file keeps its content. */
  lemma {:induction false} CloseReports(s: Spill, closing: Closing)
    ensures var (after, err) := CloseSpill(s, closing);
            && (err == None <==> s.file.None? || closing.Removed?)
            && (err == Some(CloseFailed) <==> s.file.Some? && closing.NotClosed?)
            && (err == Some(RemoveFailed) <==> s.file.Some? && closing.NotRemoved?)
            && (after.file.Some? <==> err == Some(CloseFailed))
            && Content(after) == if s.file.None? || closing.NotClosed? then Content(s) else s.buffer
  {
  }

  /** A write, and what the file system does during it. */
  type FaultyWrite = (bytes, Files)

  function RunFaulty(s: Spill, ws: seq<FaultyWrite>): (r: (Spill, seq<WriteResult>))
    ensures |r.1| == |ws|
    decreases |ws|
  {
    if ws == [] then (s, [])
    else
      var (next, r) := SpillWrite(s, ws[0].0, ws[0].1);
      var (end, rs) := RunFaulty(next, ws[1..]);
      (end, [r] + rs)
  }

  /** A write that opens the file, and does not get what the memory holds into it. */
  predicate FlushBreaks(s: Spill, w: FaultyWrite)
  {
    && s.size + |w.0| <= s.maxBufferSize && s.file.None? && |s.buffer| + |w.0| > s.maxMemorySize
    && w.1.opens && w.1.flush.Broken?
  }

  /** A fault with a lasting effect: bytes that stay in memory behind a file, or that the size leaves out. */
  predicate Damages(s: Spill, w: FaultyWrite)
  {
    var r := SpillWrite(s, w.0, w.1).1;
    (FlushBreaks(s, w) && s.buffer != []) || (r.err == Some(WriteFailed) && r.n > 0)
  }

  predicate Unharmed(s: Spill, ws: seq<FaultyWrite>)
    decreases |ws|
  {
    ws == [] || (!Damages(s, ws[0]) && Unharmed(SpillWrite(s, ws[0].0, ws[0].1).0, ws[1..]))
  }

  predicate NoFlushBreaks(s: Spill, ws: seq<FaultyWrite>)
    decreases |ws|
  {
    ws == [] || (!FlushBreaks(s, ws[0]) && NoFlushBreaks(SpillWrite(s, ws[0].0, ws[0].1).0, ws[1..]))
  }

  /** The bytes of a write that its result counts. */
  function Counted(w: FaultyWrite, r: WriteResult): (b: bytes)
  {
    if r.n <= |w.0| then w.0[..r.n] else w.0
  }

  function AllCounted(ws: seq<FaultyWrite>, rs: seq<WriteResult>): (b: bytes)
    requires |ws| == |rs|
  {
    if ws == [] then [] else Counted(ws[0], rs[0]) + AllCounted(ws[1..], rs[1..])
  }

  /** The bytes of the writes that succeeded. */
  function Succeeded(ws: seq<FaultyWrite>, rs: seq<WriteResult>): (n: nat)
    requires |ws| == |rs|
  {
    if ws == [] then 0 else (if rs[0].err.None? then |ws[0].0| else 0) + Succeeded(ws[1..], rs[1..])
  }

  /** What one write does to content and size, whatever happens to it and whatever happened before. */
  lemma WriteEffect(s: Spill, w: FaultyWrite)
    ensures var (after, r) := SpillWrite(s, w.0, w.1);
            && after.size == s.size + (if r.err.None? then |w.0| else 0)
            && Content(after) == (if FlushBreaks(s, w) then Written(w.1.flush, Content(s)) else Content(s) + Counted(w, r))
            && (s.file.Some? || FlushBreaks(s, w) ==> after.file.Some?)
            && (FlushBreaks(s, w) ==> r.n == 0)
  {
    assert Content(s) + [] == Content(s);
  }

  /**
    The end of any run: the size is the bytes of the writes that succeeded, and unless a flush broke, the
    content is exactly the bytes that the results count.
   */
  lemma {:induction false} FaultyRun(s: Spill, ws: seq<FaultyWrite>)
    ensures var (end, rs) := RunFaulty(s, ws);
            && end.size == s.size + Succeeded(ws, rs)
            && (NoFlushBreaks(s, ws) ==> Content(end) == Content(s) + AllCounted(ws, rs))
    decreases |ws|
  {
    if ws == [] {
      assert Content(s) + [] == Content(s);
    } else {
      var (next, r) := SpillWrite(s, ws[0].0, ws[0].1);
      WriteEffect(s, ws[0]);
      FaultyRun(next, ws[1..]);
      var rs := RunFaulty(next, ws[1..]).1;
      assert ([r] + rs)[1..] == rs;
      assert Content(s) + Counted(ws[0], r) + AllCounted(ws[1..], rs)
          == Content(s) + (Counted(ws[0], r) + AllCounted(ws[1..], rs));
    }
  }

  /** Behind a file no flush is tried again. */
  lemma {:induction false} NoFlushBehindFile(s: Spill, ws: seq<FaultyWrite>)
    requires s.file.Some?
    ensures NoFlushBreaks(s, ws) && RunFaulty(s, ws).0.file.Some?
    decreases |ws|
  {
    if ws != [] {
      WriteEffect(s, ws[0]);
      NoFlushBehindFile(SpillWrite(s, ws[0].0, ws[0].1).0, ws[1..]);
    }
  }

  lemma {:induction false} NoFlushBefore(s: Spill, ws: seq<FaultyWrite>)
    requires RunFaulty(s, ws).0.file.None?
    ensures NoFlushBreaks(s, ws)
    decreases |ws|
  {
    if ws != [] {
      var next := SpillWrite(s, ws[0].0, ws[0].1).0;
      WriteEffect(s, ws[0]);
      if next.file.Some? {
        NoFlushBehindFile(next, ws[1..]);
      }
      NoFlushBefore(next, ws[1..]);
    }
  }

  lemma {:induction false} RunInTurn(s: Spill, a: seq<FaultyWrite>, b: seq<FaultyWrite>)
    ensures var (middle, rs) := RunFaulty(s, a);
            RunFaulty(s, a + b) == (RunFaulty(middle, b).0, rs + RunFaulty(middle, b).1)
    decreases |a|
  {
    if a == [] {
      assert a + b == b && [] + RunFaulty(s, b).1 == RunFaulty(s, b).1;
    } else {
      assert (a + b)[1..] == a[1..] + b;
      var (next, r) := SpillWrite(s, a[0].0, a[0].1);
      RunInTurn(next, a[1..], b);
      var (middle, rs) := RunFaulty(next, a[1..]);
      Associative([r], rs, RunFaulty(middle, b).1);
    }
  }

  /**
    A run in which a flush breaks: the content is what the disk took of all that was counted until then,
    and what was counted afterwards.
   */
  lemma {:induction false} BrokenFlushRun(s: Spill, before: seq<FaultyWrite>, w: FaultyWrite, after: seq<FaultyWrite>)
    requires FlushBreaks(RunFaulty(s, before).0, w)
    ensures var (there, rs) := RunFaulty(s, before);
            var next := SpillWrite(there, w.0, w.1).0;
            Content(RunFaulty(s, before + ([w] + after)).0)
            == Written(w.1.flush, Content(s) + AllCounted(before, rs)) + AllCounted(after, RunFaulty(next, after).1)
  {
    var there := RunFaulty(s, before).0;
    NoFlushBefore(s, before);
    FaultyRun(s, before);
    WriteEffect(there, w);
    var next := SpillWrite(there, w.0, w.1).0;
    NoFlushBehindFile(next, after);
    FaultyRun(next, after);
    RunInTurn(s, before, [w] + after);
    assert ([w] + after)[0] == w && ([w] + after)[1..] == after;
  }

  /** A buffer that a fault has damaged: no later write can make it sound again. */
  predicate Harmed(s: Spill)
  {
    s.file.Some? && (s.buffer != [] || |Content(s)| > s.size)
  }

  lemma {:induction false} HarmStays(s: Spill, ws: seq<FaultyWrite>)
    requires Harmed(s)
    ensures Harmed(RunFaulty(s, ws).0)
    decreases |ws|
  {
    if ws != [] {
      WriteEffect(s, ws[0]);
      HarmStays(SpillWrite(s, ws[0].0, ws[0].1).0, ws[1..]);
    }
  }

  lemma DamageHarms(s: Spill, w: FaultyWrite)
    requires Sound(s)
    ensures if Damages(s, w) then Harmed(SpillWrite(s, w.0, w.1).0) else Sound(SpillWrite(s, w.0, w.1).0)
  {
    WriteEffect(s, w);
  }

  /** Over any run, the buffer stays sound if and only if no write or flush broke with a lasting effect. */
  lemma {:induction false} SoundRun(s: Spill, ws: seq<FaultyWrite>)
    requires Sound(s)
    ensures Sound(RunFaulty(s, ws).0) <==> Unharmed(s, ws)
    decreases |ws|
  {
    if ws != [] {
      var next := SpillWrite(s, ws[0].0, ws[0].1).0;
      DamageHarms(s, ws[0]);
      if Damages(s, ws[0]) {
        HarmStays(next, ws[1..]);
      } else {
        SoundRun(next, ws[1..]);
      }
    }
  }
}
