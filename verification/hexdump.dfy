/** `print_hexdump`: read the source up to sixteen bytes at a time into one reused
    buffer, write one line per non-empty read, and advance the offset by sixteen
    per line whatever the read's length; stop at the first empty read, and give up
    at the first read or write error.

    `Dump` is the reference semantics of a whole run over the answers the source
    and the sink will give; `PrintHexdump` is the loop itself, proved to follow
    `Dump`; the lemmas say what `Dump` produces in terms of the chunks the source
    yields (`Drain`) and the text those chunks make (`Lines`). */
module Hexdump {
  import opened Hex
  import opened Line
  import opened Stream

  /** A chunk as `gen_info` accepts it: at most sixteen bytes. */
  type Chunk = bytes: seq<byte> | |bytes| <= BYTES_PER_LINE

  /** One line of a dump, before rendering: the chunk and the offset it is
      labelled with. */
  datatype Row = Row(bytes: Chunk, offset: u32)

  /** The text of consecutive rows: each row's line, in order. */
  function Render(rows: seq<Row>): string {
    if |rows| == 0 then ""
    else Render(rows[..|rows| - 1]) + GenInfo(rows[|rows| - 1].bytes, rows[|rows| - 1].offset)
  }

  lemma RenderSnoc(rows: seq<Row>, row: Row)
    ensures Render(rows + [row]) == Render(rows) + GenInfo(row.bytes, row.offset)
  {
    hide GenInfo;
    assert (rows + [row])[..|rows|] == rows;
  }

  /** The text of two runs of rows is the text of the first followed by the text
      of the second. */
  lemma {:induction false} RenderAppend(a: seq<Row>, b: seq<Row>)
    ensures Render(a + b) == Render(a) + Render(b)
    decreases |b|
  {
    if |b| == 0 {
      assert a + b == a;
    } else {
      var front, last := b[..|b| - 1], b[|b| - 1];
      assert a + b == (a + front) + [last];
      assert b == front + [last];
      hide Render, GenInfo;
      RenderAppend(a, front);
      RenderSnoc(a + front, last);
      RenderSnoc(front, last);
      ConcatAssoc(Render(a), Render(front), GenInfo(last.bytes, last.offset));
    }
  }

  lemma RenderCons(row: Row, rows: seq<Row>)
    ensures Render([row] + rows) == GenInfo(row.bytes, row.offset) + Render(rows)
  {
    assert Render([row]) == GenInfo(row.bytes, row.offset);
    hide Render, GenInfo;
    RenderAppend([row], rows);
  }

  /** What a run returns, the rows it wrote, and the answers the source and the
      sink have left afterwards. The text it wrote is `Render(rows)`. */
  datatype Trace = Trace(result: Result<()>, rows: seq<Row>,
                         readsLeft: seq<ReadStep>, writesLeft: seq<WriteStep>)

  /** The number of bytes the rows show. */
  function RowBytes(rows: seq<Row>): nat {
    if |rows| == 0 then 0 else |rows[0].bytes| + RowBytes(rows[1..])
  }

  /** The bytes the rows show, in order. */
  function RowData(rows: seq<Row>): seq<byte> {
    if |rows| == 0 then [] else rows[0].bytes + RowData(rows[1..])
  }

  /** A whole run, starting with the given offset (the running offset is unbounded;
      each line shows it truncated to 32 bits). Every line shows at least one byte,
      and no byte is invented: the number of bytes shown plus the number the source
      still holds is at most the number it held, and exactly that when the run
      succeeds. `DumpShowsSourceBytes` says which bytes. */
  function Dump(readSteps: seq<ReadStep>, writeSteps: seq<WriteStep>, offset: nat): (t: Trace)
    ensures forall k :: 0 <= k < |t.rows| ==> |t.rows[k].bytes| > 0
    ensures RowBytes(t.rows) + TotalBytes(t.readsLeft) <= TotalBytes(readSteps)
    ensures t.result.Ok? ==> RowBytes(t.rows) + TotalBytes(t.readsLeft) == TotalBytes(readSteps)
    decreases TotalBytes(readSteps)
  {
    var next := NextRead(readSteps, BYTES_PER_LINE);
    match next.0
    case Failed(e) => Trace(Err(e), [], next.1, writeSteps)
    case Got(chunk) =>
      if |chunk| == 0 then Trace(Ok(()), [], next.1, writeSteps)
      else
        var answer := NextWrite(writeSteps);
        match answer.0
        case Reject(e) => Trace(Err(e), [], next.1, answer.1)
        case Accept =>
          var t := Dump(next.1, answer.1, offset + BYTES_PER_LINE);
          var rows := [Row(chunk, offset % U32_MODULUS)] + t.rows;
          assert rows[1..] == t.rows;
          t.(rows := rows)
  }

  /** The rows of `t` show the bytes of `readSteps` from the start, in order; when
      `t` succeeds, they and the bytes left are all of them; and at most one chunk
      beyond the rows' bytes has been read. */
  predicate ShowsBytes(t: Trace, readSteps: seq<ReadStep>) {
    RowData(t.rows) <= DataBytes(readSteps) &&
    (t.result.Ok? ==> RowData(t.rows) + DataBytes(t.readsLeft) == DataBytes(readSteps)) &&
    TotalBytes(readSteps) <= RowBytes(t.rows) + TotalBytes(t.readsLeft) + BYTES_PER_LINE
  }

  lemma ShowsBytesNoRows(t: Trace, readSteps: seq<ReadStep>)
    requires t.rows == []
    requires t.result.Ok? ==> DataBytes(t.readsLeft) == DataBytes(readSteps)
    requires TotalBytes(readSteps) <= TotalBytes(t.readsLeft) + BYTES_PER_LINE
    ensures ShowsBytes(t, readSteps)
  {
  }

  lemma ShowsBytesCons(t: Trace, readSteps: seq<ReadStep>, row: Row, readSteps': seq<ReadStep>)
    requires ShowsBytes(t, readSteps')
    requires row.bytes + DataBytes(readSteps') == DataBytes(readSteps)
    requires |row.bytes| + TotalBytes(readSteps') == TotalBytes(readSteps)
    ensures ShowsBytes(t.(rows := [row] + t.rows), readSteps)
  {
    var rows := [row] + t.rows;
    assert rows[1..] == t.rows;
    var chunk, shown := row.bytes, RowData(t.rows);
    assert RowData(rows) == chunk + shown;
    assert (chunk + shown) + DataBytes(t.readsLeft) == chunk + (shown + DataBytes(t.readsLeft));
    assert shown == DataBytes(readSteps')[..|shown|];
    assert (chunk + DataBytes(readSteps'))[..|chunk| + |shown|] == chunk + DataBytes(readSteps')[..|shown|];
  }

  /** The lines of a run show the source's bytes from the start, in order, none
      skipped or invented. A run that succeeds has shown every byte the source
      delivered before its end; any run has read at most one chunk, the one whose
      write the sink rejected, beyond the bytes it shows. */
  lemma {:induction false} DumpShowsSourceBytes(readSteps: seq<ReadStep>, writeSteps: seq<WriteStep>, offset: nat)
    ensures ShowsBytes(Dump(readSteps, writeSteps, offset), readSteps)
    decreases TotalBytes(readSteps)
  {
    var next := NextRead(readSteps, BYTES_PER_LINE);
    var t := Dump(readSteps, writeSteps, offset);
    match next.0 {
      case Failed(e) =>
        assert t == Trace(Err(e), [], next.1, writeSteps);
        hide Dump, ShowsBytes;
        ShowsBytesNoRows(t, readSteps);
      case Got(chunk) =>
        if |chunk| == 0 {
          assert t == Trace(Ok(()), [], next.1, writeSteps);
          assert chunk + DataBytes(next.1) == DataBytes(next.1);
          hide Dump, ShowsBytes;
          ShowsBytesNoRows(t, readSteps);
        } else {
          var answer := NextWrite(writeSteps);
          match answer.0 {
            case Reject(e) =>
              assert t == Trace(Err(e), [], next.1, answer.1);
              hide Dump, ShowsBytes;
              ShowsBytesNoRows(t, readSteps);
            case Accept =>
              var t' := Dump(next.1, answer.1, offset + BYTES_PER_LINE);
              var row := Row(chunk, offset % U32_MODULUS);
              assert t == t'.(rows := [row] + t'.rows);
              hide Dump, ShowsBytes;
              DumpShowsSourceBytes(next.1, answer.1, offset + BYTES_PER_LINE);
              ShowsBytesCons(t', readSteps, row, next.1);
          }
        }
    }
  }

  /** What a source yields when read through a 16-byte buffer until a read
      returns nothing or fails: the chunks, how the reading ended, the answers
      left after the read that ended it, and (`after[k]`) the answers left right
      after the read of chunk k. */
  datatype Source = Source(chunks: seq<Chunk>, end: Result<()>, rest: seq<ReadStep>,
                           after: seq<seq<ReadStep>>)

  /** Every chunk a source yields holds at least one byte. */
  function Drain(readSteps: seq<ReadStep>): (s: Source)
    ensures forall i :: 0 <= i < |s.chunks| ==> |s.chunks[i]| > 0
    ensures |s.after| == |s.chunks|
    decreases TotalBytes(readSteps)
  {
    var next := NextRead(readSteps, BYTES_PER_LINE);
    match next.0
    case Failed(e) => Source([], Err(e), next.1, [])
    case Got(chunk) =>
      if |chunk| == 0 then Source([], Ok(()), next.1, [])
      else
        var s := Drain(next.1);
        s.(chunks := [chunk] + s.chunks, after := [next.1] + s.after)
  }

  /** The answer the sink gives to write number i (from 0). */
  function WriteAt(writeSteps: seq<WriteStep>, i: nat): WriteStep {
    if i < |writeSteps| then writeSteps[i] else Accept
  }

  /** The sink's answers left after k writes. */
  function DropWrites(writeSteps: seq<WriteStep>, k: nat): seq<WriteStep> {
    if k <= |writeSteps| then writeSteps[k..] else []
  }

  predicate AcceptsFirst(writeSteps: seq<WriteStep>, k: nat) {
    forall i :: 0 <= i < k ==> WriteAt(writeSteps, i) == Accept
  }

  /** Row k is chunk k, labelled with offset 16k past `offset` (truncated to 32
      bits), for every row there is. */
  predicate RowsFollow(rows: seq<Row>, chunks: seq<Chunk>, offset: nat) {
    |rows| <= |chunks| &&
    forall k :: 0 <= k < |rows| ==> rows[k] == Row(chunks[k], (offset + BYTES_PER_LINE * k) % U32_MODULUS)
  }

  lemma RowsFollowCons(rows: seq<Row>, chunks: seq<Chunk>, offset: nat, chunk: Chunk)
    requires RowsFollow(rows, chunks, offset + BYTES_PER_LINE)
    ensures RowsFollow([Row(chunk, offset % U32_MODULUS)] + rows, [chunk] + chunks, offset)
  {
    var rows' := [Row(chunk, offset % U32_MODULUS)] + rows;
    forall k | 1 <= k < |rows'|
      ensures rows'[k] == Row(([chunk] + chunks)[k], (offset + BYTES_PER_LINE * k) % U32_MODULUS)
    {
      assert rows'[k] == rows[k - 1];
      assert offset + BYTES_PER_LINE + BYTES_PER_LINE * (k - 1) == offset + BYTES_PER_LINE * k;
    }
  }

  /** After the first write, the sink's answers are the original ones shifted by one. */
  lemma WritesShift(writeSteps: seq<WriteStep>)
    ensures WriteAt(writeSteps, 0) == NextWrite(writeSteps).0
    ensures forall i: nat :: WriteAt(NextWrite(writeSteps).1, i) == WriteAt(writeSteps, i + 1)
    ensures forall k: nat :: DropWrites(NextWrite(writeSteps).1, k) == DropWrites(writeSteps, k + 1)
  {
  }

  lemma AcceptsFirstShift(writeSteps: seq<WriteStep>)
    requires NextWrite(writeSteps).0 == Accept
    ensures forall k: nat :: AcceptsFirst(writeSteps, k + 1) <==> AcceptsFirst(NextWrite(writeSteps).1, k)
  {
    WritesShift(writeSteps);
    forall k: nat
      ensures AcceptsFirst(writeSteps, k + 1) <==> AcceptsFirst(NextWrite(writeSteps).1, k)
    {
      if AcceptsFirst(NextWrite(writeSteps).1, k) {
        forall i | 0 <= i < k + 1
          ensures WriteAt(writeSteps, i) == Accept
        {
          if i > 0 {
            assert WriteAt(NextWrite(writeSteps).1, i - 1) == WriteAt(writeSteps, i);
          }
        }
      }
    }
  }

  /** How the trace `t` of a run from `offset` relates to what its source yields,
      `s`, and to the sink's answers: row k is chunk k, labelled with offset 16k past
      `offset`; the sink accepted every row. If it accepts a line for every chunk,
      the run has one row per chunk, returns how the source ended and leaves the
      answers after the read that ended it and after the last write. Otherwise the
      run stops at the first rejected write with the sink's error, and leaves the
      source's answers right after the read of the rejected line's chunk and the
      sink's answers after that write: nothing more is read or written. */
  predicate Follows(t: Trace, s: Source, writeSteps: seq<WriteStep>, offset: nat) {
    |s.after| == |s.chunks| &&
    RowsFollow(t.rows, s.chunks, offset) &&
    AcceptsFirst(writeSteps, |t.rows|) &&
    if AcceptsFirst(writeSteps, |s.chunks|) then
      |t.rows| == |s.chunks| && t.result == s.end &&
      t.readsLeft == s.rest && t.writesLeft == DropWrites(writeSteps, |t.rows|)
    else
      |t.rows| < |s.chunks| && WriteAt(writeSteps, |t.rows|).Reject? &&
      t.result == Err(WriteAt(writeSteps, |t.rows|).err) &&
      t.readsLeft == s.after[|t.rows|] &&
      t.writesLeft == DropWrites(writeSteps, |t.rows| + 1)
  }

  lemma FollowsAtEnd(t: Trace, s: Source, writeSteps: seq<WriteStep>, offset: nat)
    requires t.rows == [] && s.chunks == [] && s.after == []
    requires t.result == s.end && t.readsLeft == s.rest && t.writesLeft == writeSteps
    ensures Follows(t, s, writeSteps, offset)
  {
    assert DropWrites(writeSteps, 0) == writeSteps;
  }

  lemma FollowsAtRejection(t: Trace, s: Source, writeSteps: seq<WriteStep>, offset: nat)
    requires t.rows == [] && |s.chunks| > 0 && |s.after| == |s.chunks| && t.readsLeft == s.after[0]
    requires NextWrite(writeSteps).0.Reject?
    requires t.result == Err(NextWrite(writeSteps).0.err) && t.writesLeft == NextWrite(writeSteps).1
    ensures Follows(t, s, writeSteps, offset)
  {
    WritesShift(writeSteps);
    assert DropWrites(writeSteps, 1) == NextWrite(writeSteps).1;
    assert !AcceptsFirst(writeSteps, |s.chunks|);
  }

  lemma FollowsCons(t: Trace, s: Source, writeSteps: seq<WriteStep>, offset: nat,
                    chunk: Chunk, left: seq<ReadStep>)
    requires NextWrite(writeSteps).0 == Accept
    requires Follows(t, s, NextWrite(writeSteps).1, offset + BYTES_PER_LINE)
    ensures Follows(t.(rows := [Row(chunk, offset % U32_MODULUS)] + t.rows),
                    s.(chunks := [chunk] + s.chunks, after := [left] + s.after), writeSteps, offset)
  {
    assert ([left] + s.after)[|t.rows| + 1..] == s.after[|t.rows|..];
    WritesShift(writeSteps);
    AcceptsFirstShift(writeSteps);
    RowsFollowCons(t.rows, s.chunks, offset, chunk);
  }

  /** A run writes, in order, one line per chunk the source yields, up to the first
      write the sink rejects; line k shows chunk k at offset 16k past the first
      (truncated to 32 bits), whatever the lengths of the chunks before it. If the
      sink accepts every line, the run reads until the source ends and returns how
      it ended (success at end of stream, the error of a failed read), and reads and
      writes nothing more. Otherwise it stops at the rejected write and returns the
      sink's error; the lines before it are complete and nothing follows them. */
  lemma {:induction false} DumpFollowsSource(readSteps: seq<ReadStep>, writeSteps: seq<WriteStep>, offset: nat)
    ensures Follows(Dump(readSteps, writeSteps, offset), Drain(readSteps), writeSteps, offset)
    decreases TotalBytes(readSteps)
  {
    var next := NextRead(readSteps, BYTES_PER_LINE);
    var t := Dump(readSteps, writeSteps, offset);
    var s := Drain(readSteps);
    match next.0 {
      case Failed(e) =>
        assert t == Trace(Err(e), [], next.1, writeSteps) && s == Source([], Err(e), next.1, []);
        hide Dump, Drain, Follows;
        FollowsAtEnd(t, s, writeSteps, offset);
      case Got(chunk) =>
        if |chunk| == 0 {
          assert t == Trace(Ok(()), [], next.1, writeSteps) && s == Source([], Ok(()), next.1, []);
          hide Dump, Drain, Follows;
          FollowsAtEnd(t, s, writeSteps, offset);
        } else {
          var answer := NextWrite(writeSteps);
          var s' := Drain(next.1);
          assert s == s'.(chunks := [chunk] + s'.chunks, after := [next.1] + s'.after);
          match answer.0 {
            case Reject(e) =>
              assert t == Trace(Err(e), [], next.1, answer.1);
              hide Dump, Drain, Follows;
              FollowsAtRejection(t, s, writeSteps, offset);
            case Accept =>
              var t' := Dump(next.1, answer.1, offset + BYTES_PER_LINE);
              assert t == t'.(rows := [Row(chunk, offset % U32_MODULUS)] + t'.rows);
              hide Dump, Drain, Follows;
              DumpFollowsSource(next.1, answer.1, offset + BYTES_PER_LINE);
              FollowsCons(t', s', writeSteps, offset, chunk, next.1);
          }
        }
    }
  }

  /** The text of consecutive chunks from `offset` on: chunk k's line, labelled
      with offset 16k past `offset` truncated to 32 bits, in order. */
  function Lines(chunks: seq<Chunk>, offset: nat): string
    decreases |chunks|
  {
    if |chunks| == 0 then ""
    else GenInfo(chunks[0], offset % U32_MODULUS) + Lines(chunks[1..], offset + BYTES_PER_LINE)
  }

  lemma RowsFollowTail(rows: seq<Row>, chunks: seq<Chunk>, offset: nat)
    requires |rows| > 0
    requires RowsFollow(rows, chunks, offset)
    ensures rows[0] == Row(chunks[0], offset % U32_MODULUS)
    ensures RowsFollow(rows[1..], chunks[1..], offset + BYTES_PER_LINE)
  {
    forall k | 0 <= k < |rows| - 1
      ensures rows[1..][k] == Row(chunks[1..][k], (offset + BYTES_PER_LINE + BYTES_PER_LINE * k) % U32_MODULUS)
    {
      assert rows[1..][k] == rows[k + 1];
      assert offset + BYTES_PER_LINE * (k + 1) == offset + BYTES_PER_LINE + BYTES_PER_LINE * k;
    }
  }

  lemma RowsFollowPrefix(rows: seq<Row>, chunks: seq<Chunk>, offset: nat)
    requires RowsFollow(rows, chunks, offset)
    ensures RowsFollow(rows, chunks[..|rows|], offset)
  {
  }

  lemma RenderRowsFollowStep(rows: seq<Row>, chunks: seq<Chunk>, offset: nat)
    requires |rows| > 0 && |chunks| > 0 && rows[0] == Row(chunks[0], offset % U32_MODULUS)
    requires Render(rows[1..]) == Lines(chunks[1..], offset + BYTES_PER_LINE)
    ensures Render(rows) == Lines(chunks, offset)
  {
    assert rows == [rows[0]] + rows[1..];
    assert Lines(chunks, offset) == GenInfo(chunks[0], offset % U32_MODULUS) + Lines(chunks[1..], offset + BYTES_PER_LINE);
    hide Render, GenInfo, Lines;
    RenderCons(rows[0], rows[1..]);
  }

  /** Rows that follow the chunks, one row per chunk, render as the lines of
      those chunks. */
  lemma {:induction false} RenderRowsFollow(rows: seq<Row>, chunks: seq<Chunk>, offset: nat)
    requires RowsFollow(rows, chunks, offset) && |rows| == |chunks|
    ensures Render(rows) == Lines(chunks, offset)
    decreases |rows|
  {
    if |rows| > 0 {
      RowsFollowTail(rows, chunks, offset);
      hide Render, Lines, RowsFollow;
      RenderRowsFollow(rows[1..], chunks[1..], offset + BYTES_PER_LINE);
      RenderRowsFollowStep(rows, chunks, offset);
    }
  }

  /** The text of a run: the lines of the chunks the source yields, chunk k
      labelled with offset 16k past the first (truncated to 32 bits), up to the
      first line the sink rejects; every chunk's line when the sink accepts them all.
      `print_hexdump` runs from offset zero. */
  lemma DumpText(readSteps: seq<ReadStep>, writeSteps: seq<WriteStep>, offset: nat)
    ensures var t := Dump(readSteps, writeSteps, offset); var s := Drain(readSteps);
      |t.rows| <= |s.chunks| &&
      Render(t.rows) == Lines(s.chunks[..|t.rows|], offset) &&
      AcceptsFirst(writeSteps, |t.rows|) &&
      (AcceptsFirst(writeSteps, |s.chunks|) ==> Render(t.rows) == Lines(s.chunks, offset)) &&
      (!AcceptsFirst(writeSteps, |s.chunks|) ==>
        WriteAt(writeSteps, |t.rows|).Reject? && t.result == Err(WriteAt(writeSteps, |t.rows|).err))
  {
    var t := Dump(readSteps, writeSteps, offset);
    var s := Drain(readSteps);
    hide Dump, Drain;
    DumpFollowsSource(readSteps, writeSteps, offset);
    assert RowsFollow(t.rows, s.chunks, offset);
    assert AcceptsFirst(writeSteps, |s.chunks|) ==> |t.rows| == |s.chunks|;
    assert AcceptsFirst(writeSteps, |t.rows|);
    assert !AcceptsFirst(writeSteps, |s.chunks|) ==>
      WriteAt(writeSteps, |t.rows|).Reject? && t.result == Err(WriteAt(writeSteps, |t.rows|).err);
    RowsFollowPrefix(t.rows, s.chunks, offset);
    hide Follows, RowsFollow, AcceptsFirst;
    RenderRowsFollow(t.rows, s.chunks[..|t.rows|], offset);
    assert s.chunks[..|s.chunks|] == s.chunks;
  }

  /** The answers of a source made of whole chunks, then `last`, then `more`. */
  function Script(chunks: seq<Chunk>, last: ReadStep, more: seq<ReadStep>): (steps: seq<ReadStep>)
    ensures |steps| == |chunks| + 1 + |more|
  {
    seq(|chunks|, i requires 0 <= i < |chunks| => Data(chunks[i])) + [last] + more
  }

  lemma ScriptTail(chunks: seq<Chunk>, last: ReadStep, more: seq<ReadStep>)
    requires |chunks| > 0
    ensures Script(chunks, last, more)[0] == Data(chunks[0])
    ensures Script(chunks, last, more)[1..] == Script(chunks[1..], last, more)
  {
  }

  /** The answers left after each of the first n answers. */
  function Suffixes(steps: seq<ReadStep>, n: nat): (r: seq<seq<ReadStep>>)
    requires n < |steps|
    ensures |r| == n && forall k :: 0 <= k < n ==> r[k] == steps[k + 1..]
  {
    seq(n, k requires 0 <= k < n => steps[k + 1..])
  }

  lemma SuffixesCons(steps: seq<ReadStep>, n: nat)
    requires n + 1 < |steps|
    ensures [steps[1..]] + Suffixes(steps[1..], n) == Suffixes(steps, n + 1)
  {
    var r := [steps[1..]] + Suffixes(steps[1..], n);
    forall k | 1 <= k < n + 1
      ensures r[k] == steps[k + 1..]
    {
      assert steps[1..][k..] == steps[k + 1..];
    }
  }

  /** A source made of whole chunks of one to sixteen bytes, then an end of stream
      or a failed read, yields exactly those chunks and stops there: chunk k is
      read by answer k alone, and whatever answers come after the first empty or
      failed read are never read. */
  lemma {:induction false} DrainStopsAtFirstEnd(chunks: seq<Chunk>, last: ReadStep, more: seq<ReadStep>)
    requires forall i :: 0 <= i < |chunks| ==> |chunks[i]| > 0
    requires last.EndOfStream? || last.ReadFailure?
    ensures var readSteps := Script(chunks, last, more);
      Drain(readSteps) == Source(chunks, if last.EndOfStream? then Ok(()) else Err(last.err), more,
                                 Suffixes(readSteps, |chunks|))
  {
    var readSteps := Script(chunks, last, more);
    if |chunks| == 0 {
      assert readSteps == [last] + more;
      assert readSteps[1..] == more;
    } else {
      ScriptTail(chunks, last, more);
      var tail := Script(chunks[1..], last, more);
      assert NextRead(readSteps, BYTES_PER_LINE) == (Got(chunks[0]), tail);
      var s := Drain(tail);
      assert Drain(readSteps) == s.(chunks := [chunks[0]] + s.chunks, after := [tail] + s.after);
      hide Drain, NextRead, Script, Suffixes;
      DrainStopsAtFirstEnd(chunks[1..], last, more);
      SuffixesCons(readSteps, |chunks| - 1);
      assert [chunks[0]] + chunks[1..] == chunks;
    }
  }

  /** An empty source: no line, success, and the sink is never written to. */
  lemma DumpOfEmptySource(writeSteps: seq<WriteStep>)
    ensures Dump([], writeSteps, 0) == Trace(Ok(()), [], [], writeSteps)
  {
  }

  /** Twenty bytes in one piece are read as sixteen and then four; the two lines
      carry offsets 0 and 16, and the run succeeds. */
  lemma DumpOfTwentyBytes(data: seq<byte>)
    requires |data| == 20
    ensures Dump([Data(data)], [], 0)
      == Trace(Ok(()), [Row(data[..16], 0), Row(data[16..], 16)], [], [])
  {
    var first := NextRead([Data(data)], BYTES_PER_LINE);
    assert [Data(data)][1..] == [];
    assert [Data(data[16..])] + [] == [Data(data[16..])];
    assert first == (Got(data[..16]), [Data(data[16..])]);
    var second := NextRead(first.1, BYTES_PER_LINE);
    assert second == (Got(data[16..]), []);
    assert Dump([], [], 32) == Trace(Ok(()), [], [], []);
  }

  /** A run that has already written `done` and continues as `t`. */
  function Resume(done: seq<Row>, t: Trace): Trace {
    t.(rows := done + t.rows)
  }

  lemma ResumeNothing(done: seq<Row>, t: Trace)
    requires t.rows == []
    ensures Resume(done, t) == t.(rows := done)
  {
    assert done + [] == done;
  }

  lemma ResumeResume(done: seq<Row>, more: seq<Row>, t: Trace)
    ensures Resume(done, Resume(more, t)) == Resume(done + more, t)
  {
    assert done + (more + t.rows) == (done + more) + t.rows;
  }

  /** The turns of the loop as `Dump` sees them, one lemma per way a turn can go:
      the read fails, the read returns nothing, the write fails, or the line is
      written and the run goes on sixteen further. */
  lemma DumpReadFails(readSteps: seq<ReadStep>, writeSteps: seq<WriteStep>, offset: nat)
    requires NextRead(readSteps, BYTES_PER_LINE).0.Failed?
    ensures Dump(readSteps, writeSteps, offset)
      == Trace(Err(NextRead(readSteps, BYTES_PER_LINE).0.err), [], NextRead(readSteps, BYTES_PER_LINE).1, writeSteps)
  {
  }

  lemma DumpReadsNothing(readSteps: seq<ReadStep>, writeSteps: seq<WriteStep>, offset: nat)
    requires NextRead(readSteps, BYTES_PER_LINE).0 == Got([])
    ensures Dump(readSteps, writeSteps, offset)
      == Trace(Ok(()), [], NextRead(readSteps, BYTES_PER_LINE).1, writeSteps)
  {
  }

  lemma DumpWriteFails(readSteps: seq<ReadStep>, writeSteps: seq<WriteStep>, offset: nat)
    requires NextRead(readSteps, BYTES_PER_LINE).0.Got?
    requires |NextRead(readSteps, BYTES_PER_LINE).0.bytes| > 0
    requires NextWrite(writeSteps).0.Reject?
    ensures Dump(readSteps, writeSteps, offset)
      == Trace(Err(NextWrite(writeSteps).0.err), [], NextRead(readSteps, BYTES_PER_LINE).1, NextWrite(writeSteps).1)
  {
  }

  lemma DumpWritesLine(readSteps: seq<ReadStep>, writeSteps: seq<WriteStep>, offset: nat)
    requires NextRead(readSteps, BYTES_PER_LINE).0.Got?
    requires |NextRead(readSteps, BYTES_PER_LINE).0.bytes| > 0
    requires NextWrite(writeSteps).0 == Accept
    ensures Dump(readSteps, writeSteps, offset)
      == Resume([Row(NextRead(readSteps, BYTES_PER_LINE).0.bytes, offset % U32_MODULUS)],
                Dump(NextRead(readSteps, BYTES_PER_LINE).1, NextWrite(writeSteps).1, offset + BYTES_PER_LINE))
  {
  }

  /** How a turn of the loop ends: the loop goes on, or the run is over with the
      given result. */
  datatype Turn = Next | Finish(result: Result<()>)

  /** One turn of the `print_hexdump` loop: read up to sixteen bytes into `buf`,
      finish at end of stream or on an error, and otherwise write the chunk's line.
      The turn is the first step of `Dump`: a finishing turn is all that is left of
      the run, and a turn that writes the line of `row` leaves the rest of the run
      to `Dump` from the answers left, sixteen bytes further on. */
  method DumpTurn(reader: Reader, writer: Writer, buf: array<byte>, offset: nat) returns (turn: Turn, ghost row: Row)
    requires buf.Length == BYTES_PER_LINE
    modifies reader, writer, buf
    ensures var d := Dump(old(reader.steps), old(writer.steps), offset);
      match turn
      case Finish(result) =>
        d == Trace(result, [], reader.steps, writer.steps) && writer.output == old(writer.output)
      case Next =>
        d == Resume([row], Dump(reader.steps, writer.steps, offset + BYTES_PER_LINE)) &&
        writer.output == old(writer.output) + GenInfo(row.bytes, row.offset) &&
        TotalBytes(reader.steps) < TotalBytes(old(reader.steps))
  {
    hide Dump, GenInfo;
    ghost var readSteps, writeSteps := reader.steps, writer.steps;
    ghost var step := NextRead(readSteps, BYTES_PER_LINE);
    row := Row([], 0);
    var got := reader.Read(buf);
    assert reader.steps == step.1;
    if got.Err? {
      DumpReadFails(readSteps, writeSteps, offset);
      return Finish(Err(got.error)), row;
    }
    var n := got.value;
    if n == 0 {
      DumpReadsNothing(readSteps, writeSteps, offset);
      return Finish(Ok(())), row;
    }
    row := Row(step.0.bytes, offset % U32_MODULUS);
    assert buf[..n] == row.bytes;
    var wrote := writer.Write(GenInfo(buf[..n], offset % U32_MODULUS));
    if wrote.Err? {
      DumpWriteFails(readSteps, writeSteps, offset);
      return Finish(Err(wrote.error)), row;
    }
    assert NextWrite(writeSteps) == (Accept, writer.steps);
    DumpWritesLine(readSteps, writeSteps, offset);
    turn := Next;
  }

  /** Where a run stands once the loop has written the rows `done`: the offset has
      advanced sixteen per row, the sink holds what it held at the `start` followed
      by the rows' lines, and what is left of the whole run is what `Dump` does from
      the answers left. */
  ghost predicate Midway(whole: Trace, start: string, done: seq<Row>, output: string,
                         readSteps: seq<ReadStep>, writeSteps: seq<WriteStep>, offset: nat)
  {
    offset == BYTES_PER_LINE * |done| &&
    output == start + Render(done) &&
    whole == Resume(done, Dump(readSteps, writeSteps, offset))
  }

  /** A turn that writes one more row keeps the run `Midway`. */
  lemma MidwayNext(whole: Trace, start: string, done: seq<Row>, output: string,
                   readSteps: seq<ReadStep>, writeSteps: seq<WriteStep>, offset: nat,
                   row: Row, output': string, readSteps': seq<ReadStep>, writeSteps': seq<WriteStep>)
    requires Midway(whole, start, done, output, readSteps, writeSteps, offset)
    requires Dump(readSteps, writeSteps, offset) == Resume([row], Dump(readSteps', writeSteps', offset + BYTES_PER_LINE))
    requires output' == output + GenInfo(row.bytes, row.offset)
    ensures Midway(whole, start, done + [row], output', readSteps', writeSteps', offset + BYTES_PER_LINE)
  {
    hide Dump, Render, GenInfo;
    RenderSnoc(done, row);
    ConcatAssoc(start, Render(done), GenInfo(row.bytes, row.offset));
    ResumeResume(done, [row], Dump(readSteps', writeSteps', offset + BYTES_PER_LINE));
  }

  /** A turn that finishes the run leaves it as it stands. */
  lemma MidwayFinish(whole: Trace, start: string, done: seq<Row>, output: string,
                     readSteps: seq<ReadStep>, writeSteps: seq<WriteStep>, offset: nat,
                     result: Result<()>, readSteps': seq<ReadStep>, writeSteps': seq<WriteStep>)
    requires Midway(whole, start, done, output, readSteps, writeSteps, offset)
    requires Dump(readSteps, writeSteps, offset) == Trace(result, [], readSteps', writeSteps')
    ensures whole == Trace(result, done, readSteps', writeSteps')
    ensures output == start + Render(whole.rows)
  {
    hide Dump, Render, GenInfo;
    ResumeNothing(done, Dump(readSteps, writeSteps, offset));
  }

  /** `print_hexdump`: the run follows `Dump` from offset zero. The sink ends up
      holding what it held before followed by the lines of the run's rows, and the
      source and the sink are left with exactly the answers the run did not consume. */
  method PrintHexdump(reader: Reader, writer: Writer) returns (r: Result<()>)
    modifies reader, writer
    ensures var t := Dump(old(reader.steps), old(writer.steps), 0);
      r == t.result && writer.output == old(writer.output) + Render(t.rows) &&
      reader.steps == t.readsLeft && writer.steps == t.writesLeft
  {
    ghost var start := writer.output;
    ghost var whole := Dump(reader.steps, writer.steps, 0);
    var buf := new byte[BYTES_PER_LINE];
    var offset: nat := 0;
    ghost var done: seq<Row> := [];
    assert Render(done) == [];
    assert Midway(whole, start, done, writer.output, reader.steps, writer.steps, offset);
    hide Midway, Dump, Render, GenInfo;
    while true
      invariant buf.Length == BYTES_PER_LINE
      invariant Midway(whole, start, done, writer.output, reader.steps, writer.steps, offset)
      decreases TotalBytes(reader.steps)
    {
      ghost var output, readSteps, writeSteps := writer.output, reader.steps, writer.steps;
      var turn, row := DumpTurn(reader, writer, buf, offset);
      if turn.Finish? {
        MidwayFinish(whole, start, done, output, readSteps, writeSteps, offset,
                     turn.result, reader.steps, writer.steps);
        return turn.result;
      }
      MidwayNext(whole, start, done, output, readSteps, writeSteps, offset,
                 row, writer.output, reader.steps, writer.steps);
      done := done + [row];
      offset := offset + BYTES_PER_LINE;
    }
  }
}
