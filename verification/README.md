# unzlib hexdump, modelled in Dafny

The program decompresses a zlib stream and prints a hexdump of the result. Its
core is a streaming formatter: `print_hexdump` reads the byte source up to
sixteen bytes at a time into one reused buffer and writes one text line per non-empty
read. `gen_info` renders each line. A line holds:

- the offset as eight lowercase hex digits, then a space;
- the bytes as space-joined two-digit lowercase hex;
- `(16 - n) * 3` padding spaces;
- two spaces, `|`, a preview of the bytes, `|` and a newline.

The preview shows each byte as itself when `is_printable` holds (0x20 to 0x7e)
and as `.` otherwise. The running offset grows by sixteen per line, whatever the
length of the read, and each line shows it cast to 32 bits. A read of zero bytes
ends the loop with success. The first read or write error ends it with that error.

The model has four modules:

- `hex.dfy` (`Hex`): `u8` and `u32`, and the `{:02x}` and `{:08x}` renderings,
  with parsers that read them back.
- `line.dfy` (`Line`): `BYTES_PER_LINE`, `is_printable`, the preview, the hex
  body and `gen_info`. Lemmas give the column layout of a line and prove that
  the hex body parses back to the bytes.
- `stream.dfy` (`Stream`): the reader and the writer. Each is a class driven by
  the answers it will give.
  - A reader answers each read with data, end of stream or an error. Data longer
    than the buffer is handed out one buffer-full at a time. Data answers shorter
    than sixteen bytes, which the script may place anywhere, give short reads.
  - A writer accepts a whole line or rejects it with an error.
- `hexdump.dfy` (`Hexdump`): `Dump`, a pure reference semantics of a whole run,
  and `PrintHexdump`, the loop over a mutable `buf` array, proved to follow
  `Dump`. Lemmas relate `Dump` to the chunks the source yields (`Drain`) and to
  the text those chunks make (`Lines`).

## Model

| member | source | states |
|---|---|---|
| `Line.IsPrintable` | src/main.rs:57-59 | `is_printable` holds exactly for the space and the ASCII graphic characters `!` to `~`. Every byte it accepts is below 0x80, so it prints as a single byte. |
| `Line.PreviewChar` | src/main.rs:47-59 | The preview character is the byte itself exactly when `is_printable` holds (0x20 <= b <= 0x7e), and `.` otherwise. It is always printable ASCII. |
| `Line.Preview` | src/main.rs:47-53 | The preview has one character per byte, and character i is the preview character of byte i. |
| `Hex.HexDigit` | src/main.rs:44-45 | The digit `{:x}` writes for a value below 16 is a lowercase hex digit that reads back as that value. |
| `Hex.HexByte` | src/main.rs:44-45 | `{:02x}` of a byte is exactly two lowercase hex digits, and they parse back to the byte. |
| `Hex.ParseHexByteCanonical` | src/main.rs:44-45 | Any pair that parses as byte b is `{:02x}` of b, so the rendering is the only spelling the parser accepts. |
| `Hex.HexDigits` | src/main.rs:54 | A value below 16^w zero-padded to w digits is w lowercase hex digits whose value is the original. |
| `Hex.HexOffset` | src/main.rs:54 | `{:08x}` of a `u32` is exactly eight lowercase digits (never more) whose value is the offset. |
| `Line.HexBody` | src/main.rs:44-45 | The space-joined hex body is empty for no bytes, has length 3n - 1 for n > 0, and holds only hex digits and spaces. |
| `Line.HexBodyAt` | src/main.rs:44-45 | Columns 3i and 3i+1 of the hex body are the two digits of byte i. A single space follows every pair but the last. |
| `Line.HexBodyRoundTrip` | src/main.rs:44-45 | Parsing the hex body yields exactly the bytes, in order. |
| `Line.ParseHexBodyCanonical` | src/main.rs:44-45 | A string that parses as hex pairs is the hex body of what it parses to. |
| `Line.Spaces` | src/main.rs:46 | `" ".repeat(k)` has length k and holds only spaces. |
| `Line.GenInfo` | src/main.rs:43-55 | For 1 <= n <= 16 the line has length 61 + n. Every line ends with `\|` and a newline. The precondition n <= 16 is the one whose breach makes line 46 underflow. |
| `Line.GenInfoOffsetField` | src/main.rs:54 | The first eight characters are lowercase hex digits whose value is the offset, and a space follows them. |
| `Line.GenInfoHexField` | src/main.rs:44-46 | For 1 <= n <= 16, columns 9 to 3n+7 hold the hex body and it parses back to the bytes. Padding spaces fill the 47-column field up to column 56. |
| `Line.GenInfoColumns` | src/main.rs:46-54 | For 1 <= n <= 16 the line has length 61 + n. Columns 56 to 58 are two spaces and `\|`, and no `\|` comes earlier, so the first `\|` is at index 58. Preview character i sits at column 59 + i, and `\|` and a newline follow the preview. |
| `Line.GenInfoIsAscii` | src/main.rs:35 | Every character of a line is ASCII, so `as_bytes` writes one byte per character. |
| `Line.GenInfoExample` | src/main.rs:61-66 | For "abc" at offset 0, the line is the unit test's expected string followed by the newline that line 54 appends. |
| `Line.GenInfoExampleAgainstTest` | src/main.rs:61-66 | The unit test's expected string, as written, differs from what `gen_info` returns for that input. |
| `Stream.NextRead` | src/main.rs:32 | A read hands out at most the buffer's length. The bytes delivered, followed by the bytes left, are exactly the bytes the source held, in order; so are their counts. |
| `Stream.Reader.Read` | src/main.rs:32 | `read` fills a prefix of `buf` with the delivered bytes and returns their count (zero at end of stream), or returns the source's error. The source moves on by exactly that answer. |
| `Stream.Writer.Write` | src/main.rs:35 | A write either appends the whole line to the output and consumes an accept, or leaves the output as it was and returns the sink's error. |
| `Hexdump.Dump` | src/main.rs:28-41 | A whole run from an offset: what the loop returns, the rows it writes and the answers left. Every line shows at least one byte. The number of bytes shown plus the number the source still holds is at most the number it held, and exactly that when the run returns `Ok(())`. |
| `Hexdump.DumpShowsSourceBytes` | src/main.rs:32-36 | The lines show the source's bytes from the start, in order, none skipped or invented. On `Ok(())` the shown bytes followed by the bytes left are all the source's bytes. Any run has read at most sixteen bytes (the chunk of the rejected write) beyond those it shows. |
| `Hexdump.Drain` | src/main.rs:32-34 | Every chunk a loop reads before it stops holds between one and sixteen bytes. |
| `Hexdump.DrainStopsAtFirstEnd` | src/main.rs:32-33 | A source of whole chunks followed by end of stream or an error yields exactly those chunks and that ending. Chunk k is read by answer k alone, leaving the answers after it. Answers after the ending are never read. |
| `Hexdump.RenderAppend` | src/main.rs:35 | The text of two runs of rows is the text of the first followed by the text of the second. |
| `Hexdump.DumpFollowsSource` | src/main.rs:28-41 | Line k shows chunk k at offset 16k truncated to 32 bits, whatever the earlier chunks' lengths. If the sink accepts every line, the run returns how the source ended: `Ok(())` at end of stream, or the read's error. It then reads and writes nothing more. Otherwise it stops at the first rejected write with the sink's error, after the earlier lines only. The source is then left right after the read of the rejected chunk, and the sink right after that write: nothing more is read or written. |
| `Hexdump.RenderRowsFollow` | src/main.rs:35-36 | Rows that follow the chunks, one row per chunk, render as the lines of those chunks at offsets 16k. |
| `Hexdump.DumpText` | src/main.rs:28-41 | The text of a run is the concatenation of `gen_info(chunk_k, 16k mod 2^32)` over the chunks the source yields. The sink accepted every line written. It covers every chunk when the sink accepts a line for each. Otherwise the write after the last line is the first rejected one, and the run returns that write's error. |
| `Hexdump.DumpOfEmptySource` | src/main.rs:32-33 | An empty stream gives `Ok(())`, no output, and no write at all. |
| `Hexdump.DumpOfTwentyBytes` | src/main.rs:29-37 | Twenty bytes in one piece are read as sixteen and then four. The two lines carry offsets 0 and 16, and the run succeeds. |
| `Hexdump.DumpTurn` | src/main.rs:32-37 | One turn of the loop (read, then stop or write one line) is the first step of `Dump`. A finishing turn leaves the output unchanged. A continuing turn appends exactly that row's line and consumes source bytes. |
| `Hexdump.MidwayNext` | src/main.rs:30-37 | The loop invariant survives a turn that writes a line. The offset stays 16 times the lines written, the output stays the start plus their text, and the rest of the run stays `Dump` from the answers left. |
| `Hexdump.MidwayFinish` | src/main.rs:32-40 | A finishing turn leaves the whole run's result, rows and leftover answers as the loop found them. |
| `Hexdump.PrintHexdump` | src/main.rs:28-41 | The loop returns `Dump`'s result. The sink ends up holding what it held before, followed by the lines of `Dump`'s rows, and nothing else. The source and the sink are left with exactly the answers the run did not consume. |

## Findings

| source | as written | input that shows it | evidently intended | confidence | as-written member | corrected member |
|---|---|---|---|---|---|---|
| src/main.rs:61-66 | The unit test expects `gen_info` to return the line without a trailing newline. | `gen_info(b"abc", 0)` | The expected string ends in `\|abc\|\n`, as line 54 produces. | high, not executed | `Line.GenInfoExampleAgainstTest` | `Line.GenInfoExample` |

## Left out

- `main` (src/main.rs:68-96) is not part of this model: argument parsing, `File::create`, `fs::read` and locking stdout are I/O plumbing.
- The zlib decompressor (`ZlibDecoder`, src/main.rs:82) lives in an external library. The model treats it as an arbitrary byte source, the `Reader` with its scripted answers.
- `MyError` (src/main.rs:11-26) is built only by `main` and is left out with it. The `io::Error` that `read` or `write` returns is the abstract `Stream.IoError`, and `print_hexdump`'s `Result<(), Box<dyn Error>>` is `Stream.Result<()>`: the `?` at src/main.rs:32 and 35 passes that error on unchanged apart from the boxing.
- Stream.Writer.Write: line 35 calls `write` and ignores the count it returns, so a short write would silently drop the rest of a line. The model's sink takes a whole line or fails; short writes are not modelled.
- Hexdump.PrintHexdump: the running offset is a `usize` in the source. The model makes it an unbounded `nat`, so the overflow of `offset += BYTES_PER_LINE` (src/main.rs:36) is not modelled. That overflow comes after 2^60 lines on 64-bit targets and after 2^28 lines on 32-bit targets. It panics in a debug build. In a release build it wraps, and the wrapped value agrees with the `% 2^32` the model applies for the `as u32` cast. That cast is modelled exactly.
- Stream.Reader, Hexdump.PrintHexdump: a source is a finite script of answers, and an exhausted script reads as end of stream. The model therefore cannot express an endless `R: Read`, on which `print_hexdump` never returns, nor a read that blocks forever. The loop terminates (`decreases TotalBytes(reader.steps)`) because of this, so termination is a property of the model, not of `print_hexdump`.
- The output is modelled as characters rather than bytes. `Line.GenInfoIsAscii` shows that the two coincide.
- The layout lemmas require 1 <= n <= 16. `gen_info` of zero bytes would put its first `|` at index 59, but `print_hexdump` never calls it with zero bytes.
- Hexdump.DumpTurn is one turn of the source's single `loop` body, factored out as a method. The loop in `PrintHexdump` is otherwise the source's loop.
