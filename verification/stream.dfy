/** The byte source and the text sink the formatter is generic over (`R: Read`,
    `W: Write`). Each is modelled by the sequence of answers it will give: a
    source answers reads with data, end of stream or an error; a sink accepts or
    rejects each write. */
module Stream {
  import opened Hex

  /** An I/O error, kept abstract. */
  datatype IoError = IoError(code: int)

  /** The result of a read or a write (`io::Result<T>`), and of `print_hexdump`
      (`Result<(), Box<dyn Error>>`, whose error is always the boxed I/O error). */
  datatype Result<+T> = Ok(value: T) | Err(error: IoError)

  /** One answer a source has ready. `Data` of more bytes than the caller's buffer
      holds is delivered in pieces, one buffer-full per read. */
  datatype ReadStep = Data(bytes: seq<byte>) | EndOfStream | ReadFailure(err: IoError)

  /** What one read hands to the caller: the bytes read (none at end of stream)
      or an error. */
  datatype ReadOutcome = Got(bytes: seq<byte>) | Failed(err: IoError)

  /** The number of bytes a source still holds. */
  function TotalBytes(steps: seq<ReadStep>): nat {
    if |steps| == 0 then 0
    else (if steps[0].Data? then |steps[0].bytes| else 0) + TotalBytes(steps[1..])
  }

  /** The bytes a source still holds, in the order it will deliver them. */
  function DataBytes(steps: seq<ReadStep>): seq<byte> {
    if |steps| == 0 then []
    else (if steps[0].Data? then steps[0].bytes else []) + DataBytes(steps[1..])
  }

  /** One read into a buffer of `cap` bytes: what it returns, and the answers left.
      An exhausted source reads as end of stream. No byte is lost, invented or
      reordered: the bytes delivered followed by the bytes left are the bytes there
      were, and so are their numbers. */
  function NextRead(steps: seq<ReadStep>, cap: nat): (r: (ReadOutcome, seq<ReadStep>))
    ensures r.0.Got? ==> |r.0.bytes| <= cap
    ensures TotalBytes(r.1) + (if r.0.Got? then |r.0.bytes| else 0) == TotalBytes(steps)
    ensures (if r.0.Got? then r.0.bytes else []) + DataBytes(r.1) == DataBytes(steps)
  {
    if |steps| == 0 then (Got([]), [])
    else match steps[0]
      case EndOfStream => (Got([]), steps[1..])
      case ReadFailure(e) => (Failed(e), steps[1..])
      case Data(d) =>
        if |d| <= cap then (Got(d), steps[1..])
        else
          var rest := [Data(d[cap..])] + steps[1..];
          assert rest[1..] == steps[1..];
          assert DataBytes(rest) == d[cap..] + DataBytes(steps[1..]);
          assert d[..cap] + (d[cap..] + DataBytes(steps[1..])) == d + DataBytes(steps[1..]) by {
            assert d[..cap] + d[cap..] == d;
          }
          (Got(d[..cap]), rest)
  }

  /** A byte source with a fixed sequence of answers. */
  class Reader {
    var steps: seq<ReadStep>

    constructor (steps: seq<ReadStep>)
      ensures this.steps == steps
    {
      this.steps := steps;
    }

    /** `Read::read`: fills a prefix of `buf` and returns how many bytes it filled
        (zero at end of stream), or returns an error. */
    method Read(buf: array<byte>) returns (r: Result<nat>)
      modifies this, buf
      ensures steps == NextRead(old(steps), buf.Length).1
      ensures match NextRead(old(steps), buf.Length).0
        case Got(bytes) => r == Ok(|bytes|) && |bytes| <= buf.Length && buf[..|bytes|] == bytes
        case Failed(e) => r == Err(e)
    {
      var next := NextRead(steps, buf.Length);
      match next.0 {
        case Failed(e) =>
          r := Err(e);
        case Got(bytes) =>
          for i := 0 to |bytes|
            invariant buf[..i] == bytes[..i]
          {
            buf[i] := bytes[i];
          }
          r := Ok(|bytes|);
      }
      steps := next.1;
    }
  }

  /** One answer a sink has ready for the next write. */
  datatype WriteStep = Accept | Reject(err: IoError)

  /** The answer to the next write, and the answers left. An exhausted sink accepts. */
  function NextWrite(steps: seq<WriteStep>): (WriteStep, seq<WriteStep>) {
    if |steps| == 0 then (Accept, []) else (steps[0], steps[1..])
  }

  /** A text sink: what it has accepted so far and how it will answer next. */
  class Writer {
    var output: string
    var steps: seq<WriteStep>

    constructor (steps: seq<WriteStep>)
      ensures output == [] && this.steps == steps
    {
      output := [];
      this.steps := steps;
    }

    /** `Write::write` of a whole line: the sink either appends all of it and
        reports its length, or keeps what it had and reports an error. */
    method Write(s: string) returns (r: Result<nat>)
      modifies this
      ensures steps == NextWrite(old(steps)).1
      ensures match NextWrite(old(steps)).0
        case Accept => r == Ok(|s|) && output == old(output) + s
        case Reject(e) => r == Err(e) && output == old(output)
    {
      var next := NextWrite(steps);
      steps := next.1;
      match next.0
      case Accept =>
        output := output + s;
        r := Ok(|s|);
      case Reject(e) =>
        r := Err(e);
    }
  }
}
