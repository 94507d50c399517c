/** One line of the hexdump: `gen_info` and `is_printable`.
    A line for a chunk of n bytes (1 <= n <= 16) at offset o reads
      eight hex digits of o, a space, the n bytes as space-joined hex pairs,
      (16 - n) * 3 padding spaces, two spaces, `|`, the preview, `|`, newline. */
module Line {
  import opened Hex

  const BYTES_PER_LINE: nat := 16

  /** Printable ASCII: the space and the graphic characters `!` through `~`; a
      printable byte is an ASCII character, so it prints as one byte. */
  predicate IsPrintable(c: byte): (r: bool)
    ensures r <==> c as char == ' ' || '!' <= c as char <= '~'
    ensures r ==> c < 0x80
  {
    c >= 0x20 && c <= 0x7e
  }

  /** The preview character of one byte: the byte itself when printable, else a dot.
      Whatever the byte, the preview character is itself printable ASCII. */
  function PreviewChar(b: byte): (c: char)
    ensures c == b as char <==> IsPrintable(b)
    ensures !IsPrintable(b) ==> c == '.'
    ensures 0x20 <= c as int <= 0x7e
  {
    if IsPrintable(b) then b as char else '.'
  }

  /** The ASCII preview column: one character per byte, in order. */
  function Preview(bytes: seq<byte>): (s: string)
    ensures |s| == |bytes|
    ensures forall i :: 0 <= i < |s| ==> s[i] == PreviewChar(bytes[i])
  {
    seq(|bytes|, i requires 0 <= i < |bytes| => PreviewChar(bytes[i]))
  }

  /** The bytes as two-digit lowercase hex, joined by single spaces. */
  function HexBody(bytes: seq<byte>): (s: string)
    ensures |bytes| == 0 ==> s == []
    ensures |bytes| > 0 ==> |s| == 3 * |bytes| - 1
    ensures forall j :: 0 <= j < |s| ==> IsLowerHexDigit(s[j]) || s[j] == ' '
    decreases |bytes|
  {
    if |bytes| == 0 then ""
    else if |bytes| == 1 then HexByte(bytes[0])
    else HexByte(bytes[0]) + " " + HexBody(bytes[1..])
  }

  /** Reads a space-separated run of lowercase hex pairs back into bytes. */
  function ParseHexBody(s: string): (r: Option<seq<byte>>)
    decreases |s|
  {
    if |s| < 2 then (if |s| == 0 then Some([]) else None)
    else match ParseHexByte(s[0], s[1])
      case None => None
      case Some(b) =>
        if |s| == 2 then Some([b])
        else if |s| == 3 || s[2] != ' ' then None
        else match ParseHexBody(s[3..])
          case None => None
          case Some(rest) => Some([b] + rest)
  }

  /** The hex body starts with the first pair, then a space if more pairs follow,
      then the hex body of the rest. */
  lemma HexBodyFirst(bytes: seq<byte>)
    requires |bytes| > 0
    ensures |HexBody(bytes)| >= 2
    ensures HexBody(bytes)[0] == HexByte(bytes[0])[0] && HexBody(bytes)[1] == HexByte(bytes[0])[1]
    ensures |bytes| > 1 ==> |HexBody(bytes)| > 3 && HexBody(bytes)[2] == ' ' && HexBody(bytes)[3..] == HexBody(bytes[1..])
  {
    if |bytes| > 1 {
      assert HexBody(bytes) == HexByte(bytes[0]) + " " + HexBody(bytes[1..]);
    }
  }

  /** Pair i of the hex body sits at columns 3i and 3i+1, and a single space follows
      every pair but the last. */
  lemma {:induction false} HexBodyAt(bytes: seq<byte>, i: nat)
    requires i < |bytes|
    ensures 3 * i + 2 <= |HexBody(bytes)|
    ensures HexBody(bytes)[3 * i] == HexByte(bytes[i])[0] && HexBody(bytes)[3 * i + 1] == HexByte(bytes[i])[1]
    ensures i + 1 < |bytes| ==> HexBody(bytes)[3 * i + 2] == ' '
  {
    if i == 0 {
      HexBodyFirst(bytes);
    } else {
      var s := HexBody(bytes);
      var t := HexBody(bytes[1..]);
      var h := HexByte(bytes[0]) + " ";
      assert s == h + t;
      hide HexBody, HexByte, IsLowerHexDigit;
      HexBodyAt(bytes[1..], i - 1);
      assert s[3 * i] == t[3 * (i - 1)] && s[3 * i + 1] == t[3 * (i - 1) + 1];
      assert i + 1 < |bytes| ==> s[3 * i + 2] == t[3 * (i - 1) + 2];
    }
  }

  /** The hex body parses back to exactly the bytes, in order. */
  lemma {:induction false} HexBodyRoundTrip(bytes: seq<byte>)
    ensures ParseHexBody(HexBody(bytes)) == Some(bytes)
  {
    if |bytes| >= 2 {
      var s := HexBody(bytes);
      var h := HexByte(bytes[0]);
      assert s == h + " " + HexBody(bytes[1..]);
      assert s[0] == h[0] && s[1] == h[1] && s[2] == ' ';
      assert ParseHexByte(s[0], s[1]) == Some(bytes[0]);
      assert s[3..] == HexBody(bytes[1..]);
      assert |s| > 3;
      HexBodyRoundTrip(bytes[1..]);
      assert [bytes[0]] + bytes[1..] == bytes;
    } else if |bytes| == 1 {
      assert HexBody(bytes) == HexByte(bytes[0]);
      assert [bytes[0]] == bytes;
    }
  }

  /** Conversely, a string that parses as hex pairs is the hex body of what it parses to:
      the rendering is the only spelling the parser accepts. */
  lemma {:induction false} ParseHexBodyCanonical(s: string)
    requires ParseHexBody(s).Some?
    ensures HexBody(ParseHexBody(s).value) == s
    decreases |s|
  {
    if |s| >= 2 {
      ParseHexByteCanonical(s[0], s[1]);
      if |s| > 2 {
        ParseHexBodyCanonical(s[3..]);
        var b := ParseHexByte(s[0], s[1]).value;
        var rest := ParseHexBody(s[3..]).value;
        assert ([b] + rest)[1..] == rest;
        assert s == s[..2] + " " + s[3..];
      }
    }
  }

  /** `" ".repeat(k)` */
  function Spaces(k: nat): (s: string)
    ensures |s| == k
    ensures forall i :: 0 <= i < k ==> s[i] == ' '
  {
    seq(k, _ => ' ')
  }

  /** `gen_info`: the text line for one chunk. More than 16 bytes would underflow the
      padding computation, so callers must pass at most 16. */
  function GenInfo(bytes: seq<byte>, offset: u32): (line: string)
    requires |bytes| <= BYTES_PER_LINE
    ensures 0 < |bytes| ==> |line| == 61 + |bytes|
    ensures |line| >= 2 && line[|line| - 2..] == "|\n"
  {
    HexOffset(offset) + " " + HexBody(bytes) + Spaces((BYTES_PER_LINE - |bytes|) * 3)
    + "  |" + Preview(bytes) + "|\n"
  }

  /** The first eight characters are lowercase hex digits that read back as the
      offset, and a single space follows them. */
  lemma GenInfoOffsetField(bytes: seq<byte>, offset: u32)
    requires |bytes| <= BYTES_PER_LINE
    ensures var line := GenInfo(bytes, offset);
      |line| > 8 &&
      (forall i :: 0 <= i < 8 ==> IsLowerHexDigit(line[i])) &&
      HexValue(line[..8]) == offset &&
      line[8] == ' '
  {
    var line := GenInfo(bytes, offset);
    assert line[..8] == HexOffset(offset);
  }

  /** For 1 <= n <= 16: columns 9 .. 3n+8 hold the hex body, which parses back to the
      bytes; padding spaces fill the rest of the 47-column field up to column 56. */
  lemma GenInfoHexField(bytes: seq<byte>, offset: u32)
    requires 1 <= |bytes| <= BYTES_PER_LINE
    ensures var line := GenInfo(bytes, offset); var n := |bytes|;
      |line| > 56 &&
      ParseHexBody(line[9 .. 3 * n + 8]) == Some(bytes) &&
      (forall j :: 3 * n + 8 <= j < 56 ==> line[j] == ' ')
  {
    var line := GenInfo(bytes, offset);
    var n := |bytes|;
    var head, body, pad := HexOffset(offset) + " ", HexBody(bytes), Spaces((BYTES_PER_LINE - n) * 3);
    var field := head + body + pad;
    assert line == field + "  |" + Preview(bytes) + "|\n";
    hide GenInfo, HexBody, HexOffset, Spaces, Preview, IsLowerHexDigit;
    assert line[9 .. 3 * n + 8] == body by {
      forall k | 0 <= k < 3 * n - 1
        ensures line[9 + k] == body[k]
      {
        assert line[9 + k] == field[9 + k];
      }
    }
    HexBodyRoundTrip(bytes);
    forall j | 3 * n + 8 <= j < 56
      ensures line[j] == ' '
    {
      assert line[j] == field[j];
      assert field[j] == pad[j - (3 * n + 8)];
    }
  }

  /** For 1 <= n <= 16: the line is 61 + n characters long, the column separator
      `  |` occupies columns 56..58 whatever n is, no `|` appears before column 58,
      and preview character i sits at column 59 + i, followed by `|` and a newline. */
  lemma GenInfoColumns(bytes: seq<byte>, offset: u32)
    requires 1 <= |bytes| <= BYTES_PER_LINE
    ensures var line := GenInfo(bytes, offset); var n := |bytes|;
      |line| == 61 + n &&
      line[56..59] == "  |" &&
      (forall j :: 0 <= j < 58 ==> line[j] != '|') &&
      (forall i :: 0 <= i < n ==> line[59 + i] == PreviewChar(bytes[i])) &&
      line[59 + n ..] == "|\n"
  {
    var line := GenInfo(bytes, offset);
    var n := |bytes|;
    var field := HexOffset(offset) + " " + HexBody(bytes) + Spaces((BYTES_PER_LINE - n) * 3);
    assert |field| == 56;
    assert line == field + "  |" + Preview(bytes) + "|\n";
    forall j | 0 <= j < 58
      ensures line[j] != '|'
    {
      if j < 56 {
        assert line[j] == field[j];
        if 9 <= j < 3 * n + 8 {
          assert field[j] == HexBody(bytes)[j - 9];
        }
      }
    }
    forall i | 0 <= i < n
      ensures line[59 + i] == PreviewChar(bytes[i])
    {
      assert line[59 + i] == Preview(bytes)[i];
    }
  }

  /** Every character of a line is ASCII, so the line's UTF-8 bytes are its
      characters' codes, one byte per character. */
  lemma GenInfoIsAscii(bytes: seq<byte>, offset: u32)
    requires |bytes| <= BYTES_PER_LINE
    ensures forall j :: 0 <= j < |GenInfo(bytes, offset)| ==> GenInfo(bytes, offset)[j] as int < 0x80
  {
    var head := HexOffset(offset) + " " + HexBody(bytes) + Spaces((BYTES_PER_LINE - |bytes|) * 3) + "  |";
    var tail := Preview(bytes) + "|\n";
    var line := GenInfo(bytes, offset);
    assert line == head + tail;
    forall j | 0 <= j < |line|
      ensures line[j] as int < 0x80
    {
      if j < |head| {
        assert line[j] == head[j];
      } else {
        assert line[j] == tail[j - |head|];
      }
    }
  }

  lemma ConcatAssoc(x: string, y: string, z: string)
    ensures (x + y) + z == x + (y + z)
  {
  }

  lemma HexBodyOfAbc()
    ensures HexBody([0x61, 0x62, 0x63]) == "61 62 63"
  {
    var bytes: seq<byte> := [0x61, 0x62, 0x63];
    assert HexByte(0x61) == "61" && HexByte(0x62) == "62" && HexByte(0x63) == "63";
    assert HexBody(bytes[2..]) == "63";
    assert HexBody(bytes[1..]) == "62 63";
  }

  lemma HexOffsetOfZero()
    ensures HexOffset(0) == "00000000"
  {
    assert HexDigits(0, 8) == "00000000";
  }

  lemma PreviewOfAbc()
    ensures Preview([0x61, 0x62, 0x63]) == "abc"
  {
  }

  /** Thirty-nine padding spaces and the two separator spaces are forty-one spaces. */
  lemma SeparatorAfterPadding(head: string)
    ensures head + Spaces(39) + "  |abc|\n" == head + Spaces(41) + "|abc|" + "\n"
  {
    var pad := Spaces(39);
    assert Spaces(41) == pad + "  ";
    hide Spaces;
    ConcatAssoc(head, pad, "  ");
    ConcatAssoc(head + pad, "  ", "|abc|");
    ConcatAssoc(head + pad, "  " + "|abc|", "\n");
    assert "  " + "|abc|" + "\n" == "  |abc|\n";
  }

  /** The worked example of three printable bytes at offset zero: the line is the
      string the unit test expects, followed by the newline that `gen_info` appends. */
  lemma GenInfoExample()
    ensures GenInfo([0x61, 0x62, 0x63], 0) == "00000000 61 62 63" + Spaces(41) + "|abc|" + "\n"
  {
    var bytes: seq<byte> := [0x61, 0x62, 0x63];
    var head := HexOffset(0) + " " + HexBody(bytes);
    var pad := Spaces(39);
    assert GenInfo(bytes, 0) == (((head + pad) + "  |") + Preview(bytes)) + "|\n";
    hide GenInfo, HexOffset, HexBody, Preview, Spaces;
    HexOffsetOfZero();
    HexBodyOfAbc();
    PreviewOfAbc();
    assert head == "00000000 61 62 63";
    ConcatAssoc(head + pad, "  |", "abc");
    ConcatAssoc(head + pad, "  |" + "abc", "|\n");
    assert "  |" + "abc" + "|\n" == "  |abc|\n";
    SeparatorAfterPadding(head);
  }

  /** The unit test's expected string, as written, is not what `gen_info` returns for
      its input: it lacks the trailing newline. */
  lemma GenInfoExampleAgainstTest()
    ensures GenInfo([0x61, 0x62, 0x63], 0) != "00000000 61 62 63" + Spaces(41) + "|abc|"
  {
    GenInfoExample();
    hide GenInfo, Spaces;
    var expected := "00000000 61 62 63" + Spaces(41) + "|abc|";
    assert |expected + "\n"| == |expected| + 1;
  }
}
