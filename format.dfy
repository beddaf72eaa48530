/** The renderers of src/wl_log.c: the level name and colour switch, the print
    line, and the pieces of the hex line and of the hex dump, each as the
    sequence of strings handed to log_output. */
module Format {
  import opened Strings
  import opened Levels

  type byte = x: int | 0 <= x < 256
  /** uint32_t, the type of the millisecond timestamp printed with `%u`. */
  type u32 = x: int | 0 <= x < 0x1_0000_0000

  /** Sizes of the fixed working buffers; `snprintf` keeps one character less. */
  const MessageLimit: nat := 255   // char log_buffer_local[256]
  const LineLimit: nat := 511      // char final_message[512]
  const HeaderLimit: nat := 127    // char header[128]

  /** Bytes per row of a dump. */
  const DumpRowLength: nat := 16
  /** The index the dump loop starts from. */
  const DumpStart: nat := 0

  // ---------------------------------------------------------------------------
  // Numbers as text: %u, %02X and %04X

  function DigitChar(d: nat): char
    requires d < 16
  {
    if d < 10 then ('0' as int + d) as char else ('A' as int + d - 10) as char
  }

  function DigitValue(c: char): nat
  {
    if '0' <= c <= '9' then c as int - '0' as int
    else if 'A' <= c <= 'F' then c as int - 'A' as int + 10
    else 0
  }

  /** `n` written in `base` (10 or 16) with no leading zeros ("0" for zero),
      upper-case. */
  function Digits(n: nat, base: nat): string
    requires base == 10 || base == 16
    decreases n
  {
    if n < base then [DigitChar(n)] else Digits(n / base, base) + [DigitChar(n % base)]
  }

  /** The number a string of digits denotes in `base`. */
  function DigitsValue(s: string, base: nat): nat
  {
    if s == [] then 0 else DigitsValue(s[..|s| - 1], base) * base + DigitValue(s[|s| - 1])
  }

  predicate AllDigits(s: string, base: nat)
  {
    forall i :: 0 <= i < |s| ==> DigitValue(s[i]) < base && s[i] == DigitChar(DigitValue(s[i]))
  }

  /** `%0<width>X`: hexadecimal, left-padded with zeros to at least `width` digits. */
  function HexPadded(n: nat, width: nat): string
  {
    var digits := Digits(n, 16);
    if |digits| >= width then digits else seq(width - |digits|, _ => '0') + digits
  }

  /** `%u` */
  function Decimal(n: nat): string
  {
    Digits(n, 10)
  }

  lemma DigitCharValue(d: nat)
    requires d < 16
    ensures DigitValue(DigitChar(d)) == d
    ensures DigitChar(d) != '0' <==> d != 0
  {
  }

  lemma {:induction false} DigitsRoundTrip(n: nat, base: nat)
    requires base == 10 || base == 16
    ensures DigitsValue(Digits(n, base), base) == n
    ensures AllDigits(Digits(n, base), base)
    ensures n > 0 ==> Digits(n, base)[0] != '0'
    decreases n
  {
    var s := Digits(n, base);
    if n < base {
      DigitCharValue(n);
    } else {
      var q, d := n / base, n % base;
      DigitsRoundTrip(q, base);
      DigitCharValue(d);
      var p := Digits(q, base);
      assert s[..|s| - 1] == p;
      assert s[|s| - 1] == DigitChar(d);
      assert DigitsValue(s, base) == DigitsValue(p, base) * base + d;
      assert q * base + d == n;
      assert forall i :: 0 <= i < |s| ==> s[i] == if i < |p| then p[i] else DigitChar(d);
      assert p[0] == s[0];
    }
  }

  lemma {:induction false} LeadingZeros(k: nat, s: string, base: nat)
    ensures DigitsValue(seq(k, _ => '0') + s, base) == DigitsValue(s, base)
    decreases k, |s|
  {
    var z: string := seq(k, _ => '0');
    if s == [] {
      assert z + s == z;
      if k > 0 {
        var z': string := seq(k - 1, _ => '0');
        assert z[..k - 1] == z' + [];
        LeadingZeros(k - 1, [], base);
        assert z[k - 1] == '0';
      }
    } else {
      assert (z + s)[..|z + s| - 1] == z + s[..|s| - 1];
      LeadingZeros(k, s[..|s| - 1], base);
    }
  }

  /** A decimal rendering reads back as the number, with no leading zero. */
  lemma DecimalRoundTrip(n: nat)
    ensures DigitsValue(Decimal(n), 10) == n && AllDigits(Decimal(n), 10)
    ensures n > 0 ==> Decimal(n)[0] != '0'
  {
    DigitsRoundTrip(n, 10);
  }

  function Pow10(k: nat): nat
  {
    if k == 0 then 1 else 10 * Pow10(k - 1)
  }

  lemma {:induction false} DecimalBelow(n: nat, k: nat)
    requires 1 <= k && n < Pow10(k)
    ensures |Decimal(n)| <= k
    decreases k
  {
    if n >= 10 {
      DecimalBelow(n / 10, k - 1);
    }
  }

  /** A uint32 has at most ten decimal digits. */
  lemma DecimalWidth(n: u32)
    ensures |Decimal(n)| <= 10
  {
    assert Pow10(10) == 10000000000 by {
      assert Pow10(2) == 100;
      assert Pow10(4) == 10000;
      assert Pow10(6) == 1000000;
      assert Pow10(8) == 100000000;
    }
    DecimalBelow(n, 10);
  }

  function Pow16(k: nat): nat
  {
    if k == 0 then 1 else 16 * Pow16(k - 1)
  }

  lemma {:induction false} HexBelow(n: nat, k: nat)
    requires 1 <= k && n < Pow16(k)
    ensures |Digits(n, 16)| <= k
    decreases k
  {
    if n >= 16 {
      HexBelow(n / 16, k - 1);
    }
  }

  /** When the number has at most `width` digits, the padded rendering has
      exactly `width` of them: no extra leading zero. */
  lemma HexPaddedWidth(n: nat, width: nat)
    requires 1 <= width && n < Pow16(width)
    ensures |HexPadded(n, width)| == width
  {
    HexBelow(n, width);
  }

  /** A zero-padded hexadecimal rendering reads back as the number and has at
      least `width` digits. */
  lemma HexPaddedRoundTrip(n: nat, width: nat)
    ensures DigitsValue(HexPadded(n, width), 16) == n
    ensures |HexPadded(n, width)| >= width
    ensures AllDigits(HexPadded(n, width), 16)
  {
    var digits := Digits(n, 16);
    DigitsRoundTrip(n, 16);
    if |digits| < width {
      LeadingZeros(width - |digits|, digits, 16);
      var z: string := seq(width - |digits|, _ => '0');
      assert DigitChar(DigitValue('0')) == '0';
      assert forall i :: 0 <= i < |z| ==> z[i] == '0';
      assert forall i :: 0 <= i < |z + digits| ==> (z + digits)[i] == if i < |z| then '0' else digits[i - |z|];
    }
  }

  /** `%02X` of a byte: the high and the low nibble as upper-case hexadecimal
      digits. */
  function Hex2(b: byte): (r: string)
    ensures |r| == 2
  {
    [DigitChar(b / 16), DigitChar(b % 16)]
  }

  /** The two digits read back as the byte. */
  lemma Hex2RoundTrip(b: byte)
    ensures AllDigits(Hex2(b), 16) && DigitsValue(Hex2(b), 16) == b
  {
    var r := Hex2(b);
    DigitCharValue(b / 16);
    DigitCharValue(b % 16);
    assert r[..1] == [DigitChar(b / 16)];
    assert [DigitChar(b / 16)][..0] == [];
    assert DigitsValue(r[..1], 16) == b / 16;
  }

  /** It is the general zero-padded rendering at width two. */
  lemma Hex2IsPadded(b: byte)
    ensures Hex2(b) == HexPadded(b, 2)
  {
    if b >= 16 {
      assert Digits(b / 16, 16) == [DigitChar(b / 16)];
    }
  }

  // ---------------------------------------------------------------------------
  // Level names and colours

  /** The ANSI escape sequence ESC '[' code 'm'. */
  function Ansi(code: string): string
  {
    [27 as char] + "[" + code + "m"
  }

  /** level_str of the switch in wl_log_print. */
  function LevelName(level: Level): string
  {
    match level
    case Error => "ERROR"
    case Warn => "WARN"
    case Info => "INFO"
    case Debug => "DEBUG"
    case Verbose => "VERBOSE"
    case None => "UNKNOWN"
  }

  /** color_code of the switch in wl_log_print; the macros are empty strings when
      colours are disabled. */
  function Color(useColors: bool, level: Level): string
  {
    if !useColors then ""
    else match level
      case Error => Ansi("31")
      case Warn => Ansi("33")
      case Info => Ansi("32")
      case Debug => Ansi("34")
      case Verbose => Ansi("37")
      case None => Ansi("37")
  }

  /** ANSI_COLOR_RESET */
  function Reset(useColors: bool): string
  {
    if useColors then Ansi("0") else ""
  }

  /** Each level has its own name and, with colours on, its own colour, except
      that WL_LOG_NONE falls to the default branch: "UNKNOWN" in white. Without
      colours every colour string is empty. */
  lemma LevelStyles(useColors: bool, a: Level, b: Level)
    ensures a != b ==> LevelName(a) != LevelName(b)
    ensures useColors && a != b && a != None && b != None ==> Color(useColors, a) != Color(useColors, b)
    ensures LevelName(None) == "UNKNOWN" && Color(useColors, None) == Color(useColors, Verbose)
    ensures !useColors ==> Color(useColors, a) == "" && Reset(useColors) == ""
  {
    if useColors && a != b && a != None && b != None {
      assert Color(useColors, a)[3] != Color(useColors, b)[3];
    }
  }

  lemma StyleWidths(useColors: bool, level: Level)
    ensures |Color(useColors, level)| <= 5 && |Reset(useColors)| <= 4 && |LevelName(level)| <= 7
  {
  }

  // ---------------------------------------------------------------------------
  // wl_log_print

  /** The part of the line before the tag: colour, "(", the timestamp, ")[",
      the level name and "][". */
  function Preamble(useColors: bool, level: Level, millis: u32): string
  {
    Color(useColors, level) + "(" + Decimal(millis) + ")[" + LevelName(level) + "]["
  }

  /** What `snprintf(final_message, 512, "%s(%u)[%s][%s]: %s%s\n", ...)` would
      write given room: the message already cut to the 255 characters that
      `vsnprintf` into log_buffer_local keeps. */
  function LineLayout(useColors: bool, level: Level, tag: string, message: string, millis: u32): string
  {
    Preamble(useColors, level, millis) + (tag + "]: " + Prefix(message, MessageLimit) + Reset(useColors) + "\n")
  }

  /** The one string wl_log_print hands to log_output. */
  function PrintLine(useColors: bool, level: Level, tag: string, message: string, millis: u32): string
  {
    Prefix(LineLayout(useColors, level, tag, message, millis), LineLimit)
  }

  lemma PreambleWidth(useColors: bool, level: Level, millis: u32)
    ensures |Preamble(useColors, level, millis)| <= 27
  {
    StyleWidths(useColors, level);
    DecimalWidth(millis);
  }

  /** The line never exceeds 511 characters, always starts with the whole
      preamble (so the timestamp and level name are never cut), and is the
      complete layout, reset code and newline included, whenever the tag has at
      most 221 characters: the layout is at most 290 characters plus the tag. */
  lemma PrintLineShape(useColors: bool, level: Level, tag: string, message: string, millis: u32)
    ensures var line := PrintLine(useColors, level, tag, message, millis);
            var preamble := Preamble(useColors, level, millis);
            && |line| <= LineLimit
            && line == LineLayout(useColors, level, tag, message, millis)[..|line|]
            && |preamble| <= |line| && line[..|preamble|] == preamble
            && (|tag| <= 221 ==> line == LineLayout(useColors, level, tag, message, millis))
  {
    var preamble := Preamble(useColors, level, millis);
    var rest := tag + "]: " + Prefix(message, MessageLimit) + Reset(useColors) + "\n";
    var layout := LineLayout(useColors, level, tag, message, millis);
    var line := PrintLine(useColors, level, tag, message, millis);
    PreambleWidth(useColors, level, millis);
    StyleWidths(useColors, level);
    assert |rest| <= |tag| + 263;
    assert layout == preamble + rest;
    assert |preamble| <= |line|;
    assert line[..|preamble|] == layout[..|preamble|];
  }

  // ---------------------------------------------------------------------------
  // wl_log_buffer_hex

  /** `snprintf(header, 128, "(%u)[HEX][%s]: ", millis, tag)` */
  function HexHeader(millis: u32, tag: string): string
  {
    Prefix("(" + Decimal(millis) + ")[HEX][" + tag + "]: ", HeaderLimit)
  }

  /** `snprintf(hex_line, 128, "%02X ", b)` */
  function HexByte(b: byte): string
  {
    Hex2(b) + " "
  }

  function HexPieces(bytes: seq<byte>): (r: seq<string>)
    ensures |r| == |bytes|
    ensures forall i :: 0 <= i < |bytes| ==> r[i] == HexByte(bytes[i])
  {
    seq(|bytes|, i requires 0 <= i < |bytes| => HexByte(bytes[i]))
  }

  /** Everything wl_log_buffer_hex hands to log_output, one string per call. */
  function HexSegments(millis: u32, tag: string, bytes: seq<byte>): seq<string>
  {
    [HexHeader(millis, tag)] + HexPieces(bytes) + ["\n"]
  }

  /** Reads "XX " groups back into bytes. */
  function DecodeHexBody(s: string): seq<int>
    decreases |s|
  {
    if |s| < 3 then [] else [DigitsValue(s[..2], 16)] + DecodeHexBody(s[3..])
  }

  /** The body of a hex line is three characters per byte and reads back as the
      bytes that were logged. */
  lemma {:induction false} HexBodyRoundTrip(bytes: seq<byte>)
    ensures |Join(HexPieces(bytes))| == 3 * |bytes|
    ensures DecodeHexBody(Join(HexPieces(bytes))) == bytes
  {
    if bytes != [] {
      var pieces := HexPieces(bytes);
      assert pieces == [HexByte(bytes[0])] + HexPieces(bytes[1..]);
      HexBodyRoundTrip(bytes[1..]);
      Hex2RoundTrip(bytes[0]);
      var s := Join(pieces);
      assert s == Hex2(bytes[0]) + " " + Join(HexPieces(bytes[1..]));
      assert s[..2] == Hex2(bytes[0]);
      assert s[3..] == Join(HexPieces(bytes[1..]));
    }
  }

  /** The whole hex line: header, the body, then the newline; the header is
      complete whenever the tag has at most 106 characters. */
  lemma HexLineShape(millis: u32, tag: string, bytes: seq<byte>)
    ensures Join(HexSegments(millis, tag, bytes)) == HexHeader(millis, tag) + Join(HexPieces(bytes)) + "\n"
    ensures |tag| <= 106 ==> HexHeader(millis, tag) == "(" + Decimal(millis) + ")[HEX][" + tag + "]: "
  {
    JoinAppend([HexHeader(millis, tag)] + HexPieces(bytes), ["\n"]);
    JoinAppend([HexHeader(millis, tag)], HexPieces(bytes));
    DecimalWidth(millis);
  }

  /** The hex loop's output grows by one "XX " group per byte. */
  lemma HexPiecesSnoc(bytes: seq<byte>, b: byte)
    ensures Join(HexPieces(bytes + [b])) == Join(HexPieces(bytes)) + HexByte(b)
  {
    assert HexPieces(bytes + [b]) == HexPieces(bytes) + [HexByte(b)];
    JoinSnoc(HexPieces(bytes), HexByte(b));
  }

  /** examples/full_methods.c style input: bytes AB CD render as "AB CD ". */
  lemma HexExample()
    ensures Join(HexPieces([0xAB, 0xCD])) == "AB CD "
  {
    var p := HexPieces([0xAB, 0xCD]);
    assert Hex2(0xAB) == "AB" by {
      assert Digits(0xAB, 16) == Digits(10, 16) + [DigitChar(11)];
      assert Digits(10, 16) == [DigitChar(10)];
      assert DigitChar(10) == 'A' && DigitChar(11) == 'B';
    }
    assert Hex2(0xCD) == "CD" by {
      assert Digits(0xCD, 16) == Digits(12, 16) + [DigitChar(13)];
      assert Digits(12, 16) == [DigitChar(12)];
      assert DigitChar(12) == 'C' && DigitChar(13) == 'D';
    }
    assert p[0] == "AB " && p[1] == "CD ";
    assert p == ["AB ", "CD "];
    assert Join(p) == "AB " + Join(["CD "]);
  }

  // ---------------------------------------------------------------------------
  // wl_log_dump

  /** `snprintf(header, 128, "(%u)[DUMP][%s]:\n", get_millis(), tag)` */
  function DumpHeader(millis: u32, tag: string): string
  {
    Prefix("(" + Decimal(millis) + ")[DUMP][" + tag + "]:\n", HeaderLimit)
  }

  /** `snprintf(dump_line, 128, "\n%04X: ", (unsigned int)i)` */
  function OffsetLabel(offset: nat): string
  {
    "\n" + HexPadded(offset % 0x1_0000_0000, 4) + ": "
  }

  /** The strings the dump loop hands to log_output for the byte at `offset`. */
  function DumpPiece(offset: nat, b: byte): seq<string>
  {
    if offset % DumpRowLength == 0 then [OffsetLabel(offset), HexByte(b)] else [HexByte(b)]
  }

  function DumpPieces(bytes: seq<byte>, offset: nat): seq<string>
    decreases |bytes|
  {
    if bytes == [] then [] else DumpPiece(offset, bytes[0]) + DumpPieces(bytes[1..], offset + 1)
  }

  /** Everything wl_log_dump hands to log_output, one string per call. */
  function DumpSegments(millis: u32, tag: string, bytes: seq<byte>): seq<string>
  {
    [DumpHeader(millis, tag)] + DumpPieces(bytes, DumpStart) + ["\n"]
  }

  /** A classic hex dump, row by row: each row of up to 16 bytes starts on a new
      line with its offset in four hex digits, then the row's bytes. */
  function DumpRows(bytes: seq<byte>, offset: nat): string
    decreases |bytes|
  {
    if bytes == [] then ""
    else
      var n := Min(|bytes|, DumpRowLength);
      OffsetLabel(offset) + Join(HexPieces(bytes[..n])) + DumpRows(bytes[n..], offset + n)
  }

  /** The dump loop emits pieces at the end of what it has emitted so far. */
  lemma {:induction false} DumpPiecesSnoc(bytes: seq<byte>, b: byte, offset: nat)
    ensures DumpPieces(bytes + [b], offset) == DumpPieces(bytes, offset) + DumpPiece(offset + |bytes|, b)
    decreases |bytes|
  {
    if bytes == [] {
      assert DumpPieces([b], offset) == DumpPiece(offset, b) + DumpPieces([], offset + 1);
    } else {
      assert (bytes + [b])[1..] == bytes[1..] + [b];
      DumpPiecesSnoc(bytes[1..], b, offset + 1);
    }
  }

  lemma {:induction false} DumpPiecesAppend(a: seq<byte>, b: seq<byte>, offset: nat)
    ensures DumpPieces(a + b, offset) == DumpPieces(a, offset) + DumpPieces(b, offset + |a|)
    decreases |a|
  {
    if a == [] {
      assert a + b == b;
    } else {
      var ab := a + b;
      assert ab[0] == a[0] && ab[1..] == a[1..] + b;
      var head := DumpPiece(offset, a[0]);
      var restA := DumpPieces(a[1..], offset + 1);
      var restB := DumpPieces(b, offset + 1 + |a[1..]|);
      assert DumpPieces(ab, offset) == head + DumpPieces(a[1..] + b, offset + 1);
      DumpPiecesAppend(a[1..], b, offset + 1);
      assert DumpPieces(a, offset) == head + restA;
      assert offset + 1 + |a[1..]| == offset + |a|;
      Associative(head, restA, restB);
    }
  }

  /** What the dump loop writes for one byte. */
  lemma DumpPieceText(offset: nat, b: byte)
    ensures offset % DumpRowLength == 0 ==> Join(DumpPiece(offset, b)) == OffsetLabel(offset) + HexByte(b)
    ensures offset % DumpRowLength != 0 ==> Join(DumpPiece(offset, b)) == HexByte(b)
  {
    JoinPair(OffsetLabel(offset), HexByte(b));
  }

  /** The dump loop's output grows, per byte, by the offset label when the
      byte starts a row, then the byte's "XX " group. */
  lemma DumpJoinSnoc(bytes: seq<byte>, b: byte, offset: nat)
    ensures (offset + |bytes|) % DumpRowLength == 0 ==>
              Join(DumpPieces(bytes + [b], offset))
              == Join(DumpPieces(bytes, offset)) + (OffsetLabel(offset + |bytes|) + HexByte(b))
    ensures (offset + |bytes|) % DumpRowLength != 0 ==>
              Join(DumpPieces(bytes + [b], offset)) == Join(DumpPieces(bytes, offset)) + HexByte(b)
  {
    DumpPiecesSnoc(bytes, b, offset);
    DumpPieceText(offset + |bytes|, b);
    if (offset + |bytes|) % DumpRowLength == 0 {
      JoinAfter(DumpPieces(bytes, offset), DumpPiece(offset + |bytes|, b), OffsetLabel(offset + |bytes|) + HexByte(b));
    } else {
      JoinAfter(DumpPieces(bytes, offset), DumpPiece(offset + |bytes|, b), HexByte(b));
    }
  }

  /** One more byte of the dump loop, over a prefix of the buffer. */
  lemma DumpPrefixStep(bytes: seq<byte>, i: nat)
    requires i < |bytes|
    ensures Join(DumpPieces(bytes[..i + 1], DumpStart))
         == Join(DumpPieces(bytes[..i], DumpStart)) + Join(DumpPiece(i, bytes[i]))
  {
    assert bytes[..i + 1] == bytes[..i] + [bytes[i]];
    DumpPiecesSnoc(bytes[..i], bytes[i], DumpStart);
    JoinAppend(DumpPieces(bytes[..i], DumpStart), DumpPiece(i, bytes[i]));
  }

  lemma NextInRow(offset: nat)
    requires offset % DumpRowLength < DumpRowLength - 1
    ensures (offset + 1) % DumpRowLength == offset % DumpRowLength + 1
  {
  }

  /** Inside a row no offset label is emitted. */
  lemma {:induction false} DumpInsideRow(bytes: seq<byte>, offset: nat)
    requires offset % DumpRowLength != 0
    requires offset % DumpRowLength + |bytes| <= DumpRowLength
    ensures Join(DumpPieces(bytes, offset)) == Join(HexPieces(bytes))
    decreases |bytes|
  {
    if bytes != [] {
      var rest := bytes[1..];
      assert DumpPieces(bytes, offset) == [HexByte(bytes[0])] + DumpPieces(rest, offset + 1);
      assert HexPieces(bytes) == [HexByte(bytes[0])] + HexPieces(rest);
      JoinAppend([HexByte(bytes[0])], HexPieces(rest));
      JoinAppend([HexByte(bytes[0])], DumpPieces(rest, offset + 1));
      if rest != [] {
        NextInRow(offset);
        DumpInsideRow(rest, offset + 1);
      }
    }
  }

  /** The first row of a dump: its offset label, then its bytes. */
  lemma DumpRow(row: seq<byte>, offset: nat)
    requires offset % DumpRowLength == 0 && 1 <= |row| <= DumpRowLength
    ensures Join(DumpPieces(row, offset)) == OffsetLabel(offset) + Join(HexPieces(row))
  {
    var tail := DumpPieces(row[1..], offset + 1);
    assert DumpPieces(row, offset) == [OffsetLabel(offset), HexByte(row[0])] + tail;
    JoinAppend([OffsetLabel(offset), HexByte(row[0])], tail);
    assert Join([OffsetLabel(offset), HexByte(row[0])]) == OffsetLabel(offset) + HexByte(row[0]);
    if |row| > 1 {
      NextInRow(offset);
      DumpInsideRow(row[1..], offset + 1);
    }
    assert HexPieces(row) == [HexByte(row[0])] + HexPieces(row[1..]);
    JoinAppend([HexByte(row[0])], HexPieces(row[1..]));
  }

  lemma NextRow(offset: nat)
    requires offset % DumpRowLength == 0
    ensures (offset + DumpRowLength) % DumpRowLength == 0
  {
  }

  /** The byte-by-byte loop of wl_log_dump produces exactly the row-by-row dump. */
  lemma {:induction false} DumpIsRows(bytes: seq<byte>, offset: nat)
    requires offset % DumpRowLength == 0
    ensures Join(DumpPieces(bytes, offset)) == DumpRows(bytes, offset)
    decreases |bytes|
  {
    if bytes != [] {
      var n := Min(|bytes|, DumpRowLength);
      var row, rest := bytes[..n], bytes[n..];
      assert bytes == row + rest;
      var first, others := DumpPieces(row, offset), DumpPieces(rest, offset + n);
      DumpPiecesAppend(row, rest, offset);
      JoinAppend(first, others);
      assert Join(DumpPieces(bytes, offset)) == Join(first) + Join(others);
      DumpRow(row, offset);
      if rest != [] {
        assert n == DumpRowLength;
        NextRow(offset);
        DumpIsRows(rest, offset + n);
      }
      assert Join(others) == DumpRows(rest, offset + n);
      assert DumpRows(bytes, offset) == OffsetLabel(offset) + Join(HexPieces(row)) + DumpRows(rest, offset + n);
    }
  }

  /** The text of a dump is the header, the pieces in order, then the newline. */
  lemma DumpText(millis: u32, tag: string, bytes: seq<byte>)
    ensures Join(DumpSegments(millis, tag, bytes)) == DumpHeader(millis, tag) + Join(DumpPieces(bytes, DumpStart)) + "\n"
  {
    JoinAppend([DumpHeader(millis, tag)] + DumpPieces(bytes, DumpStart), ["\n"]);
    JoinAppend([DumpHeader(millis, tag)], DumpPieces(bytes, DumpStart));
    JoinPair(DumpHeader(millis, tag), "\n");
  }

  /** The whole dump: header, rows, then the final newline. */
  lemma DumpShape(millis: u32, tag: string, bytes: seq<byte>)
    ensures Join(DumpSegments(millis, tag, bytes)) == DumpHeader(millis, tag) + DumpRows(bytes, DumpStart) + "\n"
    ensures |tag| <= 105 ==> DumpHeader(millis, tag) == "(" + Decimal(millis) + ")[DUMP][" + tag + "]:\n"
  {
    DumpText(millis, tag, bytes);
    DumpIsRows(bytes, DumpStart);
    DecimalWidth(millis);
  }

  /** An offset label is a newline, at least four hexadecimal digits that read
      back as the offset modulo 2^32 (the cast to unsigned int), then ": ";
      below 0x10000 the digits are exactly four. */
  lemma OffsetLabelRoundTrip(offset: nat)
    ensures var text := OffsetLabel(offset);
            && |text| >= 7 && text[0] == '\n' && text[|text| - 2..] == ": "
            && AllDigits(text[1..|text| - 2], 16)
            && DigitsValue(text[1..|text| - 2], 16) == offset % 0x1_0000_0000
            && (offset < 0x1_0000 ==> |text| == 7)
  {
    var text := OffsetLabel(offset);
    var digits := HexPadded(offset % 0x1_0000_0000, 4);
    assert text == "\n" + digits + ": ";
    HexPaddedRoundTrip(offset % 0x1_0000_0000, 4);
    if offset < 0x1_0000 {
      assert Pow16(4) == 0x1_0000 by {
        assert Pow16(2) == 0x100;
      }
      HexPaddedWidth(offset, 4);
      assert |digits| == 4;
    }
    assert text[1..|text| - 2] == digits;
  }
}
