/** LSP messages on a byte stream (src/lsp/comms.cpp): Base Protocol of LSP 3.16, Header Part and Content Part. */
module Framing {
  import opened Bytes

  const LF: byte := 10
  const CR: byte := 13
  const COLON: byte := 58
  const ZERO: byte := 48
  const SIZE_LIMIT: nat := 0x1_0000_0000_0000_0000 // one more than the largest size_t

  function Ascii(s: string): ByteString
    requires forall i :: 0 <= i < |s| ==> s[i] < 128 as char
  {
    seq(|s|, i requires 0 <= i < |s| => s[i] as int)
  }

  const CONTENT_LENGTH: ByteString := Ascii("content-length")
  const CONTENT_LENGTH_AS_SENT: ByteString := Ascii("Content-Length")

  // ----- What the C++ library does with bytes -----

  function Find(s: ByteString, b: byte): (k: nat)
    ensures k <= |s| && (k < |s| ==> s[k] == b)
    ensures forall i :: 0 <= i < k ==> s[i] != b
  {
    if s == [] || s[0] == b then 0 else 1 + Find(s[1..], b)
  }

  // std::isspace in the "C" locale.
  predicate IsSpace(b: byte) {
    b == 32 || 9 <= b <= 13
  }

  predicate IsDigit(b: byte) {
    ZERO <= b <= 57
  }

  // std::tolower in the "C" locale.
  function Lower(b: byte): byte {
    if 65 <= b <= 90 then b + 32 else b
  }

  function Lowered(s: ByteString): (r: ByteString)
    ensures |r| == |s|
  {
    seq(|s|, i requires 0 <= i < |s| => Lower(s[i]))
  }

  function StripCr(line: ByteString): ByteString {
    if line != [] && line[|line| - 1] == CR then StripCr(line[..|line| - 1]) else line
  }

  function SkipSpace(line: ByteString): ByteString {
    if line != [] && IsSpace(line[0]) then SkipSpace(line[1..]) else line
  }

  function LeadingDigits(s: ByteString): (d: ByteString)
    ensures |d| <= |s| && d == s[..|d|]
    ensures forall i :: 0 <= i < |d| ==> IsDigit(d[i])
  {
    if s == [] || !IsDigit(s[0]) then [] else [s[0]] + LeadingDigits(s[1..])
  }

  function DigitsValue(d: ByteString): nat
    requires forall i :: 0 <= i < |d| ==> IsDigit(d[i])
  {
    if d == [] then 0 else assert IsDigit(d[|d| - 1]); 10 * DigitsValue(d[..|d| - 1]) + (d[|d| - 1] - ZERO)
  }

  // std::from_chars into a size_t: the leading digits, if any, unless their value is out of range.
  function FromChars(s: ByteString): Option<nat> {
    var d := LeadingDigits(s);
    if d == [] || DigitsValue(d) >= SIZE_LIMIT then None else Some(DigitsValue(d))
  }

  // operator<< of a size_t.
  function Decimal(n: nat): (d: ByteString)
    ensures d != [] && forall i :: 0 <= i < |d| ==> IsDigit(d[i])
  {
    if n < 10 then [ZERO + n] else Decimal(n / 10) + [ZERO + n % 10]
  }

  // ----- Reading a stream, as a function of all its bytes -----

  // What one header line (with its line end stripped) does to the content length read so far.
  datatype LineOutcome = Continue(length: nat) | EndOfHeaders(length: nat)

  function HeaderLine(line: ByteString, length: nat): LineOutcome {
    if line == [] then EndOfHeaders(length)
    else
      var colon := Find(line, COLON);
      if colon == |line| || Lowered(line[..colon]) != CONTENT_LENGTH then Continue(length)
      else
        var value := SkipSpace(line[colon + 1..]);
        if value == [] then EndOfHeaders(length)
        else match FromChars(value)
          case None => EndOfHeaders(length)
          case Some(n) => Continue(n)
  }

  // The headers of a frame and what follows them; if the stream ends first, the line it ends in.
  datatype Headers = NoHeaders(unread: ByteString) | Headers(length: nat, rest: ByteString)

  function ReadHeaders(s: ByteString, length: nat): (h: Headers)
    ensures h.Headers? ==> |h.rest| < |s|
    decreases |s|
  {
    var k := Find(s, LF);
    if k == |s| then NoHeaders(s)
    else match HeaderLine(StripCr(s[..k]), length)
      case Continue(n) => ReadHeaders(s[k + 1..], n)
      case EndOfHeaders(n) => Headers(n, s[k + 1..])
  }

  datatype ReadResult = Pending(unread: ByteString) | Message(body: ByteString, rest: ByteString)

  // The first message of a stream, and what follows it; if the stream ends first, the line or body it ends in.
  function ReadOne(s: ByteString): (r: ReadResult)
    ensures r.Message? ==> |r.rest| < |s| && r.body != []
    decreases |s|, 1
  {
    AfterHeaders(ReadHeaders(s, 0), |s|)
  }

  // A content length of zero is taken for an error: reading starts over.
  function AfterHeaders(h: Headers, bound: nat): (r: ReadResult)
    requires h.Headers? ==> |h.rest| < bound
    ensures r.Message? ==> |r.rest| < bound && r.body != []
    decreases bound, 0
  {
    match h
    case NoHeaders(unread) => Pending(unread)
    case Headers(length, rest) =>
      if length == 0 then ReadOne(rest)
      else if |rest| < length then Pending(rest)
      else Message(rest[..length], rest[length..])
  }

  // All the messages of a stream, and the bytes after the last one.
  function ReadAll(s: ByteString): (seq<ByteString>, ByteString)
    decreases |s|
  {
    match ReadOne(s)
    case Pending(_) => ([], s)
    case Message(body, rest) =>
      var (bodies, over) := ReadAll(rest);
      ([body] + bodies, over)
  }

  // What a reader leaves of the bytes after the last message: their last line or body, which is incomplete.
  function Unread(s: ByteString): ByteString {
    var r := ReadOne(s);
    if r.Pending? then r.unread else s
  }

  // ----- The buffered reader -----

  class MessageReader {
    var buf: ByteString
    var pipe: seq<ByteString> // the chunks the pipe has yet to deliver

    ghost predicate Valid()
      reads this
    {
      forall i :: 0 <= i < |pipe| ==> pipe[i] != []
    }

    function Remaining(): ByteString
      reads this
    {
      buf + Flatten(pipe)
    }

    constructor (chunks: seq<ByteString>)
      requires forall i :: 0 <= i < |chunks| ==> chunks[i] != []
      ensures Valid() && Remaining() == Flatten(chunks)
    {
      buf, pipe := [], chunks;
    }

    // One read from the pipe into the buffer: at most `limit` bytes of what the next chunk brings.
    method ReadSome(limit: nat)
      requires Valid() && pipe != [] && limit > 0
      modifies this
      ensures Valid() && Remaining() == old(Remaining())
      ensures |old(buf)| < |buf| <= |old(buf)| + limit && old(buf) <= buf
    {
      ghost var before := Remaining();
      var chunk, rest := pipe[0], pipe[1..];
      if |chunk| <= limit {
        assert before == (buf + chunk) + Flatten(rest);
        buf, pipe := buf + chunk, rest;
      } else {
        var left := [chunk[limit..]] + rest;
        assert Flatten(left) == chunk[limit..] + Flatten(rest);
        assert chunk == chunk[..limit] + chunk[limit..];
        assert before == (buf + chunk[..limit]) + Flatten(left);
        buf, pipe := buf + chunk[..limit], left;
      }
    }

    // async_read_until: buffers a whole line, and perhaps more; `bytesRead` counts the line with its end.
    method ReadUntilNewline() returns (bytesRead: nat)
      requires Valid()
      modifies this
      ensures Valid() && Remaining() == old(Remaining())
      ensures bytesRead == 0 ==> pipe == [] && Find(Remaining(), LF) == |Remaining()|
      ensures bytesRead > 0 ==> bytesRead <= |buf| && Find(Remaining(), LF) == bytesRead - 1
    {
      var k := Find(buf, LF);
      while k == |buf| && pipe != []
        invariant Valid() && Remaining() == old(Remaining())
        invariant k == Find(buf, LF)
        decreases |Remaining()| - |buf|
      {
        ReadSome(|pipe[0]|);
        k := Find(buf, LF);
      }
      if k < |buf| {
        FindIs(Remaining(), LF, k);
        return k + 1;
      }
      assert Remaining() == buf;
      return 0;
    }

    // async_read with transfer_exactly, repeated until the buffer holds `length` bytes.
    method ReadExactly(length: nat)
      requires Valid()
      modifies this
      ensures Valid() && Remaining() == old(Remaining())
      ensures |buf| >= length || pipe == []
    {
      while |buf| < length && pipe != []
        invariant Valid() && Remaining() == old(Remaining())
        decreases |Remaining()| - |buf|
      {
        ReadSome(length - |buf|);
      }
    }

    method Consume(n: nat)
      requires Valid() && n <= |buf|
      modifies this
      ensures Valid() && pipe == old(pipe) && Remaining() == old(Remaining())[n..] && buf == old(buf)[n..]
    {
      assert (buf + Flatten(pipe))[n..] == buf[n..] + Flatten(pipe);
      buf := buf[n..];
    }

    // The loop over header lines; None when the stream ends in it.
    method ReadHeaderLines() returns (contentLength: Option<nat>)
      requires Valid()
      modifies this
      ensures Valid()
      ensures match ReadHeaders(old(Remaining()), 0)
              case NoHeaders(unread) => contentLength == None && pipe == [] && buf == unread
              case Headers(n, rest) => contentLength == Some(n) && Remaining() == rest
    {
      var length := 0;
      while true
        invariant Valid()
        invariant ReadHeaders(old(Remaining()), 0) == ReadHeaders(Remaining(), length)
        decreases |Remaining()|
      {
        var bytesRead := ReadUntilNewline();
        if bytesRead == 0 {
          return None;
        }
        assert Remaining()[..bytesRead - 1] == buf[..bytesRead - 1];
        var line := buf[..bytesRead - 1];
        ghost var stripped := StripCr(line);
        Consume(bytesRead);
        while |line| > 0 && line[|line| - 1] == CR
          invariant StripCr(line) == stripped
        {
          line := line[..|line| - 1];
        }
        if line == [] {
          return Some(length);
        }
        var colon := Find(line, COLON);
        if colon != |line| {
          if Lowered(line[..colon]) != CONTENT_LENGTH {
            continue;
          }
          var value := SkipSpace(line[colon + 1..]);
          if value == [] {
            return Some(length);
          }
          var parsed := FromChars(value);
          if parsed.None? {
            return Some(length);
          }
          length := parsed.value;
        }
      }
    }

    /** read_message, up to its next yield: the first message of the remaining bytes, however they are chunked. */
    method NextMessage() returns (message: Option<ByteString>)
      requires Valid()
      modifies this
      ensures Valid()
      ensures match ReadOne(old(Remaining()))
              case Pending(unread) => message == None && pipe == [] && buf == unread
              case Message(body, rest) => message == Some(body) && Remaining() == rest
    {
      while true
        invariant Valid()
        invariant ReadOne(old(Remaining())) == ReadOne(Remaining())
        decreases |Remaining()|
      {
        var length := ReadHeaderLines();
        if length.None? {
          return None;
        }
        if length.value == 0 {
          continue;
        }
        ReadExactly(length.value);
        if |buf| < length.value {
          assert Remaining() == buf;
          return None;
        }
        assert Remaining()[..length.value] == buf[..length.value];
        message := Some(buf[..length.value]);
        Consume(length.value);
        return;
      }
    }

    /** Resuming the generator until the stream ends yields the messages of the stream, and leaves nothing in the
        pipe and, of the bytes after the last message, the incomplete line or body in the buffer. */
    method Drain() returns (messages: seq<ByteString>)
      requires Valid()
      modifies this
      ensures Valid() && pipe == []
      ensures var (bodies, over) := ReadAll(old(Remaining())); messages == bodies && buf == Unread(over)
    {
      messages := [];
      while true
        invariant Valid()
        invariant ReadAll(old(Remaining())).0 == messages + ReadAll(Remaining()).0
        invariant ReadAll(old(Remaining())).1 == ReadAll(Remaining()).1
        decreases |Remaining()|
      {
        ghost var here := ReadAll(Remaining()).0;
        var message := NextMessage();
        if message.None? {
          assert messages + [] == messages;
          return;
        }
        assert here == [message.value] + ReadAll(Remaining()).0;
        assert messages + here == (messages + [message.value]) + ReadAll(Remaining()).0;
        messages := messages + [message.value];
      }
    }
  }

  lemma {:induction false} FindIs(s: ByteString, b: byte, k: nat)
    requires k < |s| && s[k] == b && forall i :: 0 <= i < k ==> s[i] != b
    ensures Find(s, b) == k
  {
    if k == 0 {
    } else {
      FindIs(s[1..], b, k - 1);
    }
  }

  // ----- The printer -----

  function Frame(data: ByteString): ByteString {
    CONTENT_LENGTH_AS_SENT + [COLON, 32] + Decimal(|data|) + [CR, LF, CR, LF] + data
  }

  lemma HeaderSpelled()
    ensures CONTENT_LENGTH_AS_SENT + [COLON, 32] == Ascii("Content-Length: ")
    ensures [CR, LF, CR, LF] == Ascii("\r\n\r\n")
  {
    assert forall i :: 0 <= i < 14 ==> "Content-Length: "[i] == "Content-Length"[i];
    assert "Content-Length: "[14] == ':' && "Content-Length: "[15] == ' ';
  }

  /** The bytes of a frame. */
  lemma FrameSpelled(data: ByteString)
    ensures Frame(data) == Ascii("Content-Length: ") + Decimal(|data|) + Ascii("\r\n\r\n") + data
  {
    HeaderSpelled();
  }

  class MessageWriter {
    var sent: ByteString

    constructor ()
      ensures sent == []
    {
      sent := [];
    }

    /** send_message, for a message already dumped. */
    method SendMessage(data: ByteString)
      modifies this
      ensures sent == old(sent) + Frame(data)
    {
      var buf := CONTENT_LENGTH_AS_SENT + [COLON, 32];
      buf := buf + Decimal(|data|);
      buf := buf + [CR, LF, CR, LF];
      buf := buf + data;
      sent := sent + buf;
    }
  }

  // ----- Packets: frames as other programs may write them -----

  // A frame with blank lines before it, other header lines around the length, and any number of CRs at line ends.
  datatype Packet = Packet(
    blanks: seq<ByteString>,
    before: seq<ByteString>,
    name: ByteString,
    spaces: ByteString,
    after: seq<ByteString>,
    ending: ByteString,
    body: ByteString)

  predicate OnlyCr(s: ByteString) {
    forall i :: 0 <= i < |s| ==> s[i] == CR
  }

  // A line that is neither blank nor names the content length.
  predicate IsOtherHeader(line: ByteString) {
    && LF !in line && !OnlyCr(line)
    && var l := StripCr(line);
       var colon := Find(l, COLON);
       colon == |l| || !NamesLength(l[..colon])
  }

  // The name of the length header, every byte of it in either case.
  predicate NamesLength(name: ByteString) {
    var lower, upper := Ascii("content-length"), Ascii("CONTENT-LENGTH");
    |name| == |lower| && forall i :: 0 <= i < |name| ==> name[i] == lower[i] || name[i] == upper[i]
  }

  // Tabs, vertical tabs, form feeds, CRs and spaces.
  predicate OnlySpaces(s: ByteString) {
    forall i :: 0 <= i < |s| ==> s[i] == 9 || s[i] == 11 || s[i] == 12 || s[i] == 13 || s[i] == 32
  }

  // A packet whose length is announced: its body may be empty.
  predicate IsFramed(p: Packet) {
    && (forall i :: 0 <= i < |p.blanks| ==> OnlyCr(p.blanks[i]))
    && (forall i :: 0 <= i < |p.before| ==> IsOtherHeader(p.before[i]))
    && NamesLength(p.name) && OnlySpaces(p.spaces)
    && (forall i :: 0 <= i < |p.after| ==> IsOtherHeader(p.after[i]))
    && OnlyCr(p.ending)
    && |p.body| < 0x1_0000_0000_0000_0000 // 2^64
  }

  predicate IsPacket(p: Packet) {
    IsFramed(p) && p.body != []
  }

  function Lines(lines: seq<ByteString>): ByteString {
    if lines == [] then [] else lines[0] + [LF] + Lines(lines[1..])
  }

  function LengthLine(p: Packet): ByteString {
    p.name + [COLON] + p.spaces + Decimal(|p.body|) + p.ending
  }

  function Wire(p: Packet): ByteString {
    Lines(p.blanks) + (Lines(p.before) + (LengthLine(p) + [LF] + (Lines(p.after) + (p.ending + [LF] + p.body))))
  }

  function PlainPacket(data: ByteString): Packet {
    Packet([], [], CONTENT_LENGTH_AS_SENT, [32], [], [CR], data)
  }

  lemma SentNamesLength()
    ensures NamesLength(CONTENT_LENGTH_AS_SENT)
  {
  }

  lemma FrameIsPacket(data: ByteString)
    requires 0 < |data| < 0x1_0000_0000_0000_0000
    ensures IsPacket(PlainPacket(data)) && Frame(data) == Wire(PlainPacket(data))
  {
    SentNamesLength();
    PlainWire(data);
  }

  lemma PlainWire(data: ByteString)
    ensures Frame(data) == Wire(PlainPacket(data))
  {
    assert Lines([]) == [];
    var digits := Decimal(|data|);
    assert Wire(PlainPacket(data)) == LengthLine(PlainPacket(data)) + [LF] + ([CR] + [LF] + data);
  }

  // ----- Reading back what was printed -----

  // A line of the stream, then the rest of it.
  lemma ReadLine(line: ByteString, s: ByteString, length: nat)
    requires LF !in line
    ensures ReadHeaders(line + [LF] + s, length) ==
            var outcome := HeaderLine(StripCr(line), length);
            if outcome.Continue? then ReadHeaders(s, outcome.length) else Headers(outcome.length, s)
  {
    var all := line + [LF] + s;
    FindIs(all, LF, |line|);
    assert all[..|line|] == line && all[|line| + 1..] == s;
  }

  lemma {:induction false} StripOnlyCr(line: ByteString, ending: ByteString)
    requires OnlyCr(ending)
    ensures StripCr(line + ending) == StripCr(line)
  {
    if ending == [] {
      assert line + ending == line;
    } else {
      assert (line + ending)[..|line + ending| - 1] == line + ending[..|ending| - 1];
      StripOnlyCr(line, ending[..|ending| - 1]);
    }
  }

  lemma BlankStripped(blank: ByteString)
    requires OnlyCr(blank)
    ensures StripCr(blank) == [] && LF !in blank
  {
    StripOnlyCr([], blank);
    assert [] + blank == blank;
  }

  lemma {:induction false} NotBlankStripped(line: ByteString)
    requires !OnlyCr(line)
    ensures StripCr(line) != []
  {
    if line[|line| - 1] != CR {
    } else {
      assert OnlyCr(line[..|line| - 1]) ==> OnlyCr(line);
      NotBlankStripped(line[..|line| - 1]);
    }
  }

  lemma {:induction false} SkipBlanks(blanks: seq<ByteString>, s: ByteString)
    requires forall i :: 0 <= i < |blanks| ==> OnlyCr(blanks[i])
    ensures ReadOne(Lines(blanks) + s) == ReadOne(s)
  {
    if blanks == [] {
      assert Lines(blanks) + s == s;
    } else {
      BlankStripped(blanks[0]);
      var rest := Lines(blanks[1..]) + s;
      assert Lines(blanks) + s == blanks[0] + [LF] + rest;
      ReadLine(blanks[0], rest, 0);
      SkipBlanks(blanks[1..], s);
    }
  }

  /** The name is compared in any case. */
  lemma NameInAnyCase(name: ByteString)
    ensures Lowered(name) == CONTENT_LENGTH <==> NamesLength(name)
  {
    if |name| == |CONTENT_LENGTH| {
      forall i | 0 <= i < |name|
        ensures Lower(name[i]) == CONTENT_LENGTH[i] <==>
                name[i] == Ascii("content-length")[i] || name[i] == Ascii("CONTENT-LENGTH")[i]
      {
        NameByte(i, name[i]);
      }
      if Lowered(name) == CONTENT_LENGTH {
        assert forall i :: 0 <= i < |name| ==> Lower(name[i]) == Lowered(name)[i];
      }
    }
  }

  lemma NameByte(i: nat, b: byte)
    requires i < |CONTENT_LENGTH|
    ensures Lower(b) == CONTENT_LENGTH[i] <==> b == Ascii("content-length")[i] || b == Ascii("CONTENT-LENGTH")[i]
    ensures Lower(b) == CONTENT_LENGTH[i] ==> b != COLON && b != LF
  {
    assert "content-length"[i] as int == CONTENT_LENGTH[i];
  }

  lemma NameBytes(name: ByteString)
    requires NamesLength(name)
    ensures Lowered(name) == CONTENT_LENGTH && COLON !in name && LF !in name
  {
    NameInAnyCase(name);
    forall i | 0 <= i < |name| ensures name[i] != COLON && name[i] != LF {
      assert Lowered(name)[i] == Lower(name[i]);
      NameByte(i, name[i]);
    }
  }

  lemma OtherContinues(line: ByteString, length: nat)
    requires IsOtherHeader(line)
    ensures LF !in line && HeaderLine(StripCr(line), length) == Continue(length)
  {
    NotBlankStripped(line);
    var l := StripCr(line);
    NameInAnyCase(l[..Find(l, COLON)]);
  }

  lemma {:induction false} SkipOthers(lines: seq<ByteString>, s: ByteString, length: nat)
    requires forall i :: 0 <= i < |lines| ==> IsOtherHeader(lines[i])
    ensures ReadHeaders(Lines(lines) + s, length) == ReadHeaders(s, length)
  {
    if lines == [] {
      assert Lines(lines) + s == s;
    } else {
      OtherContinues(lines[0], length);
      var rest := Lines(lines[1..]) + s;
      assert Lines(lines) + s == lines[0] + [LF] + rest;
      ReadLine(lines[0], rest, length);
      SkipOthers(lines[1..], s, length);
    }
  }

  function PowerOfTen(k: nat): nat {
    if k == 0 then 1 else 10 * PowerOfTen(k - 1)
  }

  /** A number is printed in base ten, without leading zeros. */
  lemma {:induction false} DecimalLength(n: nat)
    requires n > 0
    ensures var d := Decimal(n); PowerOfTen(|d| - 1) <= n < PowerOfTen(|d|) && d[0] != 48
  {
    if n < 10 {
      assert PowerOfTen(1) == 10 * PowerOfTen(0);
    } else {
      DecimalLength(n / 10);
    }
  }

  lemma {:induction false} DecimalValue(n: nat)
    ensures DigitsValue(Decimal(n)) == n
  {
    if n < 10 {
    } else {
      var d := Decimal(n);
      assert d[..|d| - 1] == Decimal(n / 10) && d[|d| - 1] == ZERO + n % 10;
      DecimalValue(n / 10);
    }
  }

  lemma {:induction false} AllLeadingDigits(d: ByteString)
    requires forall i :: 0 <= i < |d| ==> IsDigit(d[i])
    ensures LeadingDigits(d) == d
  {
    if d == [] {
    } else {
      AllLeadingDigits(d[1..]);
    }
  }

  /** Parsing a printed size gives it back. */
  lemma FromCharsDecimal(n: nat)
    requires n < SIZE_LIMIT
    ensures FromChars(Decimal(n)) == Some(n)
  {
    AllLeadingDigits(Decimal(n));
    DecimalValue(n);
  }

  lemma {:induction false} SkipSpaces(spaces: ByteString, value: ByteString)
    requires forall i :: 0 <= i < |spaces| ==> IsSpace(spaces[i])
    requires value != [] && !IsSpace(value[0])
    ensures SkipSpace(spaces + value) == value
  {
    if spaces == [] {
      assert spaces + value == value;
    } else {
      assert (spaces + value)[1..] == spaces[1..] + value;
      SkipSpaces(spaces[1..], value);
    }
  }

  /** The length line, in any case and with any white space, announces the length of the body. */
  lemma LengthLineRead(p: Packet, length: nat)
    requires IsFramed(p)
    ensures LF !in LengthLine(p)
    ensures HeaderLine(StripCr(LengthLine(p)), length) == Continue(|p.body|)
  {
    NameBytes(p.name);
    var digits := Decimal(|p.body|);
    var line := p.name + [COLON] + p.spaces + digits;
    assert line[|line| - 1] == digits[|digits| - 1];
    StripOnlyCr(line, p.ending);
    assert StripCr(LengthLine(p)) == line;
    FindIs(line, COLON, |p.name|);
    assert line[..|p.name|] == p.name && line[|p.name| + 1..] == p.spaces + digits;
    SkipSpaces(p.spaces, digits);
    FromCharsDecimal(|p.body|);
  }

  // The header of a framed packet, whatever follows it.
  lemma ReadFramed(p: Packet, rest: ByteString)
    requires IsFramed(p)
    ensures ReadOne(Wire(p) + rest) ==
            if p.body == [] then ReadOne(rest) else Message(p.body, rest)
  {
    var last := p.body + rest;
    var tail := p.ending + [LF] + last;
    var middle := LengthLine(p) + [LF] + (Lines(p.after) + tail);
    WireFollowed(p, rest);
    SkipBlanks(p.blanks, Lines(p.before) + middle);
    SkipOthers(p.before, middle, 0);
    LengthLineRead(p, 0);
    ReadLine(LengthLine(p), Lines(p.after) + tail, 0);
    SkipOthers(p.after, tail, |p.body|);
    BlankStripped(p.ending);
    ReadLine(p.ending, last, |p.body|);
    assert last[..|p.body|] == p.body && last[|p.body|..] == rest;
  }

  /** Reading a packet yields its body and leaves exactly what follows it. */
  lemma ReadPacket(p: Packet, rest: ByteString)
    requires IsPacket(p)
    ensures ReadOne(Wire(p) + rest) == Message(p.body, rest)
  {
    ReadFramed(p, rest);
  }

  /** A packet that announces no bytes is taken for an error, and skipped. */
  lemma SkipEmptyPacket(p: Packet, rest: ByteString)
    requires IsFramed(p) && p.body == []
    ensures ReadOne(Wire(p) + rest) == ReadOne(rest)
  {
    ReadFramed(p, rest);
  }

  // A value that is no length: it is empty, does not begin with a digit, or has the digits of a number too large.
  predicate IsBadLength(value: ByteString) {
    || value == []
    || (!IsSpace(value[0]) && !(48 <= value[0] <= 57))
    || (48 <= value[0] <= 57 && DigitsValue(LeadingDigits(value)) >= 0x1_0000_0000_0000_0000)
  }

  /** A length that cannot be parsed ends the headers then and there, and reading starts over after its line. */
  lemma SkipBadLength(before: seq<ByteString>, name: ByteString, value: ByteString, ending: ByteString, s: ByteString)
    requires forall i :: 0 <= i < |before| ==> IsOtherHeader(before[i])
    requires NamesLength(name) && IsBadLength(value) && OnlyCr(ending)
    requires LF !in value && (value != [] ==> value[|value| - 1] != CR)
    ensures ReadOne(Lines(before) + (name + [COLON] + value + ending + [LF] + s)) == ReadOne(s)
  {
    var line := name + [COLON] + value;
    BadLengthEnds(name, value, 0);
    NameBytes(name);
    StripOnlyCr(line, ending);
    SkipOthers(before, line + ending + [LF] + s, 0);
    ReadLine(line + ending, s, 0);
    assert line + ending + [LF] + s == (line + ending) + [LF] + s;
  }

  lemma BadLengthEnds(name: ByteString, value: ByteString, length: nat)
    requires NamesLength(name) && IsBadLength(value) && (value != [] ==> value[|value| - 1] != CR)
    ensures var line := name + [COLON] + value;
            StripCr(line) == line && HeaderLine(line, length) == EndOfHeaders(length)
  {
    NameBytes(name);
    var line := name + [COLON] + value;
    FindIs(line, COLON, |name|);
    assert line[..|name|] == name && line[|name| + 1..] == value;
    assert value != [] ==> line[|line| - 1] == value[|value| - 1];
  }

  lemma WireFollowed(p: Packet, rest: ByteString)
    ensures Wire(p) + rest ==
            Lines(p.blanks) + (Lines(p.before)
              + (LengthLine(p) + [LF] + (Lines(p.after) + (p.ending + [LF] + (p.body + rest)))))
  {
  }

  function Wires(packets: seq<Packet>): ByteString {
    if packets == [] then [] else Wire(packets[0]) + Wires(packets[1..])
  }

  function Bodies(packets: seq<Packet>): seq<ByteString> {
    if packets == [] then [] else [packets[0].body] + Bodies(packets[1..])
  }

  predicate ArePackets(packets: seq<Packet>) {
    forall i :: 0 <= i < |packets| ==> IsPacket(packets[i])
  }

  /** The messages of any sequence of packets are read back in order, with no byte over. */
  lemma {:induction false} ReadPackets(packets: seq<Packet>)
    requires ArePackets(packets)
    ensures ReadAll(Wires(packets)) == (Bodies(packets), [])
  {
    if packets == [] {
    } else {
      ReadPacket(packets[0], Wires(packets[1..]));
      ReadPackets(packets[1..]);
    }
  }

  function Frames(messages: seq<ByteString>): ByteString {
    if messages == [] then [] else Frame(messages[0]) + Frames(messages[1..])
  }

  function PlainPackets(messages: seq<ByteString>): (packets: seq<Packet>)
    ensures |packets| == |messages|
  {
    seq(|messages|, i requires 0 <= i < |messages| => PlainPacket(messages[i]))
  }

  // Messages send_message can frame: not empty, of a size that fits a size_t.
  predicate Sendable(messages: seq<ByteString>) {
    forall i :: 0 <= i < |messages| ==> 0 < |messages[i]| < 0x1_0000_0000_0000_0000
  }

  /** The frames of any messages are packets with those bodies. */
  lemma {:induction false} FramesArePackets(messages: seq<ByteString>)
    requires Sendable(messages)
    ensures ArePackets(PlainPackets(messages))
    ensures Frames(messages) == Wires(PlainPackets(messages)) && Bodies(PlainPackets(messages)) == messages
  {
    if messages == [] {
    } else {
      assert PlainPackets(messages)[1..] == PlainPackets(messages[1..]);
      FramesArePackets(messages[1..]);
      FrameIsPacket(messages[0]);
      forall i | 0 <= i < |messages| ensures IsPacket(PlainPackets(messages)[i]) {
        FrameIsPacket(messages[i]);
      }
    }
  }

  lemma {:induction false} FramesSnoc(messages: seq<ByteString>, last: ByteString)
    ensures Frames(messages + [last]) == Frames(messages) + Frame(last)
  {
    if messages == [] {
      assert messages + [last] == [last] && Frames([last]) == Frame(last) + Frames([]);
    } else {
      assert (messages + [last])[1..] == messages[1..] + [last];
      FramesSnoc(messages[1..], last);
    }
  }

  lemma Associates(a: ByteString, b: ByteString, c: ByteString)
    ensures a + b + c == a + (b + c)
  {
  }

  method SendAll(writer: MessageWriter, messages: seq<ByteString>)
    modifies writer
    ensures writer.sent == old(writer.sent) + Frames(messages)
  {
    for i := 0 to |messages|
      invariant writer.sent == old(writer.sent) + Frames(messages[..i])
    {
      assert messages[..i + 1] == messages[..i] + [messages[i]];
      FramesSnoc(messages[..i], messages[i]);
      Associates(old(writer.sent), Frames(messages[..i]), Frame(messages[i]));
      writer.SendMessage(messages[i]);
    }
    assert messages[..|messages|] == messages;
  }

  /** Any sequence of packets, delivered in any chunks, is received as its messages, in order, and no byte is left
      in the pipe or in the buffer of the reader. */
  method Receive(ghost packets: seq<Packet>, chunks: seq<ByteString>)
    returns (received: seq<ByteString>, reader: MessageReader)
    requires ArePackets(packets)
    requires forall i :: 0 <= i < |chunks| ==> chunks[i] != []
    requires Flatten(chunks) == Wires(packets)
    ensures received == Bodies(packets)
    ensures reader.pipe == [] && reader.buf == []
  {
    reader := new MessageReader(chunks);
    received := reader.Drain();
    ReadPackets(packets);
  }

  /** In particular what send_message writes for any messages, however the bytes written are cut into chunks. */
  method ReceiveSent(ghost messages: seq<ByteString>, chunks: seq<ByteString>)
    returns (received: seq<ByteString>, reader: MessageReader)
    requires Sendable(messages)
    requires forall i :: 0 <= i < |chunks| ==> chunks[i] != []
    requires Flatten(chunks) == Frames(messages)
    ensures received == messages
    ensures reader.pipe == [] && reader.buf == []
  {
    FramesArePackets(messages);
    received, reader := Receive(PlainPackets(messages), chunks);
  }
}
