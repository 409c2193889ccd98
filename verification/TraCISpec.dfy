/**
 TraCI messages: how the simulator writes them in C++, and how the launch daemon
 parses them in Python.
 */
module TraCISpec {

  type byte = x: int | 0 <= x < 256

  const TWO31 := 0x8000_0000
  const TWO32 := 0x1_0000_0000
  const CMD_FILE_SEND: byte := 0x75
  const RTYPE_OK: byte := 0x00

  // ---------------------------------------------------------------------------
  // Numbers
  // ---------------------------------------------------------------------------

  function Pow256(w: nat): nat { if w == 0 then 1 else 256 * Pow256(w - 1) }

  /** The last `w` bytes of a number, most significant first. */
  function BigEndian(v: nat, w: nat): (bs: seq<byte>)
    ensures |bs| == w
  {
    if w == 0 then [] else BigEndian(v / 256, w - 1) + [v % 256]
  }

  function LittleEndian(v: nat, w: nat): (bs: seq<byte>)
    ensures |bs| == w
  {
    if w == 0 then [] else [v % 256] + LittleEndian(v / 256, w - 1)
  }

  function Value(bs: seq<byte>): nat {
    if bs == [] then 0 else Value(bs[..|bs| - 1]) * 256 + bs[|bs| - 1]
  }

  lemma {:induction false} ValueOfBigEndian(v: nat, w: nat)
    requires v < Pow256(w)
    ensures Value(BigEndian(v, w)) == v
  {
    if w > 0 {
      ValueOfBigEndian(v / 256, w - 1);
      assert BigEndian(v, w)[..w - 1] == BigEndian(v / 256, w - 1);
    }
  }

  /** The same bytes, in opposite order. */
  lemma {:induction false} Reversed(v: nat, w: nat, i: nat)
    requires i < w
    ensures LittleEndian(v, w)[w - 1 - i] == BigEndian(v, w)[i]
  {
    if i < w - 1 {
      Reversed(v / 256, w - 1, i);
    }
  }

  /** How a number lies in the memory of a host. */
  function Memory(v: nat, w: nat, bigEndianHost: bool): seq<byte> {
    if bigEndianHost then BigEndian(v, w) else LittleEndian(v, w)
  }

  /** The number a little-endian host sees in its memory. */
  function LittleValue(bs: seq<byte>): nat {
    if bs == [] then 0 else bs[0] + 256 * LittleValue(bs[1..])
  }

  /** The number a host sees in its memory. */
  function InMemory(bs: seq<byte>, bigEndianHost: bool): nat {
    if bigEndianHost then Value(bs) else LittleValue(bs)
  }

  /** A signed 32-bit number from its unsigned value. */
  function Signed(v: nat): int { if v < TWO31 then v else v - TWO32 }

  function U32(v: nat): seq<byte> { BigEndian(v % TWO32, 4) }

  lemma {:induction false} ValueOfU32(v: nat)
    ensures Value(U32(v)) == v % TWO32
  {
    assert Pow256(4) == TWO32;
    ValueOfBigEndian(v % TWO32, 4);
  }

  // ---------------------------------------------------------------------------
  // What the simulator writes
  // ---------------------------------------------------------------------------

  /** A string: its length, cut to 32 bits, and that many of its bytes. */
  function Str(s: seq<byte>): seq<byte> { U32(|s|) + s[..|s| % TWO32] }

  /** A command, with a one-byte length or, if it is long, with a zero byte and four more. */
  function Command(id: byte, payload: seq<byte>): seq<byte> {
    if 2 + |payload| > 0xFF then [0] + U32(6 + |payload|) + [id] + payload
    else [2 + |payload|] + [id] + payload
  }

  /** The length in front of a command is its length with all of the front, in one byte if it fits. */
  lemma {:induction false} LengthInFront(id: byte, payload: seq<byte>)
    ensures var c := Command(id, payload);
      && (|payload| <= 253 ==> c[0] == |c| && c[1] == id && c[2..] == payload)
      && (|payload| > 253 ==> c[0] == 0 && Value(c[1..5]) == |c| % TWO32 && c[5] == id && c[6..] == payload)
  {
    if |payload| > 253 {
      var c := Command(id, payload);
      ValueOfU32(6 + |payload|);
      assert c[1..5] == U32(6 + |payload|);
    }
  }

  function Framed(msg: seq<byte>): seq<byte> { U32(4 + |msg|) + msg }

  /** "sumo-launchd.launch.xml" */
  const FILE_NAME: seq<byte> := [0x73, 0x75, 0x6D, 0x6F, 0x2D, 0x6C, 0x61, 0x75, 0x6E, 0x63, 0x68, 0x64, 0x2E,
                                 0x6C, 0x61, 0x75, 0x6E, 0x63, 0x68, 0x2E, 0x78, 0x6D, 0x6C]

  function LaunchPayload(doc: seq<byte>): seq<byte> { Str(FILE_NAME) + Str(doc) }

  function LaunchMessage(doc: seq<byte>): seq<byte> { Framed(Command(CMD_FILE_SEND, LaunchPayload(doc))) }

  // ---------------------------------------------------------------------------
  // What the daemon reads
  // ---------------------------------------------------------------------------

  datatype Parsed =
    | Document(data: seq<byte>, cmdLen: int)
    | WrongCommand
    | WrongName
    | NegativeLength
    | Starved            // the message ends too early; reading would wait for more

  /** After the lengths: the command id. */
  function ParseCommand(s: seq<byte>, cmdLen: int): Parsed {
    if |s| < 1 then Starved
    else if s[0] != CMD_FILE_SEND then WrongCommand
    else ParseName(s[1..], cmdLen)
  }

  function ParseName(s: seq<byte>, cmdLen: int): Parsed {
    if |s| < 4 then Starved
    else
      var n := Signed(Value(s[..4]));
      if n < 0 then NegativeLength
      else if |s| < 4 + n then Starved
      else if s[4..4 + n] != FILE_NAME then WrongName
      else ParseData(s[4 + n..], cmdLen)
  }

  function ParseData(s: seq<byte>, cmdLen: int): Parsed {
    if |s| < 4 then Starved
    else
      var n := Signed(Value(s[..4]));
      if n < 0 then NegativeLength
      else if |s| < 4 + n then Starved
      else Document(s[4..4 + n], cmdLen)
  }

  /** The message length is read but not used. */
  function Parse(s: seq<byte>): Parsed {
    if |s| < 5 then Starved
    else
      var cmdLen := s[4] as int - 1;
      if cmdLen != -1 then ParseCommand(s[5..], cmdLen)
      else if |s| < 9 then Starved
      else ParseCommand(s[9..], Signed(Value(s[5..9])) - 5)
  }

  // ---------------------------------------------------------------------------
  // Reads that come back short
  // ---------------------------------------------------------------------------

  /** How many bytes the network has ready for a read; a read waits for at least one. */
  type Draw = n: int | n >= 1 witness 1

  /** How much a single read for `n` bytes returns. */
  function ReadSize(n: nat, available: nat, draw: Draw): nat {
    var most := if n < available then n else available;
    if most < draw then most else draw
  }

  /** File name and contents are each taken from a single read; all other reads are repeated until complete. */
  function ParseNameWith(s: seq<byte>, cmdLen: int, nameRead: Draw, dataRead: Draw): Parsed {
    if |s| < 4 then Starved
    else
      var n := Signed(Value(s[..4]));
      if n < 0 then NegativeLength
      else
        var k := ReadSize(n, |s| - 4, nameRead);
        if s[4..4 + k] != FILE_NAME then WrongName else ParseDataWith(s[4 + k..], cmdLen, dataRead)
  }

  function ParseDataWith(s: seq<byte>, cmdLen: int, dataRead: Draw): Parsed {
    if |s| < 4 then Starved
    else
      var n := Signed(Value(s[..4]));
      if n < 0 then NegativeLength else Document(s[4..4 + ReadSize(n, |s| - 4, dataRead)], cmdLen)
  }

  function ParseCommandWith(s: seq<byte>, cmdLen: int, nameRead: Draw, dataRead: Draw): Parsed {
    if |s| < 1 then Starved
    else if s[0] != CMD_FILE_SEND then WrongCommand
    else ParseNameWith(s[1..], cmdLen, nameRead, dataRead)
  }

  function ParseWith(s: seq<byte>, nameRead: Draw, dataRead: Draw): Parsed {
    if |s| < 5 then Starved
    else
      var cmdLen := s[4] as int - 1;
      if cmdLen != -1 then ParseCommandWith(s[5..], cmdLen, nameRead, dataRead)
      else if |s| < 9 then Starved
      else ParseCommandWith(s[9..], Signed(Value(s[5..9])) - 5, nameRead, dataRead)
  }

  /** With full reads a message that arrives completely is parsed as the format says. */
  lemma {:induction false} FullReads(s: seq<byte>, nameRead: Draw, dataRead: Draw)
    requires !Parse(s).Starved? && nameRead >= |s| && dataRead >= |s|
    ensures ParseWith(s, nameRead, dataRead) == Parse(s)
  {
    if s[4] != 0 {
      FullCommand(s[5..], s[4] as int - 1, nameRead, dataRead);
    } else {
      FullCommand(s[9..], Signed(Value(s[5..9])) - 5, nameRead, dataRead);
    }
  }

  lemma {:induction false} FullCommand(s: seq<byte>, cmdLen: int, nameRead: Draw, dataRead: Draw)
    requires !ParseCommand(s, cmdLen).Starved? && nameRead >= |s| && dataRead >= |s|
    ensures ParseCommandWith(s, cmdLen, nameRead, dataRead) == ParseCommand(s, cmdLen)
  {
    if s[0] == CMD_FILE_SEND {
      FullName(s[1..], cmdLen, nameRead, dataRead);
    }
  }

  lemma {:induction false} FullName(s: seq<byte>, cmdLen: int, nameRead: Draw, dataRead: Draw)
    requires !ParseName(s, cmdLen).Starved? && nameRead >= |s| && dataRead >= |s|
    ensures ParseNameWith(s, cmdLen, nameRead, dataRead) == ParseName(s, cmdLen)
  {
    var n := Signed(Value(s[..4]));
    if n >= 0 {
      assert ReadSize(n, |s| - 4, nameRead) == n;
    }
  }

  /** The stream after the command id. */
  function AfterId(s: seq<byte>): seq<byte> {
    if |s| > 5 && s[4] != 0 then s[6..] else if |s| > 9 && s[4] == 0 then s[10..] else []
  }

  /** The file name that follows, of whatever length, begins with the right one. */
  predicate NameStarts(s: seq<byte>) { |s| >= 4 + |FILE_NAME| && s[4..4 + |FILE_NAME|] == FILE_NAME }

  predicate CutData(r: Parsed, whole: Parsed) { r.Document? && whole.Document? && r.data < whole.data }

  /**
   Of any message that arrives completely: short reads have the name refused or the contents cut. A wrong
   name is still refused, unless it begins with the right one.
   */
  lemma {:induction false} ShortReads(s: seq<byte>, nameRead: Draw, dataRead: Draw)
    ensures var (r, whole) := (ParseWith(s, nameRead, dataRead), Parse(s));
      || r == whole
      || whole.Starved?
      || r.WrongName?
      || if whole.WrongName? then NameStarts(AfterId(s)) else CutData(r, whole)
  {
    if |s| > 5 && s[4] != 0 {
      assert s[5..][1..] == s[6..];
      ShortName(s[6..], s[4] as int - 1, nameRead, dataRead);
    } else if |s| > 9 && s[4] == 0 {
      assert s[9..][1..] == s[10..];
      ShortName(s[10..], Signed(Value(s[5..9])) - 5, nameRead, dataRead);
    }
  }

  lemma {:induction false} ShortName(s: seq<byte>, cmdLen: int, nameRead: Draw, dataRead: Draw)
    ensures var (r, whole) := (ParseNameWith(s, cmdLen, nameRead, dataRead), ParseName(s, cmdLen));
      || r == whole
      || whole.Starved?
      || r.WrongName?
      || if whole.WrongName? then NameStarts(s) else CutData(r, whole)
  {
    if |s| >= 4 && Signed(Value(s[..4])) >= 0 {
      var n := Signed(Value(s[..4]));
      var k := ReadSize(n, |s| - 4, nameRead);
      if k < n <= |s| - 4 && s[4..4 + n] == FILE_NAME {
        assert |s[4..4 + k]| < |FILE_NAME|;
      }
      if s[4..4 + k] == FILE_NAME {
        assert k == |FILE_NAME|;
        ShortData(s[4 + k..], cmdLen, dataRead);
      }
    }
  }

  lemma {:induction false} ShortData(s: seq<byte>, cmdLen: int, dataRead: Draw)
    ensures var (r, whole) := (ParseDataWith(s, cmdLen, dataRead), ParseData(s, cmdLen));
      r == whole || whole.Starved? || CutData(r, whole)
  {
    if |s| >= 4 && 0 <= Signed(Value(s[..4])) <= |s| - 4 {
      var n := Signed(Value(s[..4]));
      var k := ReadSize(n, |s| - 4, dataRead);
      assert k < n ==> s[4..4 + k] < s[4..4 + n];
    }
  }

  // ---------------------------------------------------------------------------
  // Round trip
  // ---------------------------------------------------------------------------

  /** What a string is cut to when its length is written with 32 bits. */
  function Cut(s: seq<byte>): seq<byte> { s[..|s| % TWO32] }

  /** What the daemon makes of a document. */
  function Received(doc: seq<byte>, cmdLen: int): Parsed {
    if |Cut(doc)| < TWO31 then Document(Cut(doc), cmdLen) else NegativeLength
  }

  lemma {:induction false} ReceivedWhole(doc: seq<byte>, cmdLen: int)
    ensures Received(doc, cmdLen) == Document(doc, cmdLen) <==> |doc| < TWO31
  {
    if |doc| < TWO32 {
      assert |doc| % TWO32 == |doc| && Cut(doc) == doc;
    }
  }

  lemma {:induction false} ParseDataOf(doc: seq<byte>, rest: seq<byte>, cmdLen: int)
    ensures ParseData(Str(doc) + rest, cmdLen) == Received(doc, cmdLen)
  {
    var s := Str(doc) + rest;
    ValueOfU32(|doc|);
    assert s[..4] == U32(|doc|);
    var n := |Cut(doc)|;
    assert s[4..4 + n] == Cut(doc);
  }

  lemma {:induction false} ParseNameOf(doc: seq<byte>, cmdLen: int)
    ensures ParseName(LaunchPayload(doc), cmdLen) == Received(doc, cmdLen)
  {
    var s := LaunchPayload(doc);
    ValueOfU32(|FILE_NAME|);
    assert FILE_NAME[..|FILE_NAME| % TWO32] == FILE_NAME;
    assert s[..4] == U32(|FILE_NAME|);
    assert s[4..4 + |FILE_NAME|] == FILE_NAME;
    assert s[4 + |FILE_NAME|..] == Str(doc) + [];
    ParseDataOf(doc, [], cmdLen);
  }

  /** The length of the command as the daemon computes it, the length bytes not counted. */
  function DecodedLength(n: nat): int {
    if 2 + n > 0xFF then Signed((6 + n) % TWO32) - 5 else 1 + n
  }

  lemma {:induction false} CommandParses(payload: seq<byte>)
    ensures var msg := Framed(Command(CMD_FILE_SEND, payload));
      Parse(msg) == ParseName(payload, DecodedLength(|payload|))
  {
    var cmd := Command(CMD_FILE_SEND, payload);
    var msg := Framed(cmd);
    assert |U32(4 + |cmd|)| == 4 && msg[4] == cmd[0];
    if 2 + |payload| > 0xFF {
      ValueOfU32(6 + |payload|);
      assert msg[5..9] == U32(6 + |payload|);
      assert msg[9..] == [CMD_FILE_SEND] + payload;
    } else {
      assert msg[5..] == [CMD_FILE_SEND] + payload;
    }
    assert ([CMD_FILE_SEND] + payload)[1..] == payload;
  }

  /**
   The daemon gets back exactly the document that was sent, in the short and in the long form, if and
   only if it is shorter than 2^31 bytes. A longer one is refused or, its length cut to 32 bits, is cut.
   */
  lemma {:induction false} LaunchRoundTrip(doc: seq<byte>)
    ensures var r := Parse(LaunchMessage(doc)); var cmdLen := DecodedLength(|LaunchPayload(doc)|);
      r == Received(doc, cmdLen) && (r == Document(doc, cmdLen) <==> |doc| < TWO31)
  {
    var payload := LaunchPayload(doc);
    var cmdLen := DecodedLength(|payload|);
    CommandParses(payload);
    ParseNameOf(doc, cmdLen);
    ReceivedWhole(doc, cmdLen);
  }

  /** What the daemon makes of a document when its two single reads return what is drawn. */
  function ReceivedWith(doc: seq<byte>, cmdLen: int, nameRead: Draw, dataRead: Draw): Parsed {
    var cut := Cut(doc);
    if nameRead < |FILE_NAME| then WrongName
    else if |cut| >= TWO31 then NegativeLength
    else Document(cut[..ReadSize(|cut|, |cut|, dataRead)], cmdLen)
  }

  lemma {:induction false} ParseDataWithOf(doc: seq<byte>, rest: seq<byte>, cmdLen: int, dataRead: Draw)
    ensures ParseDataWith(Str(doc) + rest, cmdLen, dataRead) == ReceivedWith(doc, cmdLen, |FILE_NAME|, dataRead)
  {
    var (s, cut) := (Str(doc) + rest, Cut(doc));
    ValueOfU32(|doc|);
    assert s[..4] == U32(|doc|);
    if |cut| < TWO31 {
      var k := ReadSize(|cut|, |cut|, dataRead);
      assert k == ReadSize(|cut|, |s| - 4, dataRead);
      assert s[4..4 + k] == cut[..k];
    }
  }

  lemma {:induction false} ParseNameWithOf(doc: seq<byte>, rest: seq<byte>, cmdLen: int, nameRead: Draw, dataRead: Draw)
    ensures ParseNameWith(LaunchPayload(doc) + rest, cmdLen, nameRead, dataRead) ==
      ReceivedWith(doc, cmdLen, nameRead, dataRead)
  {
    var s := LaunchPayload(doc) + rest;
    ValueOfU32(|FILE_NAME|);
    assert FILE_NAME[..|FILE_NAME| % TWO32] == FILE_NAME;
    assert s[..4] == U32(|FILE_NAME|);
    var k := ReadSize(|FILE_NAME|, |s| - 4, nameRead);
    assert s[4..4 + k] == FILE_NAME[..k];
    if k == |FILE_NAME| {
      assert s[4 + k..] == Str(doc) + rest;
      ParseDataWithOf(doc, rest, cmdLen, dataRead);
    }
  }

  lemma {:induction false} CommandParsesWith(payload: seq<byte>, rest: seq<byte>, nameRead: Draw, dataRead: Draw)
    ensures var msg := Framed(Command(CMD_FILE_SEND, payload));
      ParseWith(msg + rest, nameRead, dataRead) ==
      ParseNameWith(payload + rest, DecodedLength(|payload|), nameRead, dataRead)
  {
    var cmd := Command(CMD_FILE_SEND, payload);
    var (s, named) := (Framed(cmd) + rest, [CMD_FILE_SEND] + (payload + rest));
    assert |U32(4 + |cmd|)| == 4 && s[4] == cmd[0];
    assert named[1..] == payload + rest;
    if 2 + |payload| > 0xFF {
      LongCommand(s, payload, rest);
    } else {
      assert s[5..] == named;
    }
  }

  lemma {:induction false} LongCommand(s: seq<byte>, payload: seq<byte>, rest: seq<byte>)
    requires 2 + |payload| > 0xFF && s == Framed(Command(CMD_FILE_SEND, payload)) + rest
    ensures |s| > 9 && Value(s[5..9]) == (6 + |payload|) % TWO32 && s[9..] == [CMD_FILE_SEND] + (payload + rest)
  {
    ValueOfU32(6 + |payload|);
    assert s[5..9] == U32(6 + |payload|);
  }

  lemma {:induction false} ReceivedWithWhole(doc: seq<byte>, cmdLen: int, nameRead: Draw, dataRead: Draw)
    ensures ReceivedWith(doc, cmdLen, nameRead, dataRead) == Document(doc, cmdLen) <==>
      nameRead >= |FILE_NAME| && dataRead >= |doc| && |doc| < TWO31
  {
    var cut := Cut(doc);
    assert |doc| < TWO32 ==> cut == doc;
    if |doc| < TWO31 && dataRead >= |doc| {
      assert cut[..|cut|] == cut;
    }
  }

  /**
   Whatever the two single reads return, and whatever follows in the stream: the daemon gets back exactly
   the document that was sent if and only if the document is shorter than 2^31 bytes and neither read is short.
   */
  lemma {:induction false} LaunchReadExactlyWhen(doc: seq<byte>, rest: seq<byte>, nameRead: Draw, dataRead: Draw)
    ensures var r := ParseWith(LaunchMessage(doc) + rest, nameRead, dataRead);
      var cmdLen := DecodedLength(|LaunchPayload(doc)|);
      && r == ReceivedWith(doc, cmdLen, nameRead, dataRead)
      && (r == Document(doc, cmdLen) <==> nameRead >= |FILE_NAME| && dataRead >= |doc| && |doc| < TWO31)
  {
    var payload := LaunchPayload(doc);
    var cmdLen := DecodedLength(|payload|);
    CommandParsesWith(payload, rest, nameRead, dataRead);
    ParseNameWithOf(doc, rest, cmdLen, nameRead, dataRead);
    ReceivedWithWhole(doc, cmdLen, nameRead, dataRead);
  }

  /** Every document is cut, and taken for whole, when the read of its contents is short. */
  lemma {:induction false} CutByShortRead(doc: seq<byte>, rest: seq<byte>, nameRead: Draw, dataRead: Draw)
    requires nameRead >= |FILE_NAME| && dataRead < |doc| < TWO31
    ensures ParseWith(LaunchMessage(doc) + rest, nameRead, dataRead) ==
      Document(doc[..dataRead], DecodedLength(|LaunchPayload(doc)|))
  {
    var cmdLen := DecodedLength(|LaunchPayload(doc)|);
    LaunchReadExactlyWhen(doc, rest, nameRead, dataRead);
    ReceivedCut(doc, cmdLen, nameRead, dataRead);
  }

  lemma {:induction false} ReceivedCut(doc: seq<byte>, cmdLen: int, nameRead: Draw, dataRead: Draw)
    requires nameRead >= |FILE_NAME| && dataRead < |doc| < TWO31
    ensures ReceivedWith(doc, cmdLen, nameRead, dataRead) == Document(doc[..dataRead], cmdLen)
  {
    assert |doc| % TWO32 == |doc| && Cut(doc) == doc;
  }

  const SAMPLE: seq<byte> := [0x3C, 0x61, 0x2F, 0x3E]

  /** A document of four bytes, of which the daemon takes the first two for the whole. */
  lemma {:induction false} DocumentIsCut()
    ensures ParseWith(LaunchMessage(SAMPLE) + [], 23, 2) ==
      Document([0x3C, 0x61], DecodedLength(|LaunchPayload(SAMPLE)|))
  {
    CutByShortRead(SAMPLE, [], 23, 2);
    assert SAMPLE[..2] == [0x3C, 0x61];
  }

  /** The first bytes that are sent for it. */
  lemma {:induction false} SampleFront()
    ensures LaunchMessage(SAMPLE)[..6] == [0, 0, 0, 41, 37, 0x75]
  {
    var command := Command(CMD_FILE_SEND, LaunchPayload(SAMPLE));
    assert |command| == 37 && command[0] == 37 && command[1] == 0x75;
    assert BigEndian(41, 4) == BigEndian(0, 3) + [41] && BigEndian(0, 3) == BigEndian(0, 2) + [0];
    assert BigEndian(0, 2) == [0, 0];
  }

  /** Both forms of the length decode to the same: the command id and the payload. */
  lemma DecodedLengthAgrees(n: nat)
    requires 6 + n < TWO31
    ensures DecodedLength(n) == 1 + n
  {
  }

  // ---------------------------------------------------------------------------
  // The reply
  // ---------------------------------------------------------------------------

  /** Lengths, command, result and an empty description. */
  const OK_REPLY: seq<byte> := U32(11) + [7] + [CMD_FILE_SEND] + [0] + U32(0)
}
