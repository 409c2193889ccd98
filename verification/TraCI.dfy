/**
 The byte buffer and the socket loops on both sides of a TraCI connection.
 */
module TraCIModule {
  import opened TraCISpec

  /** Values are kept in TraCI byte order, whatever the byte order of the host. */
  class TraCIBuffer {
    var buf: seq<byte>
    var bufIndex: nat
    const bigEndianHost: bool

    ghost predicate Valid()
      reads this
    {
      bufIndex <= |buf|
    }

    constructor (contents: seq<byte>, big: bool)
      ensures Valid() && buf == contents && bufIndex == 0 && bigEndianHost == big
    {
      buf, bufIndex, bigEndianHost := contents, 0, big;
    }

    predicate Eof()
      reads this
    {
      bufIndex == |buf|
    }

    /** Appends a number of `w` bytes as it lies in memory, turned round on little-endian hosts. */
    method Write(v: nat, w: nat)
      modifies `buf
      ensures buf == old(buf) + BigEndian(v, w)
    {
      var p := Memory(v, w, bigEndianHost);
      for i := 0 to w
        invariant buf == old(buf) + BigEndian(v, w)[..i]
      {
        if bigEndianHost {
          buf := buf + [p[i]];
        } else {
          Reversed(v, w, i);
          buf := buf + [p[w - 1 - i]];
        }
        assert BigEndian(v, w)[..i + 1] == BigEndian(v, w)[..i] + [BigEndian(v, w)[i]];
      }
      assert BigEndian(v, w)[..w] == BigEndian(v, w);
    }

    /** Reads `w` bytes into memory, turned round on little-endian hosts; fails past the end. */
    method Read(w: nat) returns (ok: bool, v: nat)
      requires Valid()
      modifies `bufIndex
      ensures Valid()
      ensures ok <==> old(bufIndex) + w <= |buf|
      ensures ok ==> bufIndex == old(bufIndex) + w && v == Value(buf[old(bufIndex)..bufIndex])
    {
      ok, v := true, 0;
      ghost var start := bufIndex;
      var p: seq<byte> := seq(w, _ => 0);
      for i := 0 to w
        invariant Valid() && bufIndex == start + i && |p| == w
        invariant bigEndianHost ==> p[..i] == buf[start..bufIndex]
        invariant !bigEndianHost ==> LittleValue(p[w - i..]) == Value(buf[start..bufIndex])
      {
        if Eof() {
          return false, 0;
        }
        var at := if bigEndianHost then i else w - 1 - i;
        ghost var before := p[w - i..];
        p := p[at := buf[bufIndex]];
        bufIndex := bufIndex + 1;
        assert buf[start..bufIndex][..i] == buf[start..bufIndex - 1];
        assert !bigEndianHost ==> p[w - 1 - i..][1..] == before;
      }
      v := InMemory(p, bigEndianHost);
      assert p[..w] == p && p[0..] == p;
    }

    method WriteString(s: seq<byte>)
      modifies `buf
      ensures buf == old(buf) + Str(s)
    {
      var length := |s| % TWO32;
      Write(length, 4);
      for i := 0 to length
        invariant buf == old(buf) + U32(|s|) + s[..i]
      {
        buf := buf + [s[i]];
      }
    }

    method ReadString() returns (ok: bool, s: seq<byte>)
      requires Valid()
      modifies `bufIndex
      ensures Valid()
      ensures ok <==>
        && old(bufIndex) + 4 <= |buf|
        && old(bufIndex) + 4 + Value(buf[old(bufIndex)..old(bufIndex) + 4]) <= |buf|
      ensures ok ==> bufIndex == old(bufIndex) + 4 + Value(buf[old(bufIndex)..old(bufIndex) + 4])
      ensures ok ==> s == buf[old(bufIndex) + 4..bufIndex]
    {
      s := [];
      var length: nat;
      ok, length := Read(4);
      if !ok {
        return;
      }
      var start := bufIndex;
      for i := 0 to length
        invariant Valid() && bufIndex == start + i && s == buf[start..start + i]
      {
        if Eof() {
          return false, [];
        }
        s := s + [buf[bufIndex]];
        bufIndex := bufIndex + 1;
      }
    }
  }

  /** Puts the length, in one of its two forms, and the command id in front of a payload. */
  method MakeTraCICommand(id: byte, payload: seq<byte>, bigEndianHost: bool) returns (cmd: seq<byte>)
    ensures cmd == Command(id, payload)
  {
    var buf := new TraCIBuffer([], bigEndianHost);
    OneByte(id);
    OneByte(0);
    if 2 + |payload| > 0xFF {
      buf.Write(0, 1);
      buf.Write((6 + |payload|) % TWO32, 4);
    } else {
      OneByte(2 + |payload|);
      buf.Write(2 + |payload|, 1);
    }
    buf.Write(id, 1);
    cmd := buf.buf + payload;
  }

  lemma {:induction false} OneByte(b: byte)
    ensures BigEndian(b, 1) == [b]
  {
    assert BigEndian(b / 256, 0) == [];
  }

  /** The bytes the simulator sends to have a simulation launched. */
  method LaunchRequest(doc: seq<byte>, bigEndianHost: bool) returns (sent: seq<byte>)
    ensures sent == LaunchMessage(doc)
  {
    var buf := new TraCIBuffer([], bigEndianHost);
    buf.WriteString(FILE_NAME);
    buf.WriteString(doc);
    assert buf.buf == LaunchPayload(doc);
    var cmd := MakeTraCICommand(CMD_FILE_SEND, buf.buf, bigEndianHost);
    var header := new TraCIBuffer([], bigEndianHost);
    header.Write((4 + |cmd|) % TWO32, 4);
    sent := header.buf + cmd;
  }

  /** The receiving end of a stream; a read may return fewer bytes than asked for. */
  class Connection {
    var rest: seq<byte>

    constructor (stream: seq<byte>)
      ensures rest == stream
    {
      rest := stream;
    }

    method Recv(n: nat, draw: Draw) returns (b: seq<byte>)
      modifies this
      ensures var k := ReadSize(n, |old(rest)|, draw); b == old(rest)[..k] && rest == old(rest)[k..]
    {
      var k := ReadSize(n, |rest|, draw);
      b := rest[..k];
      rest := rest[k..];
    }

    /**
     Reads again and again until all `n` bytes are there; fails when the stream ends first. What the single
     reads return does not matter.
     */
    method RecvAll(n: nat) returns (ok: bool, b: seq<byte>)
      modifies this
      ensures ok <==> n <= |old(rest)|
      ensures ok ==> b == old(rest)[..n] && rest == old(rest)[n..]
    {
      b := [];
      while |b| < n
        invariant |b| <= n && old(rest) == b + rest
        decreases n - |b|
      {
        var draw: Draw :| draw >= 1;
        var more := Recv(n - |b|, draw);
        if more == [] {
          return false, b;
        }
        b := b + more;
      }
      ok := true;
    }
  }

  /** Where the body of the first message in a stream ends. */
  function BodyEnd(s: seq<byte>): nat
    requires |s| >= 4
  {
    4 + (Value(s[..4]) - 4) % TWO32
  }

  /** Strips the header from a message, however the stream is cut into pieces. */
  method ReceiveTraCIMessage(conn: Connection) returns (ok: bool, msg: seq<byte>)
    modifies conn
    ensures ok <==> |old(conn.rest)| >= 4 && |old(conn.rest)| >= BodyEnd(old(conn.rest))
    ensures ok ==> var n := BodyEnd(old(conn.rest));
      msg == old(conn.rest)[4..n] && conn.rest == old(conn.rest)[n..]
  {
    msg := [];
    var header: seq<byte>;
    ok, header := conn.RecvAll(4);
    if ok {
      ok, msg := conn.RecvAll((Value(header) - 4) % TWO32);
    }
  }

  lemma {:induction false} BodyEndIs(s: seq<byte>, n: nat)
    requires |s| >= 4 && 4 <= n < TWO32 && Value(s[..4]) == n % TWO32
    ensures BodyEnd(s) == n
  {
    assert n % TWO32 == n && (n - 4) % TWO32 == n - 4;
  }

  /** So what was framed is what is received. */
  lemma {:induction false} FramedIsReceived(msg: seq<byte>, rest: seq<byte>)
    requires 4 + |msg| < TWO32
    ensures var s := Framed(msg) + rest; var n := BodyEnd(s);
      n <= |s| && s[4..n] == msg && s[n..] == rest
  {
    var s := Framed(msg) + rest;
    ValueOfU32(4 + |msg|);
    assert s[..4] == U32(4 + |msg|);
    BodyEndIs(s, 4 + |msg|);
  }

  /** The daemon's parser. File name and contents are each taken from a single read. */
  method ReadLaunchConfig(conn: Connection, nameRead: Draw, dataRead: Draw) returns (r: Parsed)
    modifies conn
    ensures r == ParseWith(old(conn.rest), nameRead, dataRead)
  {
    ghost var s := conn.rest;
    var ok, msgLenBuf := conn.RecvAll(4);
    if !ok {
      return Starved;
    }
    var cmdLenBuf: seq<byte>;
    ok, cmdLenBuf := conn.RecvAll(1);
    if !ok {
      return Starved;
    }
    var cmdLen := cmdLenBuf[0] as int - 1;
    if cmdLen == -1 {
      ok, cmdLenBuf := conn.RecvAll(4);
      if !ok {
        return Starved;
      }
      assert cmdLenBuf == s[5..9];
      cmdLen := Signed(Value(cmdLenBuf)) - 5;
    }
    r := ReadFile(conn, cmdLen, nameRead, dataRead);
  }

  method ReadFile(conn: Connection, cmdLen: int, nameRead: Draw, dataRead: Draw) returns (r: Parsed)
    modifies conn
    ensures r == ParseCommandWith(old(conn.rest), cmdLen, nameRead, dataRead)
  {
    var ok, cmdId := conn.RecvAll(1);
    if !ok {
      return Starved;
    }
    if cmdId[0] != CMD_FILE_SEND {
      return WrongCommand;
    }
    ghost var s := conn.rest;
    var nameLenBuf: seq<byte>;
    ok, nameLenBuf := conn.RecvAll(4);
    if !ok {
      return Starved;
    }
    var nameLen := Signed(Value(nameLenBuf));
    if nameLen < 0 {
      return NegativeLength;
    }
    var name := conn.Recv(nameLen, nameRead);
    assert name == s[4..4 + |name|] && conn.rest == s[4 + |name|..];
    if name != FILE_NAME {
      return WrongName;
    }
    r := ReadContents(conn, cmdLen, dataRead);
  }

  method ReadContents(conn: Connection, cmdLen: int, dataRead: Draw) returns (r: Parsed)
    modifies conn
    ensures r == ParseDataWith(old(conn.rest), cmdLen, dataRead)
  {
    ghost var s := conn.rest;
    var ok, dataLenBuf := conn.RecvAll(4);
    if !ok {
      return Starved;
    }
    var dataLen := Signed(Value(dataLenBuf));
    if dataLen < 0 {
      return NegativeLength;
    }
    var data := conn.Recv(dataLen, dataRead);
    assert data == s[4..4 + |data|];
    r := Document(data, cmdLen);
  }

  /** The body of a message that answers the launch: length, command, result, and a description. */
  predicate IsReply(body: seq<byte>) {
    |body| >= 7 && body[1] == CMD_FILE_SEND && |body| >= 7 + Value(body[3..7])
  }

  /** The body of the first message in a stream, if all of it is there. */
  predicate HasBody(s: seq<byte>) { |s| >= 4 && |s| >= BodyEnd(s) }

  function Body(s: seq<byte>): seq<byte>
    requires HasBody(s)
  {
    s[4..BodyEnd(s)]
  }

  /** The reply to a launch: fails exactly on a message that is cut off or answers another command. */
  method ReadReply(conn: Connection, bigEndianHost: bool) returns (ok: bool, result: nat, allRead: bool)
    modifies conn
    ensures ok <==> HasBody(old(conn.rest)) && IsReply(Body(old(conn.rest)))
    ensures ok ==> var body := Body(old(conn.rest));
      && result == body[2] && (allRead <==> |body| == 7 + Value(body[3..7]))
      && conn.rest == old(conn.rest)[BodyEnd(old(conn.rest))..]
    ensures old(conn.rest) == OK_REPLY ==> ok && result == RTYPE_OK && allRead && conn.rest == []
  {
    OkReplyIsRead();
    result, allRead := 0, false;
    var msg: seq<byte>;
    ok, msg := ReceiveTraCIMessage(conn);
    if !ok {
      return;
    }
    var obuf := new TraCIBuffer(msg, bigEndianHost);
    var cmdLength, commandResp: nat;
    ok, cmdLength := obuf.Read(1);
    if !ok {
      return;
    }
    ok, commandResp := obuf.Read(1);
    if ok {
      assert msg[1..2] == [msg[1]];
      SingleValue(msg[1]);
    }
    if !ok || commandResp != CMD_FILE_SEND {
      return false, 0, false;
    }
    ok, result := obuf.Read(1);
    if !ok {
      return;
    }
    SingleValue(msg[2]);
    assert msg[2..3] == [msg[2]];
    var description: seq<byte>;
    ok, description := obuf.ReadString();
    allRead := obuf.Eof();
  }

  /** So the daemon's reply is accepted and read to its last byte. */
  lemma {:induction false} OkReplyIsRead()
    ensures HasBody(OK_REPLY) && BodyEnd(OK_REPLY) == |OK_REPLY| && IsReply(Body(OK_REPLY))
    ensures Body(OK_REPLY)[2] == RTYPE_OK && |Body(OK_REPLY)| == 7 + Value(Body(OK_REPLY)[3..7])
  {
    ReplyIsRead();
  }

  lemma {:induction false} SingleValue(b: byte)
    ensures Value([b]) == b
  {
    assert Value([b][..0]) == 0;
  }

  lemma {:induction false} ReplyIsRead()
    ensures BodyEnd(OK_REPLY) == 11 == |OK_REPLY| && OK_REPLY[5] == CMD_FILE_SEND && OK_REPLY[6] == RTYPE_OK
    ensures Value(OK_REPLY[4..11][3..7]) == 0
  {
    ValueOfU32(11);
    ValueOfU32(0);
    assert OK_REPLY[..4] == U32(11);
    assert OK_REPLY[4..11] == [7, CMD_FILE_SEND, RTYPE_OK] + U32(0);
    assert OK_REPLY[4..11][3..7] == U32(0);
  }
}
