/**
 Frames and their transport (soaagent/protocol.c, socket_send and socket_receive of
 soaagent/util.c).

 A frame is a 16-byte header and a body.  All header integers travel in network byte
 order; the checksum covers everything after itself.  A socket moves bytes in arbitrary
 pieces: each call of send or recv is given the piece the kernel grants it.
 */
module Protocol {
  import C = Crc32

  type bytes = seq<bv8>

  datatype Message = Message(identifier: bv32, kind: bv8, body: bytes)

  const HEADER_LEN := 16

  /** htonl, as the four bytes it leaves in memory. */
  function BigEndian(x: bv32): (r: bytes)
    ensures |r| == 4
  {
    [(x >> 24) as bv8, ((x >> 16) & 0xFF) as bv8, ((x >> 8) & 0xFF) as bv8, (x & 0xFF) as bv8]
  }

  /** ntohl */
  function FromBigEndian(b: bytes): bv32
    requires |b| == 4
  {
    Word(b[0], b[1], b[2], b[3])
  }

  function Word(b0: bv8, b1: bv8, b2: bv8, b3: bv8): bv32
  {
    ((b0 as bv32) << 24) | ((b1 as bv32) << 16) | ((b2 as bv32) << 8) | (b3 as bv32)
  }

  lemma BigEndianRoundTrip(x: bv32)
    ensures FromBigEndian(BigEndian(x)) == x
  {
  }

  lemma WordHighBytes(b0: bv8, b1: bv8, b2: bv8, b3: bv8)
    ensures (Word(b0, b1, b2, b3) >> 24) as bv8 == b0
    ensures ((Word(b0, b1, b2, b3) >> 16) & 0xFF) as bv8 == b1
  {
  }

  lemma WordLowBytes(b0: bv8, b1: bv8, b2: bv8, b3: bv8)
    ensures ((Word(b0, b1, b2, b3) >> 8) & 0xFF) as bv8 == b2
    ensures (Word(b0, b1, b2, b3) & 0xFF) as bv8 == b3
  {
  }

  lemma FromBigEndianRoundTrip(b: bytes)
    requires |b| == 4
    ensures BigEndian(FromBigEndian(b)) == b
  {
    hide Word;
    WordHighBytes(b[0], b[1], b[2], b[3]);
    WordLowBytes(b[0], b[1], b[2], b[3]);
  }

  function ToByte(n: nat): bv8
  {
    (n % 256) as bv8
  }

  function Value(b: bv8): int
  {
    b as int
  }

  lemma ByteValue(n: nat)
    ensures Value(ToByte(n)) == n % 256
  {
    ByteOfInt(n % 256);
  }

  lemma DoubledByte(b: bv8, odd: bool)
    requires b as int < 128
    ensures ((b << 1) | (if odd then 1 else 0)) as int == 2 * (b as int) + (if odd then 1 else 0)
  {
  }

  lemma ByteThroughInt(b: bv8)
    ensures 0 <= b as int < 256 && (b as int) as bv8 == b
  {
  }

  lemma {:induction false} ByteOfInt(k: nat)
    requires k < 256
    ensures (k as bv8) as int == k
  {
    if k == 0 {
    } else {
      ByteOfInt(k / 2);
      DoubledByte((k / 2) as bv8, k % 2 == 1);
      ByteThroughInt((((k / 2) as bv8) << 1) | (if k % 2 == 1 then 1 else 0));
    }
  }

  lemma IntOfByte(b: bv8)
    ensures 0 <= Value(b) < 256 && ToByte(Value(b)) == b
  {
    assert b as int % 256 == b as int;
  }

  /** htonl of a size_t: only its low 32 bits travel. */
  function LengthBytes(n: nat): (r: bytes)
    ensures |r| == 4
  {
    [ToByte(n / 256 / 256 / 256), ToByte(n / 256 / 256), ToByte(n / 256), ToByte(n)]
  }

  /** ntohl into a size_t. */
  function LengthOf(b: bytes): (n: int)
    requires |b| == 4
  {
    Value(b[0]) * 0x100_0000 + Value(b[1]) * 0x1_0000 + Value(b[2]) * 0x100 + Value(b[3])
  }

  lemma FourDigits(n: nat)
    ensures n % 0x1_0000_0000 == (n / 256 / 256 / 256) % 256 * 0x100_0000
                               + (n / 256 / 256) % 256 * 0x1_0000 + (n / 256) % 256 * 0x100 + n % 256
  {
    var q1 := n / 256;
    var q2 := q1 / 256;
    var q3 := q2 / 256;
    var q4 := q3 / 256;
    assert n == 256 * q1 + n % 256 && q1 == 256 * q2 + q1 % 256;
    assert q2 == 256 * q3 + q2 % 256 && q3 == 256 * q4 + q3 % 256;
    LowWord(n, q4, q3 % 256 * 0x100_0000 + q2 % 256 * 0x1_0000 + q1 % 256 * 0x100 + n % 256);
  }

  lemma LowWord(n: nat, q: nat, r: nat)
    requires n == 0x1_0000_0000 * q + r && r < 0x1_0000_0000
    ensures n % 0x1_0000_0000 == r
  {
  }

  lemma LengthRoundTrip(n: nat)
    ensures LengthOf(LengthBytes(n)) == n % 0x1_0000_0000
  {
    hide ToByte, Value;
    ByteValue(n / 256 / 256 / 256);
    ByteValue(n / 256 / 256);
    ByteValue(n / 256);
    ByteValue(n);
    FourDigits(n);
  }

  lemma DigitsOf(b0: nat, b1: nat, b2: nat, b3: nat)
    requires b0 < 256 && b1 < 256 && b2 < 256 && b3 < 256
    ensures var n := b0 * 0x100_0000 + b1 * 0x1_0000 + b2 * 0x100 + b3;
            n % 256 == b3 && (n / 256) % 256 == b2 && (n / 256 / 256) % 256 == b1 && (n / 256 / 256 / 256) % 256 == b0
  {
    var n := b0 * 0x100_0000 + b1 * 0x1_0000 + b2 * 0x100 + b3;
    assert n / 256 == b0 * 0x1_0000 + b1 * 0x100 + b2;
    assert n / 256 / 256 == b0 * 0x100 + b1;
    assert n / 256 / 256 / 256 == b0;
  }

  lemma LengthOfRoundTrip(b: bytes)
    requires |b| == 4
    ensures 0 <= LengthOf(b) < 0x1_0000_0000 && LengthBytes(LengthOf(b)) == b
  {
    hide ToByte, Value;
    var n := LengthOf(b);
    IntOfByte(b[0]);
    IntOfByte(b[1]);
    IntOfByte(b[2]);
    IntOfByte(b[3]);
    DigitsOf(Value(b[0]), Value(b[1]), Value(b[2]), Value(b[3]));
    SameByte(n / 256 / 256 / 256, Value(b[0]));
    SameByte(n / 256 / 256, Value(b[1]));
    SameByte(n / 256, Value(b[2]));
    SameByte(n, Value(b[3]));
  }

  lemma SameByte(m: nat, n: nat)
    requires m % 256 == n % 256
    ensures ToByte(m) == ToByte(n)
  {
  }

  /** Everything the checksum covers; the sender's reserved bytes are zero. */
  function Covered(m: Message, reserved: bytes): (r: bytes)
    requires |reserved| == 3
    ensures |r| == 12 + |m.body|
  {
    BigEndian(m.identifier) + LengthBytes(|m.body|) + [m.kind] + reserved + m.body
  }

  function FrameWith(m: Message, reserved: bytes): (r: bytes)
    requires |reserved| == 3
    ensures |r| == HEADER_LEN + |m.body|
  {
    BigEndian(C.Checksum(Covered(m, reserved))) + Covered(m, reserved)
  }

  /** What send_message puts on the wire. */
  function Frame(m: Message): (r: bytes)
    ensures |r| == HEADER_LEN + |m.body|
  {
    FrameWith(m, [0, 0, 0])
  }

  /**
   Where everything stands in a frame: the checksum of all that follows it, the identifier, the length, the
   type, three zero bytes, and the body.
   */
  lemma FrameLayout(m: Message)
    ensures var f, n := Frame(m), |m.body|;
            && |f| == 16 + n && f[..4] == BigEndian(C.Checksum(f[4..])) && f[4..8] == BigEndian(m.identifier)
            && f[8..12] == LengthBytes(n) && f[12] == m.kind && f[13..16] == [0, 0, 0] && f[16..] == m.body
  {
    hide C.Checksum, BigEndian, LengthBytes;
    var f := Frame(m);
    var id, len := BigEndian(m.identifier), LengthBytes(|m.body|);
    assert f[4..] == Covered(m, [0, 0, 0]) == id + len + [m.kind] + [0, 0, 0] + m.body;
  }

  /** Numbers travel with their high byte first. */
  lemma HighByteFirst(x: bv32, n: nat)
    ensures BigEndian(x) == [(x >> 24) as bv8, ((x >> 16) & 0xFF) as bv8, ((x >> 8) & 0xFF) as bv8, (x & 0xFF) as bv8]
    ensures LengthBytes(n) == [ToByte(n / 0x100_0000), ToByte(n / 0x1_0000), ToByte(n / 0x100), ToByte(n)]
  {
    hide ToByte;
    assert n / 256 / 256 == n / 0x1_0000 && n / 256 / 256 / 256 == n / 0x100_0000;
  }

  /** get_resp_type */
  function ResponseType(kind: bv8): (r: bv8)
    ensures r >= 0x80 && r & 0x7F == kind & 0x7F
  {
    (1 << 7) | kind
  }

  /** crc32_check on a header and the body received with it. */
  predicate CrcMatches(header: bytes, body: bytes)
    requires |header| == HEADER_LEN
  {
    FromBigEndian(header[..4]) == C.Checksum(header[4..] + body)
  }

  /** What receive_message makes of a stream: a message and the rest, a rejection, or not enough bytes. */
  datatype Received = Got(m: Message, rest: bytes) | Rejected(rest: bytes) | Starved

  function Receive(s: bytes): Received
  {
    if |s| < HEADER_LEN then Starved
    else
      var header := s[..HEADER_LEN];
      var len := LengthOf(header[8..12]);
      LengthOfRoundTrip(header[8..12]);
      if |s| < HEADER_LEN + len then Starved
      else
        var body, rest := s[HEADER_LEN..HEADER_LEN + len], s[HEADER_LEN + len..];
        if CrcMatches(header, body)
        then Got(Message(FromBigEndian(header[4..8]), header[12], body), rest)
        else Rejected(rest)
  }

  /** What Receive computes on a stream that is cut into header, body and rest. */
  lemma {:induction false} ReceiveParts(header: bytes, body: bytes, rest: bytes)
    requires |header| == HEADER_LEN && LengthOf(header[8..12]) == |body|
    ensures Receive(header + body + rest)
         == if CrcMatches(header, body)
            then Got(Message(FromBigEndian(header[4..8]), header[12], body), rest)
            else Rejected(rest)
  {
    hide FromBigEndian, LengthOf, CrcMatches;
    var s := header + body + rest;
    assert s[..HEADER_LEN] == header;
    assert s[HEADER_LEN..HEADER_LEN + |body|] == body && s[HEADER_LEN + |body|..] == rest;
  }

  /** A message is only received from a stream that holds all of its frame. */
  lemma ReceiveNeeds(s: bytes)
    ensures Receive(s).Got? ==> |s| >= HEADER_LEN
                                && |Receive(s).m.body| == LengthOf(s[..HEADER_LEN][8..12]) <= |s| - HEADER_LEN
  {
    hide FromBigEndian, LengthOf, CrcMatches;
    if |s| >= HEADER_LEN {
      LengthOfRoundTrip(s[..HEADER_LEN][8..12]);
    }
  }

  lemma HeaderFields(crc: bytes, id: bytes, len: bytes, kind: bv8, reserved: bytes)
    requires |crc| == |id| == |len| == 4 && |reserved| == 3
    ensures var h := crc + id + len + [kind] + reserved;
            h[..4] == crc && h[4..8] == id && h[8..12] == len && h[12] == kind
            && h[4..] == id + len + [kind] + reserved
  {
  }

  /** A frame followed by anything is received as its message, and nothing more is consumed. */
  lemma {:induction false} ReceiveFrame(m: Message, reserved: bytes, rest: bytes)
    requires |reserved| == 3 && |m.body| < 0x1_0000_0000
    ensures Receive(FrameWith(m, reserved) + rest) == Got(m, rest)
  {
    hide BigEndian, FromBigEndian, LengthBytes, LengthOf, Receive;
    var crc := BigEndian(C.Checksum(Covered(m, reserved)));
    var header := crc + BigEndian(m.identifier) + LengthBytes(|m.body|) + [m.kind] + reserved;
    HeaderFields(crc, BigEndian(m.identifier), LengthBytes(|m.body|), m.kind, reserved);
    assert header[4..] + m.body == Covered(m, reserved);
    assert FrameWith(m, reserved) + rest == header + m.body + rest;
    LengthRoundTrip(|m.body|);
    BigEndianRoundTrip(m.identifier);
    BigEndianRoundTrip(C.Checksum(Covered(m, reserved)));
    ReceiveParts(header, m.body, rest);
  }

  /** A body whose length does not fit the 32-bit length field is never received. */
  lemma LongBodyIsLost(m: Message, rest: bytes)
    requires |m.body| >= 0x1_0000_0000
    ensures Receive(Frame(m) + rest) != Got(m, rest)
  {
    hide FromBigEndian, LengthOf, Frame, CrcMatches;
    var s := Frame(m) + rest;
    LengthOfRoundTrip(s[..HEADER_LEN][8..12]);
  }

  /** Whatever is received was a frame: its header, its checksum, its body and nothing else. */
  lemma {:induction false} ReceivedWasFrame(s: bytes)
    requires Receive(s).Got?
    ensures var r := Receive(s); s == FrameWith(r.m, s[13..16]) + r.rest
  {
    hide BigEndian, FromBigEndian, LengthBytes, LengthOf;
    var r := Receive(s);
    var header := s[..HEADER_LEN];
    FromBigEndianRoundTrip(header[..4]);
    FromBigEndianRoundTrip(header[4..8]);
    LengthOfRoundTrip(header[8..12]);
    assert Covered(r.m, s[13..16]) == header[4..] + r.m.body;
  }

  /** No burst of at most 32 bits after the checksum field gets past crc32_check. */
  lemma {:induction false} BurstIsRejected(header: bytes, body: bytes, header': bytes, body': bytes, at: nat, n: nat)
    requires |header| == |header'| == HEADER_LEN && |body| == |body'|
    requires CrcMatches(header, body) && header[..4] == header'[..4]
    requires header + body != header' + body'
    requires n <= 32 && C.AgreeOutside(C.DataBits(header[4..] + body), C.DataBits(header'[4..] + body'), at, n)
    ensures !CrcMatches(header', body')
  {
    hide FromBigEndian, C.AgreeOutside, C.Checksum, C.DataBits;
    AfterChecksum(header, body);
    AfterChecksum(header', body');
    C.BurstIsDetected(header[4..] + body, header'[4..] + body', at, n);
  }

  lemma AfterChecksum(header: bytes, body: bytes)
    requires |header| == HEADER_LEN
    ensures header + body == header[..4] + (header[4..] + body)
  {
  }

  /** A sequence of messages as it leaves the sender. */
  function Wire(ms: seq<Message>): bytes
  {
    if ms == [] then [] else Frame(ms[0]) + Wire(ms[1..])
  }

  /** One call of send or recv: the most it may move, an EINTR/EAGAIN to repeat, or an error. */
  datatype Io = Piece(most: nat) | Interrupted | Broken

  /** The calls never break and together may move at least n bytes. */
  predicate Moves(calls: seq<Io>, n: int)
  {
    if n <= 0 then true
    else if calls == [] then false
    else
      match calls[0]
      case Piece(k) => k > 0 && Moves(calls[1..], n - k)
      case Interrupted => Moves(calls[1..], n)
      case Broken => false
  }

  datatype Outcome = Done | Error | PeerClosed | Waiting

  function Min(a: nat, b: nat): nat
  {
    if a < b then a else b
  }

  class Socket {
    var outgoing: bytes  // handed to the kernel so far
    var incoming: bytes  // sent by the peer and not yet taken

    constructor ()
      ensures outgoing == [] && incoming == []
    {
      outgoing, incoming := [], [];
    }

    /** socket_send; Waiting when the calls given do not suffice. */
    method Send(buffer: bytes, calls: seq<Io>) returns (r: Outcome)
      modifies this`outgoing
      ensures r == Done ==> outgoing == old(outgoing) + buffer
      ensures exists k | 0 <= k <= |buffer| :: outgoing == old(outgoing) + buffer[..k]
      ensures buffer != [] && Moves(calls, |buffer|) ==> r == Done
    {
      var sent, i := 0, 0;
      while i < |calls|
        invariant 0 <= i <= |calls| && 0 <= sent <= |buffer| && (buffer != [] ==> sent < |buffer|)
        invariant outgoing == old(outgoing) + buffer[..sent]
        invariant buffer != [] && Moves(calls, |buffer|) ==> Moves(calls[i..], |buffer| - sent)
      {
        var call := calls[i];
        i := i + 1;
        if call.Broken? {
          return Error;
        }
        if call.Piece? {
          var need := |buffer| - sent;
          var tmp := Min(call.most, need);
          outgoing := outgoing + buffer[sent..sent + tmp];
          assert buffer[..sent] + buffer[sent..sent + tmp] == buffer[..sent + tmp];
          sent := sent + tmp;
          if tmp == need {
            assert buffer[..sent] == buffer;
            return Done;
          }
        }
      }
      return Waiting;
    }

    /** socket_receive, once select has found the socket readable. */
    method Recv(len: nat, calls: seq<Io>) returns (r: Outcome, data: bytes)
      modifies this`incoming
      ensures old(incoming) == data + incoming && |data| <= len
      ensures r == Done ==> |data| == len
      ensures len > 0 && |old(incoming)| >= len && Moves(calls, len) ==> r == Done
    {
      data := [];
      var i := 0;
      while i < |calls|
        invariant 0 <= i <= |calls| && |data| <= len && (len > 0 ==> |data| < len)
        invariant old(incoming) == data + incoming
        invariant len > 0 && |old(incoming)| >= len && Moves(calls, len) ==> Moves(calls[i..], len - |data|)
      {
        var call := calls[i];
        i := i + 1;
        if call.Broken? {
          return Error, data;
        }
        if call.Piece? {
          var need := len - |data|;
          var tmp := Min(Min(call.most, need), |incoming|);
          if tmp == 0 {
            return PeerClosed, data;
          }
          data, incoming := data + incoming[..tmp], incoming[tmp..];
          if tmp == need {
            return Done, data;
          }
        }
      }
      return Waiting, data;
    }

    /** send_message */
    method SendMessage(m: Message, calls: seq<Io>) returns (r: Outcome)
      modifies this`outgoing
      ensures r == Done ==> outgoing == old(outgoing) + Frame(m)
      ensures Moves(calls, HEADER_LEN + |m.body|) ==> r == Done
    {
      var covered := BigEndian(m.identifier) + LengthBytes(|m.body|) + [m.kind, 0, 0, 0] + m.body;
      assert covered == Covered(m, [0, 0, 0]);
      var crc := C.Crc32(covered);
      r := Send(BigEndian(crc) + covered, calls);
    }

    /** receive_message; a body is asked for only when the header announces one. */
    method ReceiveMessage(headerCalls: seq<Io>, bodyCalls: seq<Io>) returns (r: Outcome, m: Message)
      modifies this`incoming
      ensures r == Done ==> Receive(old(incoming)) == Got(m, incoming)
      ensures Receive(old(incoming)).Rejected? ==> r != Done
      ensures Receive(old(incoming)).Got?
              && Moves(headerCalls, HEADER_LEN) && Moves(bodyCalls, |Receive(old(incoming)).m.body|)
              ==> r == Done
    {
      hide FromBigEndian, LengthOf, Receive;
      ghost var s := incoming;
      m := Message(0, 0, []);
      var header;
      r, header := Recv(HEADER_LEN, headerCalls);
      ReceiveNeeds(s);
      if r != Done {
        return;
      }
      assert s[..HEADER_LEN] == header;
      var len := LengthOf(header[8..12]);
      LengthOfRoundTrip(header[8..12]);
      var body := [];
      if len != 0 {
        r, body := Recv(len, bodyCalls);
        if r != Done {
          return;
        }
      }
      assert s == header + body + incoming;
      ReceiveParts(header, body, incoming);
      var crc := C.Crc32(header[4..] + body);
      if FromBigEndian(header[..4]) != crc {
        return Error, m;
      }
      m := Message(FromBigEndian(header[4..8]), header[12], body);
    }
  }

  /** A message, with the pieces in which its frame happens to be sent and received. */
  datatype Delivery = Delivery(m: Message, send: seq<Io>, header: seq<Io>, body: seq<Io>)

  ghost predicate Goes(d: Delivery)
  {
    && |d.m.body| < 0x1_0000_0000
    && Moves(d.send, HEADER_LEN + |d.m.body|)
    && Moves(d.header, HEADER_LEN)
    && Moves(d.body, |d.m.body|)
  }

  function Messages(ds: seq<Delivery>): (ms: seq<Message>)
    ensures |ms| == |ds|
  {
    if ds == [] then [] else [ds[0].m] + Messages(ds[1..])
  }

  lemma {:induction false} MessagesAt(ds: seq<Delivery>)
    ensures forall i | 0 <= i < |ds| :: Messages(ds)[i] == ds[i].m
  {
    if ds != [] {
      MessagesAt(ds[1..]);
    }
  }

  lemma Parts(d: Delivery)
    requires Goes(d)
    ensures |d.m.body| < 0x1_0000_0000 && Moves(d.send, HEADER_LEN + |d.m.body|)
    ensures Moves(d.header, HEADER_LEN) && Moves(d.body, |d.m.body|)
  {
  }

  lemma NextDelivery(ds: seq<Delivery>, i: nat)
    requires i < |ds|
    ensures Messages(ds[i..]) == [ds[i].m] + Messages(ds[i + 1..])
    ensures Wire(Messages(ds[i..])) == Frame(ds[i].m) + Wire(Messages(ds[i + 1..]))
  {
    hide Frame;
    assert ds[i..][1..] == ds[i + 1..];
    assert Messages(ds[i..])[1..] == Messages(ds[i + 1..]);
  }

  method SendAll(a: Socket, ds: seq<Delivery>)
    requires forall i | 0 <= i < |ds| :: Goes(ds[i])
    modifies a`outgoing
    ensures a.outgoing == old(a.outgoing) + Wire(Messages(ds))
  {
    hide Frame, Moves, Goes, Wire, Messages;
    var i := 0;
    while i < |ds|
      invariant 0 <= i <= |ds|
      invariant a.outgoing + Wire(Messages(ds[i..])) == old(a.outgoing) + Wire(Messages(ds))
    {
      ghost var before := a.outgoing;
      Parts(ds[i]);
      var r := a.SendMessage(ds[i].m, ds[i].send);
      NextDelivery(ds, i);
      assert a.outgoing + Wire(Messages(ds[i + 1..])) == before + Wire(Messages(ds[i..]));
      i := i + 1;
    }
    NoneLeft(ds[i..]);
  }

  lemma NoneLeft(ds: seq<Delivery>)
    requires ds == []
    ensures Messages(ds) == [] && Wire(Messages(ds)) == []
  {
  }

  method ReceiveAll(b: Socket, ds: seq<Delivery>, ghost rest: bytes) returns (ms: seq<Message>)
    requires forall i | 0 <= i < |ds| :: Goes(ds[i])
    requires b.incoming == Wire(Messages(ds)) + rest
    modifies b`incoming
    ensures ms == Messages(ds) && b.incoming == rest
  {
    hide Frame, Moves, Receive, Goes, Wire, Messages;
    ms := [];
    var i := 0;
    while i < |ds|
      invariant 0 <= i <= |ds|
      invariant b.incoming == Wire(Messages(ds[i..])) + rest
      invariant ms + Messages(ds[i..]) == Messages(ds)
    {
      Parts(ds[i]);
      ghost var later := Wire(Messages(ds[i + 1..])) + rest;
      NextDelivery(ds, i);
      assert b.incoming == Frame(ds[i].m) + later;
      FrameIsReceived(ds[i].m, later);
      var r, m := b.ReceiveMessage(ds[i].header, ds[i].body);
      assert ms + Messages(ds[i..]) == ms + [m] + Messages(ds[i + 1..]);
      ms := ms + [m];
      i := i + 1;
    }
    NoneLeft(ds[i..]);
  }

  lemma FrameIsReceived(m: Message, rest: bytes)
    requires |m.body| < 0x1_0000_0000
    ensures Receive(Frame(m) + rest) == Got(m, rest)
  {
    ReceiveFrame(m, [0, 0, 0], rest);
  }

  /**
   Any sequence of messages, sent and received in any pieces over a stream that already holds
   other traffic behind it, arrives in order and unchanged, and nothing else is consumed.
   */
  method Transfer(ds: seq<Delivery>, behind: bytes) returns (received: seq<Message>, unread: bytes)
    requires forall d | d in ds :: Goes(d)
    ensures |received| == |ds| && forall i | 0 <= i < |ds| :: received[i] == ds[i].m
    ensures unread == behind
  {
    var a := new Socket();
    var b := new Socket();
    SendAll(a, ds);
    b.incoming := a.outgoing + behind;
    received := ReceiveAll(b, ds, behind);
    MessagesAt(ds);
    unread := b.incoming;
  }
}
