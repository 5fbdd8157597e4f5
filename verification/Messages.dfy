/** SOME/IP messages and their wire form: a 16-octet header followed by the payload. */
module Messages {
  import opened Bytes

  const PROTOCOL_VERSION: Byte := 0x01
  const INTERFACE_VERSION: Byte := 0x01
  const HEADER_SIZE := 16

  const REQUEST: Byte := 0x00
  const REQUEST_NO_RETURN: Byte := 0x01
  const NOTIFICATION: Byte := 0x02
  const RESPONSE: Byte := 0x80
  const ERROR: Byte := 0x81
  const TP_REQUEST: Byte := 0x20
  const TP_REQUEST_NO_RETURN: Byte := 0x21
  const TP_NOTIFICATION: Byte := 0x22
  const TP_RESPONSE: Byte := 0xA0
  const TP_ERROR: Byte := 0xA1

  /** `instanceId` and `reliable` route messages inside one process and are not on the wire. An absent
      payload models the null payload pointer of a message that was given none. */
  datatype Message = Message(
    serviceId: U16,
    instanceId: U16,
    methodId: U16,
    clientId: U16,
    sessionId: U16,
    protocolVersion: Byte,
    interfaceVersion: Byte,
    messageType: Byte,
    returnCode: Byte,
    reliable: bool,
    payload: Option<seq<Byte>>)
  {
    function Data(): seq<Byte> {
      if payload.Some? then payload.value else []
    }

    /** The length field: the payload size cut to 32 bits. */
    function Length(): U32 {
      |Data()| % 0x1_0000_0000
    }

    function RequestId(): U32 {
      clientId * 0x1_0000 + sessionId
    }

    predicate IsTp() {
      messageType in {TP_REQUEST, TP_REQUEST_NO_RETURN, TP_NOTIFICATION, TP_RESPONSE, TP_ERROR}
    }

    predicate IsBase() {
      messageType in {REQUEST, REQUEST_NO_RETURN, NOTIFICATION, RESPONSE, ERROR}
    }

    /** The message as a receiver can know it: routing data reset, payload present. */
    function Wire(): Message {
      this.(instanceId := 0xFFFF, reliable := false, payload := Some(Data()))
    }
  }

  /** A message with every field at its default member initializer. */
  const FRESH := Message(0, 0xFFFF, 0, 0, 0, PROTOCOL_VERSION, INTERFACE_VERSION, REQUEST, 0, false, None)

  /** The request id has the client in its high half and the session in its low half. */
  lemma RequestIdParts(m: Message)
    ensures m.RequestId() / 0x1_0000 == m.clientId && m.RequestId() % 0x1_0000 == m.sessionId
  {
  }

  /** Messages share a request id exactly when they share client and session. */
  lemma SameRequestId(a: Message, b: Message)
    ensures a.RequestId() == b.RequestId() <==> a.clientId == b.clientId && a.sessionId == b.sessionId
  {
    RequestIdParts(a);
    RequestIdParts(b);
  }

  /** Messages look the same on the wire exactly when all fields of the header and the payload agree; the
      instance and the transport are set to their defaults. */
  lemma WireExactly(a: Message, b: Message)
    ensures a.Wire() == b.Wire()
            <==> && a.serviceId == b.serviceId && a.methodId == b.methodId && a.clientId == b.clientId
                 && a.sessionId == b.sessionId && a.protocolVersion == b.protocolVersion
                 && a.interfaceVersion == b.interfaceVersion && a.messageType == b.messageType
                 && a.returnCode == b.returnCode && a.Data() == b.Data()
    ensures a.Wire().instanceId == 0xFFFF && !a.Wire().reliable && a.Wire().Data() == a.Data()
  {
  }

  function Encode(m: Message): seq<Byte> {
    Big(m.serviceId, 2) + Big(m.methodId, 2) + Big(m.Length(), 4)
    + Big(m.clientId, 2) + Big(m.sessionId, 2)
    + [m.protocolVersion, m.interfaceVersion, m.messageType, m.returnCode]
    + m.Data()
  }

  method Serialize(m: Message) returns (result: seq<Byte>)
    ensures result == Encode(m)
  {
    result := Big(m.serviceId, 2);
    result := result + Big(m.methodId, 2);
    result := result + Big(m.Length(), 4);
    result := result + Big(m.clientId, 2);
    result := result + Big(m.sessionId, 2);
    result := result + [m.protocolVersion, m.interfaceVersion, m.messageType, m.returnCode];
    if m.payload.Some? {
      result := result + m.payload.value;
    }
  }

  /** The payload size a header declares. */
  function DeclaredLength(data: seq<Byte>): U32
    requires |data| >= HEADER_SIZE
  {
    Read32(data, 4)
  }

  function Decode(data: seq<Byte>): Option<Message> {
    if |data| < HEADER_SIZE then None
    else if data[12] != PROTOCOL_VERSION then None
    else if |data| < HEADER_SIZE + DeclaredLength(data) then None
    else Some(Message(
                Read16(data, 0), 0xFFFF, Read16(data, 2), Read16(data, 8), Read16(data, 10),
                data[12], data[13], data[14], data[15], false,
                Some(data[HEADER_SIZE..HEADER_SIZE + DeclaredLength(data)])))
  }

  lemma EncodedLayout(m: Message)
    ensures var e := Encode(m);
            && |e| == HEADER_SIZE + |m.Data()|
            && e[0..2] == Big(m.serviceId, 2) && e[2..4] == Big(m.methodId, 2)
            && e[4..8] == Big(m.Length(), 4)
            && e[8..10] == Big(m.clientId, 2) && e[10..12] == Big(m.sessionId, 2)
            && e[12..16] == [m.protocolVersion, m.interfaceVersion, m.messageType, m.returnCode]
            && e[HEADER_SIZE..] == m.Data()
  {
  }

  /** Octets that agree on every field of the header and after it are the same. */
  lemma SameCuts(s: seq<Byte>, t: seq<Byte>)
    requires |s| >= HEADER_SIZE && |t| >= HEADER_SIZE
    requires s[0..2] == t[0..2] && s[2..4] == t[2..4] && s[4..8] == t[4..8]
    requires s[8..10] == t[8..10] && s[10..12] == t[10..12] && s[12..16] == t[12..16] && s[16..] == t[16..]
    ensures s == t
  {
    assert s == s[0..2] + s[2..4] + s[4..8] + s[8..10] + s[10..12] + s[12..16] + s[16..];
    assert t == t[0..2] + t[2..4] + t[4..8] + t[8..10] + t[10..12] + t[12..16] + t[16..];
  }

  /** The octets of a message, one by one. */
  lemma EncodedOctets(m: Message)
    ensures var n := |m.Data()| % 0x1_0000_0000;
            Encode(m)
            == [m.serviceId / 0x100, m.serviceId % 0x100, m.methodId / 0x100, m.methodId % 0x100,
                n / 0x100_0000, n / 0x1_0000 % 0x100, n / 0x100 % 0x100, n % 0x100,
                m.clientId / 0x100, m.clientId % 0x100, m.sessionId / 0x100, m.sessionId % 0x100,
                m.protocolVersion, m.interfaceVersion, m.messageType, m.returnCode]
               + m.Data()
  {
    var n := m.Length();
    var service, method', length := [m.serviceId / 0x100, m.serviceId % 0x100],
        [m.methodId / 0x100, m.methodId % 0x100],
        [n / 0x100_0000, n / 0x1_0000 % 0x100, n / 0x100 % 0x100, n % 0x100];
    var client, session := [m.clientId / 0x100, m.clientId % 0x100], [m.sessionId / 0x100, m.sessionId % 0x100];
    assert Big(m.serviceId, 2) == service by { BigByShifts(m.serviceId); }
    assert Big(m.methodId, 2) == method' by { BigByShifts(m.methodId); }
    assert Big(n, 4) == length by { BigByShifts(n); }
    assert Big(m.clientId, 2) == client by { BigByShifts(m.clientId); }
    assert Big(m.sessionId, 2) == session by { BigByShifts(m.sessionId); }
  }

  lemma EncodedHeader(m: Message)
    ensures var e := Encode(m);
            && |e| == HEADER_SIZE + |m.Data()|
            && DeclaredLength(e) == m.Length()
            && Read16(e, 0) == m.serviceId && Read16(e, 2) == m.methodId
            && Read16(e, 8) == m.clientId && Read16(e, 10) == m.sessionId
            && e[12] == m.protocolVersion && e[13] == m.interfaceVersion
            && e[14] == m.messageType && e[15] == m.returnCode
            && e[HEADER_SIZE..] == m.Data()
  {
    var e := Encode(m);
    EncodedLayout(m);
    Limits();
    JoinBig(m.serviceId, 2);
    JoinBig(m.methodId, 2);
    JoinBig(m.Length(), 4);
    JoinBig(m.clientId, 2);
    JoinBig(m.sessionId, 2);
    assert forall i :: 12 <= i < 16 ==> e[i] == e[12..16][i - 12];
  }

  /** Serializing and then parsing gives the message back exactly when its protocol version is the one
      spoken here and its payload size fits the length field. */
  lemma DecodeEncode(m: Message)
    ensures Decode(Encode(m)) == Some(m.Wire())
            <==> m.protocolVersion == PROTOCOL_VERSION && |m.Data()| < 0x1_0000_0000
  {
    EncodedHeader(m);
    var e := Encode(m);
    if m.protocolVersion == PROTOCOL_VERSION {
      assert Decode(e).Some?;
      assert e[HEADER_SIZE..HEADER_SIZE + m.Length()] == m.Data()[..m.Length()];
      if |m.Data()| < 0x1_0000_0000 {
        assert m.Data()[..m.Length()] == m.Data();
      } else {
        assert |Decode(e).value.Data()| < |m.Data()|;
      }
    }
  }

  lemma DecodedLength(data: seq<Byte>)
    requires Decode(data).Some?
    ensures Decode(data).value.Length() == DeclaredLength(data) == |Decode(data).value.Data()|
  {
  }

  lemma TakeCut(data: seq<Byte>, n: nat, i: nat, j: nat)
    requires i <= j <= n <= |data|
    ensures data[..n][i..j] == data[i..j]
  {
    var s, t := data[..n][i..j], data[i..j];
    assert |s| == |t| && forall x :: 0 <= x < |s| ==> s[x] == t[x];
  }

  /** Which octet strings parse, and what serializing the parse result gives: the same octets, up to any
      that follow the declared payload. */
  lemma EncodeDecode(data: seq<Byte>)
    ensures Decode(data).Some?
            <==> |data| >= HEADER_SIZE && data[12] == PROTOCOL_VERSION
                 && |data| >= HEADER_SIZE + DeclaredLength(data)
    ensures Decode(data).Some?
            ==> Encode(Decode(data).value) == data[..HEADER_SIZE + DeclaredLength(data)]
  {
    if Decode(data).Some? {
      var m := Decode(data).value;
      var n := HEADER_SIZE + DeclaredLength(data);
      var e := Encode(m);
      DecodedLength(data);
      EncodedLayout(m);
      assert e[0..2] == data[0..2] by { BigJoin(data[0..2]); }
      assert e[2..4] == data[2..4] by { BigJoin(data[2..4]); }
      assert e[4..8] == data[4..8] by { BigJoin(data[4..8]); }
      assert e[8..10] == data[8..10] by { BigJoin(data[8..10]); }
      assert e[10..12] == data[10..12] by { BigJoin(data[10..12]); }
      assert data[12..16] == [data[12], data[13], data[14], data[15]];
      var d := data[..n];
      forall i: nat, j: nat | i <= j <= n ensures d[i..j] == data[i..j] {
        TakeCut(data, n, i, j);
      }
      SameCuts(e, d);
    }
  }

  method Deserialize(data: seq<Byte>) returns (r: Option<Message>)
    ensures r == Decode(data)
  {
    if |data| < HEADER_SIZE {
      return None;
    }
    var payloadLength := DeclaredLength(data);
    if data[12] != PROTOCOL_VERSION {
      return None;
    }
    if |data| < HEADER_SIZE + payloadLength {
      return None;
    }
    var payload: seq<Byte> := [];
    if payloadLength > 0 {
      payload := data[HEADER_SIZE..HEADER_SIZE + payloadLength];
    } else {
      assert data[HEADER_SIZE..HEADER_SIZE + payloadLength] == payload;
    }
    r := Some(Message(
      Read16(data, 0), 0xFFFF, Read16(data, 2), Read16(data, 8), Read16(data, 10),
      data[12], data[13], data[14], data[15], false, Some(payload)));
  }
}
