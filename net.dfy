/**
 * The wire codec of the peer-to-peer layer (INet): 32-bit words in network byte
 * order, 64-bit numbers as two such words, payloads in chunks of at most 2048
 * bytes, and packets as version, message type, size and payload.
 *
 * A connected socket is modelled by `Connection`: the bytes the peer will ever
 * send (`incoming`, read from `pos` on), the bytes sent so far (`outgoing`), and
 * two properties of the transport: `window`, the most bytes one send or recv
 * call moves (so that short transfers happen), and `broken`, under which every
 * call fails with -1.
 */
module Net {
  import opened Bytes
  import opened Packets

  /** INet's mChunkSize. */
  const CHUNK_SIZE: nat := 2048

  /** The runtime_error each operation throws, and the one case where the source never returns. */
  datatype NetError =
    | NullSocket   // "INet: Socket is null."
    | SendFailed   // send returned a negative value
    | RecvFailed   // recv returned a negative value
    | Stalled      // recvDataAlloc at end of stream: the source loops forever on 0-byte reads

  datatype Outcome = Pass | Fail(error: NetError)

  /** What one send or recv call moves: at most the request, the bytes ready, and the window. */
  function Transfer(n: nat, ready: nat, window: nat): (k: nat)
    ensures k <= n && k <= ready && k <= window
    ensures k == n || k == ready || k == window
  {
    Min(n, Min(ready, window))
  }

  // ----- the wire format as pure functions

  function WordBytes(x: uint32): (s: seq<uint8>)
    ensures |s| == 4
  {
    Pow256Values();
    BE(x, 4)
  }

  /** The part of a buffer that a single send call puts on the wire. */
  function SentOnce(bytes: seq<uint8>, window: nat): (s: seq<uint8>)
    ensures s <= bytes
    ensures |s| == Min(|bytes|, window)
  {
    bytes[..Min(|bytes|, window)]
  }

  /** sendUInt64's words: the value shifted right by 32, and its low 32 bits. */
  function HighWord(x: uint64): (hi: uint32)
    ensures hi * TWO_32 <= x < (hi + 1) * TWO_32
  {
    BEWords(x);
    x / TWO_32
  }

  function LowWord(x: uint64): (lo: uint32)
    ensures HighWord(x) * TWO_32 + lo == x
  {
    x % TWO_32
  }

  /**
   * recvUInt64 as written: the high word shifted left by 32, or'ed with the low word
   * shifted RIGHT by 32, which is always 0; the two operands share no bits, so the
   * or is a sum.
   */
  function DecodeUInt64(hi: uint32, lo: uint32): (r: uint64)
    ensures r == hi * TWO_32
    ensures r % TWO_32 == 0
  {
    assert hi * TWO_32 <= (TWO_32 - 1) * TWO_32 < TWO_64;
    hi * TWO_32 + lo / TWO_32
  }

  /**
   * One recvUInt from position `pos`: recv fills a prefix of the zero-initialised
   * 4-byte variable, which is then read in network order.
   */
  function RecvWord(s: seq<uint8>, pos: nat, window: nat): (r: (uint32, nat))
    requires pos <= |s|
    ensures pos <= r.1 <= |s| && r.1 <= pos + 4
    ensures r.1 == pos + Transfer(4, |s| - pos, window)
  {
    Pow256Values();
    var k := Transfer(4, |s| - pos, window);
    (FromBE(s[pos..pos + k] + Zeros(4 - k)), pos + k)
  }

  /** The bytes sendPacket puts on a working connection with the given window. */
  function SentPacket(p: DPacket, window: nat): (s: seq<uint8>)
    requires PayloadFits(p)
  {
    SentOnce(WordBytes(p.version), window)
    + SentOnce(WordBytes(p.messageType), window)
    + SentOnce(WordBytes(HighWord(p.dataSize)), window)
    + SentOnce(WordBytes(LowWord(p.dataSize)), window)
    + SentPayload(p)
  }

  /** sendData is called only for a non-zero size and a non-null payload, and sends all of it. */
  function SentPayload(p: DPacket): (s: seq<uint8>)
    requires PayloadFits(p)
    ensures p.dataSize != 0 && p.data.Some? ==> s == p.data.value[..p.dataSize]
    ensures p.dataSize == 0 || p.data.None? ==> s == []
  {
    if p.dataSize != 0 && p.data.Some? then p.data.value[..p.dataSize] else []
  }

  /** What recvPacket returns on a working connection, and where it leaves the stream. */
  function ReceivedPacket(s: seq<uint8>, pos: nat, window: nat): (r: Result<(DPacket, nat), NetError>)
    requires pos <= |s|
    ensures r.Ok? ==> pos <= r.value.1 <= |s| && PayloadFits(r.value.0)
    ensures r.Err? ==> r.error == Stalled
  {
    var (version, p1) := RecvWord(s, pos, window);
    var (messageType, p2) := RecvWord(s, p1, window);
    var (hi, p3) := RecvWord(s, p2, window);
    var (lo, p4) := RecvWord(s, p3, window);
    var size := DecodeUInt64(hi, lo);
    if size == 0 then Ok((DPacket(version, messageType, 0, None), p4))
    else if size <= |s| - p4 then Ok((DPacket(version, messageType, size, Some(s[p4..p4 + size])), p4 + size))
    else Err(Stalled)
  }

  // ----- properties of the format

  /** recvUInt reads back what sendUInt wrote, once the window holds a whole word. */
  lemma RecvWordOfWordBytes(x: uint32, s: seq<uint8>, pos: nat, window: nat)
    requires window >= 4 && pos + 4 <= |s| && s[pos..pos + 4] == WordBytes(x)
    ensures RecvWord(s, pos, window) == (x, pos + 4)
  {
    Pow256Values();
    assert s[pos..pos + 4] + Zeros(0) == BE(x, 4);
    FromBEOfBE(x, 4);
  }

  /** A word cut short by the end of the stream reads as if zero bytes followed it. */
  lemma ShortWordIsPadded(s: seq<uint8>, pos: nat, window: nat)
    requires window >= 4 && pos <= |s| < pos + 4
    ensures RecvWord(s, pos, window).0 == FromBE(s[pos..]) * Pow256(4 - (|s| - pos))
    ensures RecvWord(s, pos, window).1 == |s|
  {
    var k := |s| - pos;
    assert s[pos..pos + k] == s[pos..];
    FromBEAppend(s[pos..], Zeros(4 - k));
    ZerosReadAsZero(4 - k);
  }

  lemma {:induction false} ZerosReadAsZero(n: nat)
    ensures FromBE(Zeros(n)) == 0
  {
    if n > 0 {
      assert Zeros(n)[..n - 1] == Zeros(n - 1);
      ZerosReadAsZero(n - 1);
    }
  }

  /** recvInt reads back what sendInt wrote: the two's complement casts cancel. */
  lemma RecvIntOfSendInt(x: int32)
    ensures Signed32(FromBE(WordBytes(Unsigned32(x)))) == x
  {
    Pow256Values();
    FromBEOfBE(Unsigned32(x), 4);
  }

  /** sendUInt64 puts the 8-byte network-order encoding of the value on the wire. */
  lemma UInt64OnWire(x: uint64)
    ensures WordBytes(HighWord(x)) + WordBytes(LowWord(x)) == BE(x, 8)
  {
    BEWords(x);
  }

  /**
   * recvUInt64 does not invert sendUInt64: it recovers the value with its low
   * 32 bits cleared, so exactly the multiples of 2^32 survive, and every value
   * below 2^32 arrives as 0.
   */
  lemma RecvUInt64AsWritten(x: uint64)
    ensures DecodeUInt64(HighWord(x), LowWord(x)) == x - x % TWO_32
    ensures DecodeUInt64(HighWord(x), LowWord(x)) == x <==> x % TWO_32 == 0
    ensures x < TWO_32 ==> DecodeUInt64(HighWord(x), LowWord(x)) == 0
  {
  }

  /** The four header words of a sent packet, each whole when the window holds a word. */
  lemma SentHeader(p: DPacket, window: nat)
    requires PayloadFits(p) && window >= 4
    ensures |SentPacket(p, window)| == 16 + |SentPayload(p)|
    ensures SentPacket(p, window)[0..4] == WordBytes(p.version)
    ensures SentPacket(p, window)[4..8] == WordBytes(p.messageType)
    ensures SentPacket(p, window)[8..12] == WordBytes(HighWord(p.dataSize))
    ensures SentPacket(p, window)[12..16] == WordBytes(LowWord(p.dataSize))
    ensures SentPacket(p, window)[16..] == SentPayload(p)
  {
  }

  /** The header fields a receiver decodes from a sent packet, followed by any bytes. */
  lemma ReceivedHeader(p: DPacket, rest: seq<uint8>, window: nat)
    requires PayloadFits(p) && window >= 4
    ensures var s := SentPacket(p, window) + rest;
      RecvWord(s, 0, window) == (p.version, 4)
      && RecvWord(s, 4, window) == (p.messageType, 8)
      && RecvWord(s, 8, window) == (HighWord(p.dataSize), 12)
      && RecvWord(s, 12, window) == (LowWord(p.dataSize), 16)
  {
    var s := SentPacket(p, window) + rest;
    SentHeader(p, window);
    assert s[0..4] == SentPacket(p, window)[0..4];
    assert s[4..8] == SentPacket(p, window)[4..8];
    assert s[8..12] == SentPacket(p, window)[8..12];
    assert s[12..16] == SentPacket(p, window)[12..16];
    RecvWordOfWordBytes(p.version, s, 0, window);
    RecvWordOfWordBytes(p.messageType, s, 4, window);
    RecvWordOfWordBytes(HighWord(p.dataSize), s, 8, window);
    RecvWordOfWordBytes(LowWord(p.dataSize), s, 12, window);
  }

  /** A packet without payload crosses the wire intact. */
  lemma EmptyPacketRoundTrip(p: DPacket, rest: seq<uint8>, window: nat)
    requires p.dataSize == 0 && p.data == None && window >= 4
    ensures ReceivedPacket(SentPacket(p, window) + rest, 0, window) == Ok((p, 16))
  {
    ReceivedHeader(p, rest, window);
  }

  /** The default DPacket crosses the wire intact, as the bytes 0 0 0 1 and twelve zeros. */
  lemma DefaultPacketOnWire(window: nat)
    requires window >= 4
    ensures SentPacket(NewDPacket(), window) == [0, 0, 0, 1] + Zeros(12)
    ensures ReceivedPacket(SentPacket(NewDPacket(), window), 0, window) == Ok((NewDPacket(), 16))
  {
    var p := NewDPacket();
    Pow256Values();
    assert WordBytes(1) == [0, 0, 0, 1];
    assert WordBytes(0) == [0, 0, 0, 0];
    assert SentPacket(p, window) == [0, 0, 0, 1] + [0, 0, 0, 0] + [0, 0, 0, 0] + [0, 0, 0, 0];
    EmptyPacketRoundTrip(p, [], window);
    assert SentPacket(p, window) + [] == SentPacket(p, window);
  }

  /**
   * A packet whose size is below 2^32 (every size the protocol produces) arrives
   * as a header with size 0 and no payload: its payload stays in the stream and
   * is read as the start of the next packet.
   */
  lemma SmallPayloadIsLeftUnread(p: DPacket, rest: seq<uint8>, window: nat)
    requires PayloadFits(p) && p.dataSize < TWO_32 && window >= 4
    ensures ReceivedPacket(SentPacket(p, window) + rest, 0, window)
         == Ok((DPacket(p.version, p.messageType, 0, None), 16))
    ensures (SentPacket(p, window) + rest)[16..] == SentPayload(p) + rest
  {
    ReceivedHeader(p, rest, window);
    SentHeader(p, window);
    assert HighWord(p.dataSize) == 0;
  }

  /** A payload arrives whole only when its size is a multiple of 2^32. */
  lemma AlignedPayloadRoundTrip(p: DPacket, rest: seq<uint8>, window: nat)
    requires PayloadFits(p) && p.data.Some? && p.dataSize != 0 && p.dataSize % TWO_32 == 0 && window >= 4
    ensures ReceivedPacket(SentPacket(p, window) + rest, 0, window)
         == Ok((p.(data := Some(p.data.value[..p.dataSize])), 16 + p.dataSize))
  {
    ReceivedHeader(p, rest, window);
    SentHeader(p, window);
    var s := SentPacket(p, window) + rest;
    assert s[16..16 + p.dataSize] == p.data.value[..p.dataSize];
  }

  // ----- the connection

  class Connection {
    const socket: int
    const incoming: seq<uint8>
    const window: nat
    const broken: bool
    var pos: nat
    var outgoing: seq<uint8>
    /** The size requested by each send and each recv call, in order. */
    ghost var sendRequests: seq<nat>
    ghost var recvRequests: seq<nat>

    ghost predicate Valid()
      reads this
    {
      window >= 1 && pos <= |incoming|
    }

    /**
     * INet itself starts with socket 0; the client and server set the descriptor
     * they connected or accepted, given here.
     */
    constructor (socket: int, incoming: seq<uint8>, window: nat, broken: bool)
      requires window >= 1
      ensures Valid()
      ensures this.socket == socket && this.incoming == incoming && this.window == window && this.broken == broken
      ensures pos == 0 && outgoing == [] && sendRequests == [] && recvRequests == []
    {
      this.socket := socket;
      this.incoming := incoming;
      this.window := window;
      this.broken := broken;
      pos := 0;
      outgoing := [];
      sendRequests := [];
      recvRequests := [];
    }

    /** send(2): moves up to `window` bytes of the buffer, or fails with -1. */
    method Send(bytes: seq<uint8>) returns (r: int)
      requires Valid()
      modifies this`outgoing, this`sendRequests
      ensures sendRequests == old(sendRequests) + [|bytes|]
      ensures broken ==> r == -1 && outgoing == old(outgoing)
      ensures !broken ==> r == Min(|bytes|, window) && outgoing == old(outgoing) + SentOnce(bytes, window)
    {
      sendRequests := sendRequests + [|bytes|];
      if broken {
        r := -1;
      } else {
        r := Min(|bytes|, window);
        outgoing := outgoing + bytes[..r];
      }
    }

    /** recv(2): reads up to `n` of the bytes ready (0 at end of stream), or fails with -1. */
    method Recv(n: nat) returns (r: int, got: seq<uint8>)
      requires Valid()
      modifies this`pos, this`recvRequests
      ensures Valid()
      ensures recvRequests == old(recvRequests) + [n]
      ensures broken ==> r == -1 && got == [] && pos == old(pos)
      ensures !broken ==> (r == Transfer(n, |incoming| - old(pos), window)
                       && pos == old(pos) + r && got == incoming[old(pos)..pos])
    {
      recvRequests := recvRequests + [n];
      if broken {
        r, got := -1, [];
      } else {
        r := Transfer(n, |incoming| - pos, window);
        got := incoming[pos..pos + r];
        pos := pos + r;
      }
    }

    method SendUInt(x: uint32) returns (out: Outcome)
      requires Valid()
      modifies this`outgoing, this`sendRequests
      ensures broken ==> out == Fail(SendFailed) && outgoing == old(outgoing)
      ensures !broken ==> out == Pass && outgoing == old(outgoing) + SentOnce(WordBytes(x), window)
    {
      var r := Send(WordBytes(x));
      out := if r < 0 then Fail(SendFailed) else Pass;
    }

    method RecvUInt() returns (res: Result<uint32, NetError>)
      requires Valid()
      modifies this`pos, this`recvRequests
      ensures Valid()
      ensures broken ==> res == Err(RecvFailed) && pos == old(pos)
      ensures !broken ==> (res == Ok(RecvWord(incoming, old(pos), window).0)
                       && pos == RecvWord(incoming, old(pos), window).1)
    {
      Pow256Values();
      var r, got := Recv(4);
      if r < 0 {
        return Err(RecvFailed);
      }
      res := Ok(FromBE(got + Zeros(4 - r)));
    }

    /** sendInt: the two's complement bit pattern as an unsigned word. */
    method SendInt(x: int32) returns (out: Outcome)
      requires Valid()
      modifies this`outgoing, this`sendRequests
      ensures broken ==> out == Fail(SendFailed) && outgoing == old(outgoing)
      ensures !broken ==> out == Pass && outgoing == old(outgoing) + SentOnce(WordBytes(Unsigned32(x)), window)
    {
      out := SendUInt(Unsigned32(x));
      if out.Fail? {
        // the source's own message differs ("INT32"), the failure is the same
        out := Fail(SendFailed);
      }
    }

    /** recvInt: the received word reinterpreted as a signed value. */
    method RecvInt() returns (res: Result<int32, NetError>)
      requires Valid()
      modifies this`pos, this`recvRequests
      ensures Valid()
      ensures broken ==> res == Err(RecvFailed) && pos == old(pos)
      ensures !broken ==> (res == Ok(Signed32(RecvWord(incoming, old(pos), window).0))
                       && pos == RecvWord(incoming, old(pos), window).1)
    {
      var word := RecvUInt();
      if word.Err? {
        return Err(word.error);
      }
      res := Ok(Signed32(word.value));
    }

    method SendUInt64(x: uint64) returns (out: Outcome)
      requires Valid()
      modifies this`outgoing, this`sendRequests
      ensures broken ==> out == Fail(SendFailed) && outgoing == old(outgoing)
      ensures !broken ==> (out == Pass && outgoing == old(outgoing)
        + SentOnce(WordBytes(HighWord(x)), window) + SentOnce(WordBytes(LowWord(x)), window))
    {
      out := SendUInt(HighWord(x));
      if out.Fail? {
        return;
      }
      out := SendUInt(LowWord(x));
    }

    method RecvUInt64() returns (res: Result<uint64, NetError>)
      requires Valid()
      modifies this`pos, this`recvRequests
      ensures Valid()
      ensures broken ==> res == Err(RecvFailed) && pos == old(pos)
      ensures !broken ==>
        var (hi, p1) := RecvWord(incoming, old(pos), window);
        var (lo, p2) := RecvWord(incoming, p1, window);
        res == Ok(DecodeUInt64(hi, lo)) && pos == p2
    {
      var hi := RecvUInt();
      if hi.Err? {
        return Err(RecvFailed);
      }
      var lo := RecvUInt();
      if lo.Err? {
        return Err(RecvFailed);
      }
      res := Ok(DecodeUInt64(hi.value, lo.value));
    }

    /**
     * sendData: repeated sends of at most 2048 bytes, the chunk trimmed to what
     * remains, until all `size` bytes are out.
     */
    method SendData(data: seq<uint8>, size: uint64) returns (out: Outcome)
      requires Valid() && size <= |data|
      modifies this`outgoing, this`sendRequests
      ensures broken && size > 0 ==> out == Fail(SendFailed) && outgoing == old(outgoing)
      ensures !broken || size == 0 ==> out == Pass && outgoing == old(outgoing) + data[..size]
      ensures forall i :: |old(sendRequests)| <= i < |sendRequests| ==> 0 < sendRequests[i] <= CHUNK_SIZE
    {
      var chunk := CHUNK_SIZE;
      var sent := 0;
      while sent < size
        invariant 0 <= sent <= size && 1 <= chunk <= CHUNK_SIZE
        invariant outgoing == old(outgoing) + data[..sent]
        invariant broken ==> sent == 0
        invariant |old(sendRequests)| <= |sendRequests|
        invariant forall i :: |old(sendRequests)| <= i < |sendRequests| ==> 0 < sendRequests[i] <= CHUNK_SIZE
        decreases size - sent
      {
        if sent + chunk > size {
          chunk := size - sent;
        }
        var r := Send(data[sent..sent + chunk]);
        if r < 0 {
          return Fail(SendFailed);
        }
        assert data[..sent] + data[sent..sent + chunk][..r] == data[..sent + r];
        sent := sent + r;
      }
      out := Pass;
    }

    /**
     * recvDataAlloc: repeated receives of at most 2048 bytes into a new buffer of
     * `size` bytes. Where the source keeps calling recv after the peer has closed
     * (each call returning 0, forever), the model stops with Stalled.
     */
    method RecvDataAlloc(size: uint64) returns (res: Result<seq<uint8>, NetError>)
      requires Valid()
      modifies this`pos, this`recvRequests
      ensures Valid()
      ensures broken && size > 0 ==> res == Err(RecvFailed) && pos == old(pos)
      ensures !broken || size == 0 ==>
        if size <= |incoming| - old(pos) then res == Ok(incoming[old(pos)..old(pos) + size]) && pos == old(pos) + size
        else res == Err(Stalled) && pos == |incoming|
      ensures forall i :: |old(recvRequests)| <= i < |recvRequests| ==> 0 < recvRequests[i] <= CHUNK_SIZE
    {
      var chunk := CHUNK_SIZE;
      var buffer := [];
      while |buffer| < size
        invariant |buffer| <= size && 1 <= chunk <= CHUNK_SIZE
        invariant Valid() && pos == old(pos) + |buffer| && buffer == incoming[old(pos)..pos]
        invariant broken ==> buffer == []
        invariant |old(recvRequests)| <= |recvRequests|
        invariant forall i :: |old(recvRequests)| <= i < |recvRequests| ==> 0 < recvRequests[i] <= CHUNK_SIZE
        decreases size - |buffer|
      {
        if |buffer| + chunk > size {
          chunk := size - |buffer|;
        }
        var r, got := Recv(chunk);
        if r < 0 {
          return Err(RecvFailed);
        }
        if r == 0 {
          return Err(Stalled);
        }
        buffer := buffer + got;
      }
      res := Ok(buffer);
    }

    method SendPacket(p: DPacket) returns (out: Outcome)
      requires Valid() && PayloadFits(p)
      modifies this`outgoing, this`sendRequests
      ensures socket == 0 ==> out == Fail(NullSocket) && outgoing == old(outgoing)
      ensures socket != 0 && broken ==> out == Fail(SendFailed) && outgoing == old(outgoing)
      ensures socket != 0 && !broken ==> out == Pass && outgoing == old(outgoing) + SentPacket(p, window)
    {
      if socket == 0 {
        return Fail(NullSocket);
      }
      out := SendUInt(p.version);
      if out.Fail? {
        return;
      }
      out := SendUInt(p.messageType);
      out := SendUInt64(p.dataSize);
      if p.dataSize != 0 && p.data.Some? {
        out := SendData(p.data.value, p.dataSize);
      }
    }

    method RecvPacket() returns (res: Result<DPacket, NetError>)
      requires Valid()
      modifies this`pos, this`recvRequests
      ensures Valid()
      ensures socket == 0 ==> res == Err(NullSocket) && pos == old(pos)
      ensures socket != 0 && broken ==> res == Err(RecvFailed) && pos == old(pos)
      ensures socket != 0 && !broken ==>
        var expected := ReceivedPacket(incoming, old(pos), window);
        (res.Ok? <==> expected.Ok?)
        && (res.Ok? ==> res.value == expected.value.0 && pos == expected.value.1)
        && (res.Err? ==> res.error == expected.error && pos == |incoming|)
    {
      if socket == 0 {
        return Err(NullSocket);
      }
      var packet := NewDPacket();
      var version := RecvUInt();
      if version.Err? {
        return Err(RecvFailed);
      }
      var messageType := RecvUInt();
      if messageType.Err? {
        return Err(RecvFailed);
      }
      var size := RecvUInt64();
      if size.Err? {
        return Err(RecvFailed);
      }
      packet := packet.(version := version.value, messageType := messageType.value, dataSize := size.value);
      if size.value != 0 {
        var payload := RecvDataAlloc(size.value);
        if payload.Err? {
          return Err(payload.error);
        }
        packet := packet.(data := Some(payload.value));
      }
      res := Ok(packet);
    }
  }
}
