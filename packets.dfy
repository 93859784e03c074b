/**
 * The packet records of the wire protocol: the message types (EMessageType),
 * the plain record DPacket that INet sends and receives, and CPacket, a record
 * that can own its payload buffer.
 */
module Packets {
  import opened Bytes

  /** EMessageType, in declaration order: the wire value of each is its position. */
  datatype MessageType = Null | Ping | Ack | Error | NodeRegister | NodeRegisterPort | Count

  function Ordinal(t: MessageType): (n: uint32)
    ensures n <= 6
    ensures t == Null <==> n == 0
  {
    match t
    case Null => 0
    case Ping => 1
    case Ack => 2
    case Error => 3
    case NodeRegister => 4
    case NodeRegisterPort => 5
    case Count => 6
  }

  /** The message type a wire value names, if any. */
  function TypeOf(n: uint32): (t: Option<MessageType>)
    ensures t.Some? <==> n <= 6
    ensures t.Some? ==> Ordinal(t.value) == n
  {
    if n == 0 then Some(Null)
    else if n == 1 then Some(Ping)
    else if n == 2 then Some(Ack)
    else if n == 3 then Some(Error)
    else if n == 4 then Some(NodeRegister)
    else if n == 5 then Some(NodeRegisterPort)
    else if n == 6 then Some(Count)
    else None
  }

  /** Distinct message types have distinct wire values. */
  lemma OrdinalInjective(a: MessageType, b: MessageType)
    requires Ordinal(a) == Ordinal(b)
    ensures a == b
  {
  }

  const PACKET_VERSION: uint32 := 1

  /**
   * DPacket. `messageType` holds the raw value stored in the enum field (the receiver
   * casts whatever 32-bit value arrives); `data` is the payload pointer, None for null.
   */
  datatype DPacket = DPacket(version: uint32, messageType: uint32, dataSize: uint64, data: Option<seq<uint8>>)

  /** The payload pointer, when set, designates at least `dataSize` bytes. */
  predicate PayloadFits(p: DPacket) {
    p.data.Some? ==> |p.data.value| >= p.dataSize
  }

  /** DPacket's default constructor. */
  function NewDPacket(): (p: DPacket)
    ensures p.version == 1 && p.messageType == Ordinal(Null) == 0
    ensures p.dataSize == 0 && p.data == None && PayloadFits(p)
  {
    DPacket(PACKET_VERSION, Ordinal(Null), 0, None)
  }

  /**
   * CPacket: a packet whose 32-bit-sized payload buffer it may own
   * (`trackDataAlloc`). `released` records the buffers given back with delete[].
   */
  class CPacket {
    var version: uint32
    var messageType: MessageType
    var dataSize: uint32
    var data: array?<uint8>
    var trackDataAlloc: bool
    ghost var released: seq<array<uint8>>

    predicate IsReset()
      reads this
    {
      version == PACKET_VERSION && messageType == Null && dataSize == 0 && data == null && !trackDataAlloc
    }

    constructor ()
      ensures IsReset() && released == []
    {
      trackDataAlloc := false;
      data := null;
      released := [];
      new;
      Reset();
    }

    /** Frees the payload only when this packet owns it; ownership always ends. */
    method DestroyData()
      modifies this`data, this`trackDataAlloc, this`released
      ensures old(trackDataAlloc) && old(data) != null ==> data == null && released == old(released) + [old(data)]
      ensures !(old(trackDataAlloc) && old(data) != null) ==> data == old(data) && released == old(released)
      ensures !trackDataAlloc
    {
      if trackDataAlloc && data != null {
        released := released + [data];
        data := null;
      }
      trackDataAlloc := false;
    }

    /**
     * Back to the default header with no payload. An owned buffer is freed; one not
     * owned is only forgotten. Resetting a reset packet changes nothing.
     */
    method Reset()
      modifies this
      ensures IsReset()
      ensures old(trackDataAlloc) && old(data) != null ==> released == old(released) + [old(data)]
      ensures !(old(trackDataAlloc) && old(data) != null) ==> released == old(released)
      ensures old(IsReset()) ==> unchanged(this)
    {
      DestroyData();
      version := PACKET_VERSION;
      messageType := Null;
      dataSize := 0;
      data := null;
    }

    /** Points the packet at `d`; the 64-bit size is truncated to the 32-bit field. */
    method SetData(d: array?<uint8>, size: uint64, trackAlloc: bool)
      modifies this`data, this`dataSize, this`trackDataAlloc
      ensures data == d && dataSize == size % TWO_32 && trackDataAlloc == trackAlloc
    {
      data := d;
      dataSize := size % TWO_32;
      trackDataAlloc := trackAlloc;
    }
  }
}
