// The two-byte AAA header: two bits of type, seven bits of count, seven bits of session.
module Aaa {

  const MAX_COUNT: nat := 127
  const MAX_RETRANSMISSIONS: nat := 12
  const HEADER_SIZE: nat := 2

  const TYPE_MASK: bv8 := 0xC0
  const ACK_MASK: bv8 := 0x40
  const DATA_MASK: bv8 := 0x80
  const ERROR_MASK: bv8 := 0xC0
  const SESSION_MASK: bv8 := 0x7F

  datatype PacketType = Unknown | Ack | Data | Error

  datatype ErrorCode = UnknownError | WrongType | WrongCount | WrongSession

  function GetType(h0: bv8): PacketType {
    var masked := h0 & TYPE_MASK;
    if masked == ACK_MASK then Ack
    else if masked == DATA_MASK then Data
    else if masked == ERROR_MASK then Error
    else Unknown
  }

  function GetCount(h0: bv8, h1: bv8): bv8 {
    ((h0 & !TYPE_MASK) << 1) | ((h1 & !SESSION_MASK) >> 7)
  }

  function GetSession(h1: bv8): bv8 {
    h1 & SESSION_MASK
  }

  /** What the getters read of two bytes: the type from the upper two bits of the first, the session
      from the lower seven of the second, and the count from what is between. */
  lemma GettersRead(h0: bv8, h1: bv8)
    ensures GetType(h0) == if h0 < 0x40 then Unknown else if h0 < 0x80 then Ack else if h0 < 0xC0 then Data else Error
    ensures GetCount(h0, h1) == (h0 % 64) * 2 + h1 / 128
    ensures GetSession(h1) == h1 % 128
  {
  }

  function WithType(h0: bv8, ty: PacketType): bv8 {
    match ty
    case Unknown => h0
    case Ack => (h0 & !TYPE_MASK) | ACK_MASK
    case Data => (h0 & !TYPE_MASK) | DATA_MASK
    case Error => (h0 & !TYPE_MASK) | ERROR_MASK
  }

  /** SetType overwrites the two type bits and leaves the count bits alone. */
  method SetType(header: array<bv8>, ty: PacketType)
    requires header.Length == HEADER_SIZE
    modifies header
    ensures ty != Unknown ==> GetType(header[0]) == ty
    ensures ty == Unknown ==> header[0] == old(header[0])
    ensures header[0] & !TYPE_MASK == old(header[0]) & !TYPE_MASK
    ensures header[1] == old(header[1])
  {
    header[0] := WithType(header[0], ty);
  }

  /** count >> 1 for a signed char: the sign stays. */
  function SignedHalf(count: bv8): bv8 {
    (count >> 1) | (count & 0x80)
  }

  /** SetCount overwrites the seven count bits, which straddle both bytes. A count with bit seven
      set is negative, and its shifted sign turns the packet into an ERROR. */
  method SetCount(header: array<bv8>, count: bv8)
    requires header.Length == HEADER_SIZE
    modifies header
    ensures GetCount(header[0], header[1]) == count & 0x7F
    ensures count <= 127 ==> header[0] & TYPE_MASK == old(header[0]) & TYPE_MASK
    ensures count > 127 ==> GetType(header[0]) == Error
    ensures header[1] & SESSION_MASK == old(header[1]) & SESSION_MASK
  {
    header[0] := (header[0] & TYPE_MASK) | SignedHalf(count);
    header[1] := (header[1] & SESSION_MASK) | (count << 7);
  }

  /** SetSessionId ors in the whole char, so a value above 127 spills into the count. */
  method SetSession(header: array<bv8>, session: bv8)
    requires header.Length == HEADER_SIZE
    modifies header
    ensures header[0] == old(header[0])
    ensures header[1] == (old(header[1]) & !SESSION_MASK) | session
  {
    header[1] := (header[1] & !SESSION_MASK) | session;
  }

  /** SendPacket's header, built in a zeroed two-byte buffer: the getters read back the type,
      the session's low seven bits, and the count unless bit seven of the session is set,
      in which case the count comes back odd. */
  method BuildHeader(ty: PacketType, count: bv8, session: bv8) returns (h0: bv8, h1: bv8)
    requires ty != Unknown && count <= 127
    ensures GetType(h0) == ty
    ensures GetSession(h1) == session & SESSION_MASK
    ensures GetCount(h0, h1) == if session <= 127 then count else count | 1
  {
    var header := new bv8[2] [0, 0];
    SetType(header, ty);
    SetCount(header, count);
    SetSession(header, session);
    h0, h1 := header[0], header[1];
  }

  // Seven bits on the wire.
  type Bits7 = n: nat | n <= 127

  // A packet as its receiver reads it.
  datatype Packet = Packet(ty: PacketType, count: Bits7, session: Bits7, payload: string)

  // A C++ char on the platforms the program targets is signed.
  newtype Char = c: int | -128 <= c <= 127

  /** The value of a char read as an unsigned byte. */
  function Unsigned(c: Char): (b: nat)
    ensures b < 256
  {
    if c >= 0 then c as nat else c as int + 256
  }

  /** What the receiver reads of a packet given to SendPacket. */
  function OnWire(ty: PacketType, count: Bits7, session: Char, payload: string): Packet {
    if session >= 0 then Packet(ty, count, session as nat, payload)
    else Packet(ty, count / 2 * 2 + 1, (session as int + 128) as nat, payload)
  }

  lemma LowBits(b: bv8)
    ensures (b & SESSION_MASK) as nat == if b <= 127 then b as nat else b as nat - 128
  {
  }

  lemma OddCount(b: bv8)
    ensures (b | 1) as nat == b as nat / 2 * 2 + 1
  {
  }

  lemma SessionOnWire(session: Char, bits: bv8)
    requires bits as nat == Unsigned(session)
    ensures OnWire(Unknown, 0, session, "").session == (bits & SESSION_MASK) as nat
    ensures session >= 0 <==> bits <= 127
  {
    LowBits(bits);
  }

  /** OnWire states in whole numbers what BuildHeader's bit operations do. */
  lemma OnWireMatchesHeader(ty: PacketType, count: Bits7, countBits: bv8, session: Char, sessionBits: bv8, payload: string)
    requires countBits as nat == count && sessionBits as nat == Unsigned(session)
    ensures var p := OnWire(ty, count, session, payload);
            && p.session == (sessionBits & SESSION_MASK) as nat
            && p.count == (if sessionBits <= 127 then countBits else countBits | 1) as nat
  {
    SessionOnWire(session, sessionBits);
    OddCount(countBits);
  }

  /** A header carries every count next to a session exactly when the session is not negative. */
  lemma HeaderExactIff(session: Char)
    ensures (forall ty, count: Bits7, payload :: OnWire(ty, count, session, payload).count == count)
            <==> session >= 0
  {
    if session < 0 {
      assert OnWire(Data, 0, session, "").count == 1;
    }
  }
}
