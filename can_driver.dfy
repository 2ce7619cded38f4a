/**
 * The CAN adapter packet codec. Every packet is a fixed 20-byte buffer
 * starting with 0xAA; byte 1 is either the configuration marker 0x55 or
 * the header of a data packet.
 *
 * Data packet:   AA | header | id (2 or 4 bytes, little-endian) | payload | 55 | zeros
 * Configuration: AA 55 12 | speed | mode | filter(4) | mask(4) | 00 | 01 | 00 00 00 00 | checksum
 */
module CanDriver {
  import opened CanTypes
  import opened Frames

  /** The length of every packet exchanged with the adapter. */
  const FixedFrameSize: nat := 20

  const StartByte: byte := 0xAA
  const Terminator: byte := 0x55
  const ConfigMarker: byte := 0x55
  const SetConfigCommand: byte := 0x12

  /** Configuration byte 4 when extended frames are supported. */
  const ModeExtended: byte := 0x02
  /** Configuration byte 4 when they are not. */
  const ModeStandard: byte := 0x01
  /** Configuration byte 14, a fixed adapter flag. */
  const ConfigFlag: byte := 0x01

  /** `n` zero bytes. */
  function Zeros(n: nat): (z: seq<byte>)
    ensures |z| == n && forall i :: 0 <= i < n ==> z[i] == 0
  {
    seq(n, _ => 0)
  }

  // ---------------------------------------------------------------------------
  // Header byte of a data packet: bits 1 1 E R L L L L

  /** The two top bits, always set in a data-packet header. */
  const HeaderBase: byte := 0xC0
  /** Set for an extended (29-bit identifier) frame. */
  const ExtendedBit: byte := 0x20
  /** Set for a remote-transmission-request frame. */
  const RemoteBit: byte := 0x10
  /** The low nibble holds the payload length. */
  const LengthMask: byte := 0x0F

  /** The fields packed into byte 1 of a data packet. */
  datatype Header = Header(extended: bool, remote: bool, length: nat)

  /** The header of a frame as it goes onto the wire. */
  function HeaderOf(f: CanFrame): Header
  {
    Header(f.extended, f.remote, |f.data|)
  }

  predicate HasBaseBits(b: byte) { b as int / 0x40 == 3 }
  predicate HasExtendedBit(b: byte) { (b as int / 0x20) % 2 == 1 }
  predicate HasRemoteBit(b: byte) { (b as int / 0x10) % 2 == 1 }
  function LengthNibble(b: byte): nat { b as int % 0x10 }

  /**
   * Packs a header into one byte: base bits, the two flags and the length
   * nibble occupy disjoint bits, so adding them is or-ing them.
   */
  function PackHeader(h: Header): (b: byte)
    requires h.length <= LengthMask as nat
    ensures HasBaseBits(b)
    ensures HasExtendedBit(b) == h.extended
    ensures HasRemoteBit(b) == h.remote
    ensures LengthNibble(b) == h.length
  {
    (HeaderBase as int
      + (if h.extended then ExtendedBit as int else 0)
      + (if h.remote then RemoteBit as int else 0)
      + h.length) as byte
  }

  /** Reads the flags and the length nibble of a header byte; the base bits are not checked. */
  function UnpackHeader(b: byte): Header
  {
    Header(HasExtendedBit(b), HasRemoteBit(b), LengthNibble(b))
  }

  lemma UnpackPackHeader(h: Header)
    requires h.length <= LengthMask as nat
    ensures UnpackHeader(PackHeader(h)) == h
  {
  }

  /** A byte whose base bits are set is the packing of what it unpacks to. */
  lemma PackUnpackHeader(b: byte)
    requires HasBaseBits(b)
    ensures PackHeader(UnpackHeader(b)) == b
  {
  }

  /**
   * For every length up to 8, or-ing the base bits, the flag bits and the
   * length as 8-bit values gives the same byte as adding them.
   */
  lemma OrIsSum(e: bool, r: bool, l: nat)
    requires l <= MaxDataLength
    ensures ((HeaderBase as bv8) | (if e then ExtendedBit as bv8 else 0)
              | (if r then RemoteBit as bv8 else 0) | (l as bv8)) as int
            == HeaderBase as int + (if e then ExtendedBit as int else 0)
               + (if r then RemoteBit as int else 0) + l
  {
    if l == 0 {} else if l == 1 {} else if l == 2 {} else if l == 3 {} else if l == 4 {} else if l == 5 {} else if l == 6 {} else if l == 7 {} else {}
  }

  // ---------------------------------------------------------------------------
  // Little-endian identifier field

  /** Width in bytes of the identifier field. */
  function IdWidth(extended: bool): nat
  {
    if extended then 4 else 2
  }

  function Pow256(n: nat): (p: nat)
    ensures p > 0
  {
    if n == 0 then 1 else 256 * Pow256(n - 1)
  }

  /** The low `width` bytes of `v`, least significant first. */
  function LittleEndian(v: nat, width: nat): (s: seq<byte>)
    ensures |s| == width
  {
    if width == 0 then [] else [(v % 256) as byte] + LittleEndian(v / 256, width - 1)
  }

  /** The value of a little-endian byte sequence; it fits the number of bytes read. */
  function FromLittleEndian(s: seq<byte>): (v: nat)
    ensures v < Pow256(|s|)
  {
    if s == [] then 0 else s[0] as nat + 256 * FromLittleEndian(s[1..])
  }

  lemma {:induction false} FromLittleEndianOfLittleEndian(v: nat, width: nat)
    requires v < Pow256(width)
    ensures FromLittleEndian(LittleEndian(v, width)) == v
  {
    if width > 0 {
      FromLittleEndianOfLittleEndian(v / 256, width - 1);
      assert LittleEndian(v, width)[1..] == LittleEndian(v / 256, width - 1);
    }
  }

  lemma {:induction false} LittleEndianOfFromLittleEndian(s: seq<byte>)
    ensures LittleEndian(FromLittleEndian(s), |s|) == s
  {
    if s != [] {
      var v := FromLittleEndian(s);
      assert v / 256 == FromLittleEndian(s[1..]);
      assert (v % 256) as byte == s[0];
      LittleEndianOfFromLittleEndian(s[1..]);
    }
  }

  /** The identifier field of a frame. */
  function IdBytes(f: CanFrame): (s: seq<byte>)
    ensures |s| == IdWidth(f.extended)
  {
    LittleEndian(f.id as nat, IdWidth(f.extended))
  }

  /** The identifier of every valid frame fits its field, so it can be read back. */
  lemma IdFits(f: CanFrame)
    requires f.Valid()
    ensures (f.id as nat) < Pow256(IdWidth(f.extended))
  {
    assert Pow256(2) == 0x1_0000;
  }

  // ---------------------------------------------------------------------------
  // Data packets

  /** Bytes of a data packet before its terminator: start byte, header, id field and payload. */
  function FieldsLength(h: Header): nat
  {
    2 + IdWidth(h.extended) + h.length
  }

  /** Encodes a valid frame as a 20-byte data packet. */
  function Serialize(f: CanFrame): (p: seq<byte>)
    requires f.Valid()
    ensures |p| == FixedFrameSize
    ensures p[0] == StartByte
    ensures p[1] == PackHeader(HeaderOf(f))
    ensures p[2..2 + IdWidth(f.extended)] == IdBytes(f)
    ensures p[2 + IdWidth(f.extended)..FieldsLength(HeaderOf(f))] == f.data
    ensures p[FieldsLength(HeaderOf(f))] == Terminator
    ensures forall i :: FieldsLength(HeaderOf(f)) < i < FixedFrameSize ==> p[i] == 0
  {
    var fields := [StartByte, PackHeader(HeaderOf(f))] + IdBytes(f) + f.data;
    assert fields[2..2 + IdWidth(f.extended)] == IdBytes(f);
    assert fields[2 + IdWidth(f.extended)..] == f.data;
    fields + [Terminator] + Zeros(FixedFrameSize - |fields| - 1)
  }

  /** The packets whose structure `Deserialize` accepts. */
  predicate Framed(p: seq<byte>)
  {
    && |p| >= 2
    && p[0] == StartByte
    && LengthNibble(p[1]) <= MaxDataLength
    && |p| >= FieldsLength(UnpackHeader(p[1]))
  }

  /**
   * Decodes a data packet. The start byte and the length nibble are checked
   * and the packet must hold the identifier field and the payload; the
   * terminator and what follows it are not looked at. The decoded fields go
   * through the frame constructor, which rejects an identifier out of range.
   */
  function Deserialize(p: seq<byte>): (r: Result<CanFrame>)
    ensures !Framed(p) <==> r == Err(MalformedPacket)
    ensures r.Ok? ==> r.value.Valid()
    ensures r.Ok? ==> UnpackHeader(p[1]) == HeaderOf(r.value)
    ensures r.Ok? ==> p[2..FieldsLength(HeaderOf(r.value))] == IdBytes(r.value) + r.value.data
    ensures Framed(p) && r.Err? ==>
              var h := UnpackHeader(p[1]);
              r.error == InvalidFrame && FromLittleEndian(p[2..2 + IdWidth(h.extended)]) > MaxId(h.extended) as int
  {
    if !Framed(p) then Err(MalformedPacket)
    else
      var h := UnpackHeader(p[1]);
      var w := IdWidth(h.extended);
      var idField := p[2..2 + w];
      var id := FromLittleEndian(idField);
      assert Pow256(2) == 0x1_0000 && Pow256(4) == 0x1_0000_0000;
      var r := Make(id as uint32, h.extended, h.remote, p[2 + w..FieldsLength(h)]);
      if r.Ok? then
        LittleEndianOfFromLittleEndian(idField);
        assert p[2..FieldsLength(h)] == idField + p[2 + w..FieldsLength(h)];
        r
      else r
  }

  /** Every valid frame survives a round trip through the wire format. */
  lemma DeserializeSerialize(f: CanFrame)
    requires f.Valid()
    ensures Deserialize(Serialize(f)) == Ok(f)
  {
    UnpackPackHeader(HeaderOf(f));
    IdFits(f);
    FromLittleEndianOfLittleEndian(f.id as nat, IdWidth(f.extended));
  }

  /**
   * Decoding is lenient on the tail: whatever follows the payload (terminator,
   * padding, or nothing at all) does not change the result.
   */
  lemma DeserializeIgnoresTail(p: seq<byte>, tail: seq<byte>)
    requires Framed(p)
    ensures Deserialize(p[..FieldsLength(UnpackHeader(p[1]))] + tail) == Deserialize(p)
  {
    var n := FieldsLength(UnpackHeader(p[1]));
    var q := p[..n] + tail;
    assert q[..n] == p[..n];
    assert q[2..n] == p[2..n];
    assert q[2..2 + IdWidth(UnpackHeader(p[1]).extended)] == p[2..2 + IdWidth(UnpackHeader(p[1]).extended)];
  }

  /** A serialized frame still decodes when cut short anywhere after its payload. */
  lemma DeserializeSerializePrefix(f: CanFrame, n: nat)
    requires f.Valid()
    requires FieldsLength(HeaderOf(f)) <= n <= FixedFrameSize
    ensures Deserialize(Serialize(f)[..n]) == Ok(f)
  {
    var p := Serialize(f);
    DeserializeSerialize(f);
    UnpackPackHeader(HeaderOf(f));
    var k := FieldsLength(HeaderOf(f));
    DeserializeIgnoresTail(p, p[k..n]);
    assert p[..k] + p[k..n] == p[..n];
  }

  /**
   * The packets `Serialize` produces: framed, base bits set, terminator right
   * after the payload and zeros up to 20 bytes.
   */
  predicate Canonical(p: seq<byte>)
  {
    && Framed(p)
    && |p| == FixedFrameSize
    && HasBaseBits(p[1])
    && p[FieldsLength(UnpackHeader(p[1]))] == Terminator
    && forall i :: FieldsLength(UnpackHeader(p[1])) < i < FixedFrameSize ==> p[i] == 0
  }

  /** Decoding a canonical packet and encoding the frame again gives back the same bytes. */
  lemma SerializeDeserialize(p: seq<byte>)
    requires Canonical(p) && Deserialize(p).Ok?
    ensures Serialize(Deserialize(p).value) == p
  {
    var f := Deserialize(p).value;
    var h := UnpackHeader(p[1]);
    var q := Serialize(f);
    PackUnpackHeader(p[1]);
    assert q[1] == p[1];
    assert q[2..FieldsLength(h)] == p[2..FieldsLength(h)];
    forall i | 0 <= i < FixedFrameSize
      ensures q[i] == p[i]
    {
      if 2 <= i < FieldsLength(h) {
        assert q[i] == q[2..FieldsLength(h)][i - 2];
        assert p[i] == p[2..FieldsLength(h)][i - 2];
      }
    }
  }

  /**
   * For a data frame (not remote) the header is 0xC0 | (extended ? 0x20 : 0) | length;
   * the three parts occupy disjoint bits, so the or is their sum. With the full
   * payload of 8 bytes that is 0xC8 for a standard and 0xE8 for an extended frame.
   */
  lemma SerializeHeaderByte(f: CanFrame)
    requires f.Valid() && !f.remote
    ensures Serialize(f)[1] as int == 0xC0 + (if f.extended then 0x20 else 0) + |f.data|
    ensures |f.data| == 8 ==> Serialize(f)[1] == if f.extended then 0xE8 else 0xC8
  {
  }

  /**
   * The header byte of every serialized frame is the bitwise or
   * 0xC0 | (extended ? 0x20 : 0) | (remote ? 0x10 : 0) | length.
   */
  lemma SerializeHeaderIsBitwiseOr(f: CanFrame)
    requires f.Valid()
    ensures Serialize(f)[1] as int
            == ((0xC0 as bv8) | (if f.extended then 0x20 else 0)
                | (if f.remote then 0x10 else 0) | (|f.data| as bv8)) as int
  {
    OrIsSum(f.extended, f.remote, |f.data|);
  }

  /**
   * The identifier field holds byte k of the identifier (its value divided
   * by 256^k, modulo 256) at offset 2 + k: two bytes for a standard frame,
   * four for an extended one, with the payload right behind.
   */
  lemma IdFieldLayout(f: CanFrame)
    requires f.Valid()
    ensures var p, id := Serialize(f), f.id as int;
            && p[2] as int == id % 0x100
            && p[3] as int == id / 0x100 % 0x100
            && (f.extended ==> p[4] as int == id / 0x1_0000 % 0x100
                               && p[5] as int == id / 0x100_0000 % 0x100)
            && p[2 + IdWidth(f.extended)..][..|f.data|] == f.data
  {
    var p := Serialize(f);
    var w := IdWidth(f.extended);
    var id := f.id as int;
    assert p[2..2 + w] == IdBytes(f);
    assert p[2] == IdBytes(f)[0] && p[3] == IdBytes(f)[1];
    assert IdBytes(f)[1..] == LittleEndian(id / 0x100, w - 1);
    if f.extended {
      assert p[4] == IdBytes(f)[2] && p[5] == IdBytes(f)[3];
      assert IdBytes(f)[2..] == LittleEndian(id / 0x100 / 0x100, 2);
      assert IdBytes(f)[3..] == LittleEndian(id / 0x100 / 0x100 / 0x100, 1);
    }
    assert p[2 + w..][..|f.data|] == p[2 + w..FieldsLength(HeaderOf(f))];
  }

  // ---------------------------------------------------------------------------
  // Configuration packets

  /** The bus bitrates a configuration packet can select. */
  datatype BusSpeed = Speed5kbps

  /** The adapter's wire code of each bus speed: a constant table. */
  function SpeedCode(speed: BusSpeed): (c: byte)
    ensures speed == Speed5kbps ==> c == 0x0C
  {
    match speed
    case Speed5kbps => 0x0C
  }

  /** Configuration byte 4: which frame formats the adapter accepts. */
  function ModeByte(supportExtended: bool): (m: byte)
    ensures supportExtended <==> m == ModeExtended
  {
    if supportExtended then ModeExtended else ModeStandard
  }

  /** The arithmetic sum of a byte sequence. */
  function Sum(s: seq<byte>): nat
  {
    if s == [] then 0 else s[0] as nat + Sum(s[1..])
  }

  lemma {:induction false} SumAppend(a: seq<byte>, b: seq<byte>)
    ensures Sum(a + b) == Sum(a) + Sum(b)
  {
    if a != [] {
      SumAppend(a[1..], b);
      assert (a + b)[1..] == a[1..] + b;
    } else {
      assert a + b == b;
    }
  }

  lemma {:induction false} SumZeros(n: nat)
    ensures Sum(Zeros(n)) == 0
  {
    if n > 0 {
      SumZeros(n - 1);
      assert Zeros(n)[1..] == Zeros(n - 1);
    }
  }

  /** An 8-bit running sum, wrapping around at 256, is the sum modulo 256. */
  function Checksum(s: seq<byte>): (c: byte)
    ensures c as int == Sum(s) % 256
  {
    if s == [] then 0 else ((s[0] as int + Checksum(s[1..]) as int) % 256) as byte
  }

  /** Builds the 20-byte configuration packet; it always succeeds. */
  function GetConfiguration(speed: BusSpeed, supportExtended: bool): (p: seq<byte>)
    ensures |p| == FixedFrameSize
    ensures p[0] == StartByte && p[1] == ConfigMarker && p[2] == SetConfigCommand
    ensures p[3] == SpeedCode(speed) && p[4] == ModeByte(supportExtended)
    ensures forall i :: 5 <= i <= 13 ==> p[i] == 0
    ensures p[14] == ConfigFlag
    ensures forall i :: 15 <= i <= 18 ==> p[i] == 0
    ensures p[19] as int == Sum(p[2..19]) % 256
  {
    var body := [SetConfigCommand, SpeedCode(speed), ModeByte(supportExtended)]
      + Zeros(4)    // acceptance filter: accept all
      + Zeros(4)    // acceptance mask
      + [0]         // reserved mode byte
      + [ConfigFlag]
      + Zeros(4);   // reserved
    var p := [StartByte, ConfigMarker] + body + [Checksum(body)];
    assert p[2..19] == body;
    p
  }

  /** Byte 1 tells the two packet kinds apart. */
  lemma PacketKindsDistinct(f: CanFrame, speed: BusSpeed, supportExtended: bool)
    requires f.Valid()
    ensures Serialize(f)[1] != GetConfiguration(speed, supportExtended)[1]
  {
  }

  // ---------------------------------------------------------------------------
  // Packets of the driver tests

  const TestPayload: seq<byte> := [0x11, 0x22, 0x33, 0x44, 0x55, 0x66, 0x77, 0x88]
  const StandardPacket: seq<byte> := [0xAA, 0xC8, 0x23, 0x01] + TestPayload + [0x55]
  const ExtendedPacket: seq<byte> := [0xAA, 0xE8, 0x67, 0x45, 0x23, 0x01] + TestPayload + [0x55]

  lemma ConfigurationVector()
    ensures GetConfiguration(Speed5kbps, true)
            == [0xAA, 0x55, 0x12, 0x0C, 0x02, 0, 0, 0, 0, 0, 0, 0, 0, 0, 0x01, 0, 0, 0, 0, 0x21]
  {
    var p := GetConfiguration(Speed5kbps, true);
    var head: seq<byte> := [0x12, 0x0C, 0x02];
    assert p[2..19] == head + (Zeros(9) + ([0x01] + Zeros(4)));
    SumAppend(head, Zeros(9) + ([0x01] + Zeros(4)));
    SumAppend(Zeros(9), [0x01] + Zeros(4));
    SumAppend([0x01], Zeros(4));
    SumZeros(9);
    SumZeros(4);
  }

  lemma StandardSerializeVector()
    ensures Make(0x0123, false, false, TestPayload) == Ok(CanFrame(0x0123, false, false, TestPayload))
    ensures Serialize(CanFrame(0x0123, false, false, TestPayload)) == StandardPacket + Zeros(7)
  {
  }

  lemma ExtendedSerializeVector()
    ensures Make(0x0123_4567, true, false, TestPayload) == Ok(CanFrame(0x0123_4567, true, false, TestPayload))
    ensures Serialize(CanFrame(0x0123_4567, true, false, TestPayload)) == ExtendedPacket + Zeros(5)
  {
  }

  lemma StandardDeserializeVector()
    ensures Deserialize(StandardPacket) == Ok(CanFrame(0x0123, false, false, TestPayload))
  {
    var f := CanFrame(0x0123, false, false, TestPayload);
    StandardSerializeVector();
    DeserializeSerializePrefix(f, 13);
    assert Serialize(f)[..13] == StandardPacket;
  }

  lemma ExtendedDeserializeVector()
    ensures Deserialize(ExtendedPacket) == Ok(CanFrame(0x0123_4567, true, false, TestPayload))
  {
    var f := CanFrame(0x0123_4567, true, false, TestPayload);
    ExtendedSerializeVector();
    DeserializeSerializePrefix(f, 15);
    assert Serialize(f)[..15] == ExtendedPacket;
  }
}
