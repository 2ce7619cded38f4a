/**
 * The CAN frame value object: identifier, extended/standard addressing,
 * remote-transmission-request flag and a payload of at most 8 bytes.
 * A frame is immutable; it is built by `Make`, which refuses the field
 * combinations the object's invariants exclude.
 */
module Frames {
  import opened CanTypes

  /** Classic CAN carries at most 8 payload bytes. */
  const MaxDataLength: nat := 8
  /** Largest identifier of a standard frame (11-bit base identifier, ISO 11898-1). */
  const MaxStandardId: uint32 := 0x7FF
  /** Largest identifier of an extended frame (29-bit extended identifier, ISO 11898-1). */
  const MaxExtendedId: uint32 := 0x1FFF_FFFF

  /** The identifier bound that the addressing mode implies. */
  function MaxId(extended: bool): uint32
  {
    if extended then MaxExtendedId else MaxStandardId
  }

  datatype CanFrame = CanFrame(id: uint32, extended: bool, remote: bool, data: seq<byte>)
  {
    /** The invariants every constructed frame satisfies. */
    predicate Valid()
    {
      |data| <= MaxDataLength && id <= MaxId(extended)
    }

    function GetId(): uint32 { id }
    function IsExtended(): bool { extended }
    function IsRemote(): bool { remote }
    function GetDataLength(): nat { |data| }
    function GetData(): seq<byte> { data }
  }

  /**
   * The frame constructor: succeeds exactly when the payload fits and the
   * identifier is within the range of its addressing mode, and then every
   * accessor hands back what was supplied.
   */
  function Make(id: uint32, extended: bool, remote: bool, data: seq<byte>): (r: Result<CanFrame>)
    ensures r.Ok? <==> |data| <= MaxDataLength && id <= MaxId(extended)
    ensures r.Err? ==> r.error == InvalidFrame
    ensures r.Ok? ==> r.value.Valid()
    ensures r.Ok? ==> r.value.GetId() == id && r.value.IsExtended() == extended
                      && r.value.IsRemote() == remote
    ensures r.Ok? ==> r.value.GetDataLength() == |data| && r.value.GetData() == data
  {
    var f := CanFrame(id, extended, remote, data);
    if f.Valid() then Ok(f) else Err(InvalidFrame)
  }

  /**
   * The fixture frame: an extended frame with identifier 1, not remote,
   * carrying the maximum payload 0..7; it constructs and its accessors
   * return the fixture's values.
   */
  lemma FixtureFrame()
    ensures var data: seq<byte> := [0, 1, 2, 3, 4, 5, 6, 7];
            var r := Make(1, true, false, data);
            && r.Ok?
            && r.value.GetId() == 1
            && r.value.IsExtended()
            && !r.value.IsRemote()
            && r.value.GetDataLength() == 8
            && r.value.GetData() == data
  {
  }

  /** Any frame whose payload has the maximum length of 8 bytes constructs, whatever its bytes. */
  lemma MaxPayloadConstructs(id: uint32, extended: bool, remote: bool, data: seq<byte>)
    requires |data| == MaxDataLength && id <= MaxId(extended)
    ensures Make(id, extended, remote, data) == Ok(CanFrame(id, extended, remote, data))
  {
  }
}
