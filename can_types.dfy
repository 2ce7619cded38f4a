/** Machine types of the codec and the failures it reports. */
module CanTypes {

  /** An unsigned 8-bit value (`uint8_t`). */
  newtype byte = x: int | 0 <= x < 0x100

  /** An unsigned 32-bit value (`uint32_t`). */
  newtype uint32 = x: int | 0 <= x < 0x1_0000_0000

  /** The two failures the frame constructor and the packet decoder can report. */
  datatype CanError =
    | InvalidFrame     // payload longer than 8 bytes, or identifier out of range
    | MalformedPacket  // bad start byte, length nibble above 8, or packet too short

  /** Either a value or the failure that prevented computing it. */
  datatype Result<+T> = Ok(value: T) | Err(error: CanError)
}
