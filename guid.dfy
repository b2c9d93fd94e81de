/**
 The engine's 128-bit globally unique identifier, as used for a material's
 lighting GUID: four unsigned 32-bit words compared word by word.
 */
module Guids {

  newtype uint32 = x: int | 0 <= x < 0x1_0000_0000

  datatype Guid = Guid(a: uint32, b: uint32, c: uint32, d: uint32)

  /** The all-zero ("empty") GUID. The duplicate scan gives it no special treatment. */
  const EmptyGuid: Guid := Guid(0, 0, 0, 0)
}
