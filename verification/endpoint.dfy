/**
 * The endpoint address byte of section 9.6.6 of the USB 2.0 specification:
 * bit 7 is the direction (set for "in"), bits 6..0 the endpoint number.
 * The shim encodes it when it serialises endpoint descriptors and decodes it
 * when a transfer is submitted.
 */
module Endpoint {
  import opened Bits

  /** Transfer direction as seen from the host. */
  datatype Direction = In | Out

  /** `(address & 0x80) == 0x80` selects "in". */
  function DirectionOf(address: Byte): Direction {
    if address >= 0x80 then In else Out
  }

  /** `address & 0x7f`: the endpoint number, always below 128. */
  function NumberOf(address: Byte): (n: Byte)
    ensures n < 0x80
    ensures address == n + (if DirectionOf(address) == In then 0x80 else 0)
  {
    address % 0x80
  }

  /** `number`, or `number | 0x80` when the direction is "in". */
  function Address(number: Byte, direction: Direction): (a: Byte)
    ensures a % 0x80 == number % 0x80
    ensures direction == In ==> DirectionOf(a) == In
    ensures direction == Out ==> a == number
  {
    if direction == In && number < 0x80 then number + 0x80 else number
  }

  /** Decoding an encoded address recovers the number and direction, for every valid number. */
  lemma DecodeAddress(number: Byte, direction: Direction)
    requires number < 0x80
    ensures DirectionOf(Address(number, direction)) == direction
    ensures NumberOf(Address(number, direction)) == number
  {
  }

  /** Every address byte is the encoding of its decoded number and direction. */
  lemma EncodeDecoded(address: Byte)
    ensures Address(NumberOf(address), DirectionOf(address)) == address
  {
  }

  /** With a number of 128 or more, an "out" endpoint is encoded as an "in" address. */
  lemma LargeNumberReadsAsIn(number: Byte)
    requires number >= 0x80
    ensures DirectionOf(Address(number, Out)) == In
  {
  }
}
