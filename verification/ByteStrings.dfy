/** Byte strings, shared by every layer of the transport. */
module ByteStrings {
  import opened Words

  type Bytes = seq<Byte>

  const CR: Byte := 0x0D
  const LF: Byte := 0x0A
}
