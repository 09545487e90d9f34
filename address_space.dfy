/** The address families the tool supports, each with its fixed address width. */
module AddressSpaces {

  datatype AddressSpace = IPv4 | IPv6 {

    /** Length of an address of this space in bytes; fixed per space. */
    function ByteLen(): (n: nat)
      ensures n == 4 <==> this == IPv4
      ensures n == 16 <==> this == IPv6
    {
      match this
      case IPv4 => 4
      case IPv6 => 16
    }
  }

  /** The two widths differ, so a byte length names at most one space. */
  lemma ByteLenDeterminesSpace(a: AddressSpace, b: AddressSpace)
    requires a.ByteLen() == b.ByteLen()
    ensures a == b
  {
  }
}
