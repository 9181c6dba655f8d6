/** Octets as bit vectors and as numbers. */
module ByteWords {

  lemma ByteRoundTrip(x: nat)
    requires x < 256
    ensures (x as bv8) as nat == x
  {
  }

  /** A byte address cut into the two octets of its word address and its lowest bit. */
  lemma AddressRoundTrip(addr: nat)
    requires addr < 0x20000
    ensures 2 * (((addr / 512 % 256) as bv8) as nat * 256 + ((addr / 2 % 256) as bv8) as nat) + addr % 2 == addr
  {
    ByteRoundTrip(addr / 512 % 256);
    ByteRoundTrip(addr / 2 % 256);
    WordAddress(addr);
  }

  lemma WordAddress(addr: nat)
    requires addr < 0x20000
    ensures addr / 512 % 256 * 256 + addr / 2 % 256 == addr / 2
  {
    assert addr / 512 == addr / 2 / 256;
  }
}
