/** The IPv6 base prefix shared by the WireGuard and OpenVPN scripts: a /48 inside fc00::/7. */
module UlaBase {
  const LOW_64 := 0x1_0000_0000_0000_0000
  const LOW_80 := 0x1_0000_0000_0000_0000_0000
  const ULA_FIRST := 0xfc00_0000_0000_0000_0000_0000_0000_0000
  const ULA_END := 0xfe00_0000_0000_0000_0000_0000_0000_0000

  predicate IsUlaBase(base: nat, length: nat) {
    length == 48 && base % LOW_80 == 0 && ULA_FIRST <= base && base + LOW_80 <= ULA_END
  }
}
