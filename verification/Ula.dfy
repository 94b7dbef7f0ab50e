/** Overlay addresses: the layout `fd5a:1f00:<network16>:<idx>::1` and its reserved corner. */
module Ula {

  import opened Prelude
  import opened Words

  type u16 = x: nat | x < 0x1_0000

  const MAX_INDEX: u16 := 0xffff
  const HOST_ULA_SLOT: u16 := 0x1f00

  /** A network name, as its UTF-8 bytes. */
  type Network = Bytes

  /** The eight hextets of an IPv6 address. */
  datatype Addr = Addr(s0: u16, s1: u16, s2: u16, s3: u16, s4: u16, s5: u16, s6: u16, s7: u16) {
    function Slot(): u16 { s2 }
    function Index(): u16 { s3 }
    /** Inside `fc00::/7`. */
    predicate IsUla() { s0 / 0x200 == 0x7e }
  }

  function AddressFor(slot: u16, idx: u16): Addr {
    Addr(0xfd5a, 0x1f00, slot, idx, 0, 0, 0, 1)
  }

  /** The 16-bit block of a network. The unnamed network alone has block 0. */
  function NetworkSlot(network: Network): (slot: u16)
    ensures slot == 0 <==> network == []
  {
    if network == [] then 0
    else
      var h := Fnv1a64(network);
      var lanes := Xor(Xor(Xor(h / 0x1_0000_0000_0000, h / 0x1_0000_0000, 64), h / 0x1_0000, 64), h, 64);
      if lanes % 0x1_0000 == 0 then 1 else lanes % 0x1_0000
  }

  const LEGACY_INFRA := Addr(0xfd5a, 0x1f00, 0, 3, 0, 0, 0, 1)

  predicate IsFixedInfra(a: Addr) {
    (a.IsUla() && a.s1 == HOST_ULA_SLOT && a.s3 == 0) || a == LEGACY_INFRA
  }

  /**
    Issued indices start at 1, so an issued address is never a reserved one, with a single
    exception: the third address of the unnamed network is the legacy registry address.
  */
  lemma IssuedIsFixedInfraOnlyOnce(slot: u16, idx: u16)
    requires idx >= 1
    ensures IsFixedInfra(AddressFor(slot, idx)) <==> slot == 0 && idx == 3
  {
  }

  /** The four 16-bit lanes of a hash, folded. */
  function FoldedLanes(h: nat): nat {
    Xor(Xor(Xor(h / 0x1_0000_0000_0000 % 0x1_0000, h / 0x1_0000_0000 % 0x1_0000, 16), h / 0x1_0000 % 0x1_0000, 16), h % 0x1_0000, 16)
  }

  /** A named network's block is the exclusive-or of the four lanes of its hash, with 0 replaced by 1. */
  lemma NetworkSlotExactly(network: Network)
    requires network != []
    ensures var lanes := FoldedLanes(Fnv1a64(network));
            NetworkSlot(network) == if lanes == 0 then 1 else lanes
  {
    var h := Fnv1a64(network);
    var a, b, c := h / 0x1_0000_0000_0000, h / 0x1_0000_0000, h / 0x1_0000;
    var ab := Xor(a, b, 64);
    LowLane(a, b);
    LowLane(ab, c);
    LowLane(Xor(ab, c, 64), h);
    hide Xor;
  }
}
