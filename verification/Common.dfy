/** Bytes, MAC addresses and the address hash that the driver's tables share. */
module Common {

  type byte = b: int | 0 <= b < 0x100

  datatype Option<+T> = None | Some(value: T)

  const MAC_ADDR_LEN := 6
  const HASH_TABLE_SIZE := 256

  type Mac = m: seq<byte> | |m| == MAC_ADDR_LEN witness [0, 0, 0, 0, 0, 0]

  const ZERO_MAC_ADDR: Mac := [0, 0, 0, 0, 0, 0]

  /** MAC_ADDR_HASH_INDEX: the XOR of the six bytes, which is already below the table size. */
  function HashIndex(m: Mac): (h: nat)
    ensures h < HASH_TABLE_SIZE
  {
    (m[0] as bv8 ^ m[1] as bv8 ^ m[2] as bv8 ^ m[3] as bv8 ^ m[4] as bv8 ^ m[5] as bv8) as nat
  }
}
