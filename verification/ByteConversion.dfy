// Numbers below 256 and bytes.
module ByteConversion {
  lemma ThereAndBack(n: int)
    requires 0 <= n < 256
    ensures (n as bv8) as int == n
  {
  }
}
