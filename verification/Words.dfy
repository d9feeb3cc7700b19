/** Machine words and ring-index arithmetic shared by every other module. */
module Words {

  const U64_MAX: nat := 0xFFFF_FFFF_FFFF_FFFF
  const I64_MAX: nat := 0x7FFF_FFFF_FFFF_FFFF

  newtype byte = b: int | 0 <= b < 256

  datatype Option<+T> = None | Some(value: T)

  /** `i64::unsigned_abs`. */
  function Abs(w: int): nat {
    if w < 0 then -w else w
  }

  /** The cast `x as i64` of a `u64`: reinterpretation in two's complement. */
  function AsI64(x: nat): int {
    if x <= I64_MAX then x else x - U64_MAX - 1
  }

  /** `u64::saturating_add(1)`. */
  function SaturatingSucc(x: nat): nat
    requires x <= U64_MAX
  {
    if x == U64_MAX then U64_MAX else x + 1
  }

  /** `(start + k) % n`, the k-th slot met when walking the ring from `start`. */
  function Wrap(start: nat, k: nat, n: nat): (r: nat)
    requires start < n && k <= n
    ensures r < n
    ensures r == if start + k < n then start + k else start + k - n
  {
    WrapModulo(start, k, n);
    (start + k) % n
  }

  lemma WrapModulo(start: nat, k: nat, n: nat)
    requires start < n && k <= n
    ensures (start + k) % n == if start + k < n then start + k else start + k - n
  {
    if start + k < n {
      SmallModulo(start + k, n);
    } else {
      SmallModulo(start + k - n, n);
      assert (start + k - n + n) % n == (start + k - n) % n;
    }
  }

  lemma SmallModulo(x: nat, n: nat)
    requires x < n
    ensures x % n == x
  {}

  /** Walking n steps from any start meets every slot of the ring. */
  lemma WrapCovers(start: nat, i: nat, n: nat) returns (k: nat)
    requires start < n && i < n
    ensures k < n && Wrap(start, k, n) == i
  {
    k := if start <= i then i - start else i + n - start;
  }

  /** A sequence number below 2^63 survives being stored negated or not and read back as a magnitude. */
  lemma SignRoundTrip(s: nat)
    requires 0 < s <= I64_MAX
    ensures 0 < AsI64(s) && Abs(AsI64(s)) == s && Abs(-AsI64(s)) == s && -AsI64(s) < 0
  {}
}
