/** Fixed-width integers, and the checked and saturating arithmetic the runtime relies on. */
module Machine {

  datatype Option<+T> = None | Some(value: T)

  datatype Result<+T, +E> = Ok(value: T) | Err(error: E)

  const U16_LIMIT: int := 0x1_0000
  const U32_LIMIT: int := 0x1_0000_0000
  const U64_LIMIT: int := 0x1_0000_0000_0000_0000
  const U64_MAX: u64 := 0xffff_ffff_ffff_ffff

  type u8 = x: int | 0 <= x < 0x100
  type u16 = x: int | 0 <= x < 0x1_0000
  type u32 = x: int | 0 <= x < 0x1_0000_0000
  type u64 = x: int | 0 <= x < 0x1_0000_0000_0000_0000

  function Min(a: int, b: int): int {
    if a <= b then a else b
  }

  function Max(a: int, b: int): int {
    if a <= b then b else a
  }

  function CheckedAdd(a: u64, b: u64): Option<u64> {
    if a + b < U64_LIMIT then Some(a + b) else None
  }

  function CheckedMul(a: u64, b: u64): Option<u64> {
    if 0 <= a * b < U64_LIMIT then Some(a * b) else None
  }

  function SaturatingAdd(a: u64, b: u64): u64 {
    if a + b < U64_LIMIT then a + b else U64_MAX
  }

  function SaturatingSub(a: u64, b: u64): u64 {
    if b <= a then a - b else 0
  }

  function SaturatingMul(a: u64, b: u64): u64 {
    if 0 <= a * b < U64_LIMIT then a * b else U64_MAX
  }

  /** Division rounded up, as `(demand + service - 1) / service`. */
  function CeilDiv(demand: nat, service: nat): (w: nat)
    requires demand > 0 && service > 0
    ensures service * (w - 1) < demand <= service * w
    ensures 0 < w <= demand
  {
    var w := (demand + service - 1) / service;
    CeilingBounds(demand, service, w);
    w
  }

  lemma CeilingBounds(demand: nat, service: nat, w: nat)
    requires demand > 0 && service > 0 && w == (demand + service - 1) / service
    ensures service * (w - 1) < demand <= service * w && 0 < w <= demand
  {
    var r := (demand + service - 1) % service;
    assert service * w + r == demand + service - 1;
    assert service * (w - 1) == service * w - service;
    MulOrder(service, w, demand + 1);
    MulOrder(demand, service, 1);
    assert service * (demand + 1) == demand * service + service;
    MulOrder(service, 0, w);
  }

  lemma MulAtLeast(a: nat, b: int, c: int)
    requires b >= c
    ensures a * b >= a * c
  {
    assert a * b - a * c == a * (b - c);
  }

  lemma MulOrder(a: nat, b: int, c: int)
    ensures b >= c ==> a * b >= a * c
  {
    if b >= c {
      MulAtLeast(a, b, c);
    }
  }

  /** The naturals below `n`. */
  ghost function Below(n: nat): (s: set<nat>)
    ensures forall i: nat :: i in s <==> i < n
    ensures |s| == n
  {
    if n == 0 then {} else Below(n - 1) + {n - 1}
  }

  /**
   Facts guarded by `Unfold` stay out of a proof until it mentions `Unfold(0)`. Large invariants
   use it so that a proof that only carries them along need not look inside.
   */
  predicate Unfold(k: int) {
    true
  }
}
