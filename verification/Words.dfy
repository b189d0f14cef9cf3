/** Machine words of the 32-bit kernel, and the few pure calculations every layer shares.
    Masks and shifts are written as remainders and quotients by powers of two. */
module Words {

  const LIMIT32 := 0x1_0000_0000
  const LIMIT64 := 0x1_0000_0000_0000_0000
  const PAGE := 0x1000
  /** No memory below 1 MiB is handed out. */
  const POLICY_MIN := 0x10_0000

  type u8 = x: int | 0 <= x < 0x100
  type u32 = x: int | 0 <= x < LIMIT32
  type u64 = x: int | 0 <= x < LIMIT64

  datatype Option<+T> = None | Some(value: T)

  function Min(a: int, b: int): int { if a < b then a else b }

  function Max(a: int, b: int): int { if a < b then b else a }

  /** Unsigned addition that wraps, as every `+` on uint64_t does. */
  function WrapAdd64(a: u64, b: u64): u64 {
    (a + b) % LIMIT64
  }

  /** Saturating accumulation; overflow is recognised by the wrapped sum being smaller. */
  function AddClamp64(accumulator: u64, increment: u64): (r: u64)
    ensures r == Min(accumulator + increment, LIMIT64 - 1)
  {
    var sum := WrapAdd64(accumulator, increment);
    if sum < accumulator then LIMIT64 - 1 else sum
  }

  /** Sum together with the overflow verdict, decided on the wrapped value. */
  function CheckedAdd64(a: u64, b: u64): (r: (u64, bool))
    ensures r.1 <==> a + b >= LIMIT64
    ensures !r.1 ==> r.0 == a + b
  {
    var sum := WrapAdd64(a, b);
    (sum, sum < a)
  }

  /** `alignment & (alignment - 1) == 0` for a non-zero alignment. */
  predicate IsPowerOfTwo(a: nat) {
    a == 1 || (a > 0 && a % 2 == 0 && IsPowerOfTwo(a / 2))
  }

  /** Round up to a power-of-two boundary, or fail where the C code reports failure. */
  function AlignUp(value: u32, alignment: u32): (r: Option<u32>)
    ensures r.Some? ==>
              IsPowerOfTwo(alignment) && r.value % alignment == 0 && value <= r.value < value + alignment
    ensures r.None? && IsPowerOfTwo(alignment) ==> value + alignment > LIMIT32
  {
    if !IsPowerOfTwo(alignment) then None
    else if value % alignment == 0 then Some(value)
    else if value > LIMIT32 - 1 - (alignment - 1) then None
    else
      var bumped := value + (alignment - 1);
      RoundDownIsMultiple(bumped, alignment);
      Some(bumped - bumped % alignment)
  }

  lemma RoundDownIsMultiple(x: nat, a: nat)
    requires a > 0
    ensures (x - x % a) % a == 0
  {
    var q := x / a;
    var y := x - x % a;
    assert y == a * q;
    var d, r := y / a, y % a;
    QuotientIsUnique(a, q, d, r);
  }

  lemma QuotientIsUnique(a: int, q: int, d: int, r: int)
    requires 0 <= r < a && a * q == a * d + r
    ensures q == d && r == 0
  {
    TimesDifference(a, q, d);
    TimesDifference(a, d, q);
    if q > d {
      TimesPositive(a, q - d);
    } else if q < d {
      TimesPositive(a, d - q);
    }
  }

  lemma TimesDifference(a: int, q: int, d: int)
    ensures a * (q - d) == a * q - a * d
  {
  }

  lemma TimesPositive(a: int, k: int)
    requires a > 0 && k >= 1
    ensures a * k >= a
  {
  }

  /** Both alignments in use are powers of two. */
  lemma HeapAlignments()
    ensures IsPowerOfTwo(8) && IsPowerOfTwo(PAGE)
  {
    assert IsPowerOfTwo(4) && IsPowerOfTwo(8) && IsPowerOfTwo(16) && IsPowerOfTwo(32);
    assert IsPowerOfTwo(64) && IsPowerOfTwo(128) && IsPowerOfTwo(256) && IsPowerOfTwo(512);
    assert IsPowerOfTwo(1024) && IsPowerOfTwo(2048);
  }
}
