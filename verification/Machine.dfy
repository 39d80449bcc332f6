/**
 Sizes, unsigned 64-bit arithmetic and the alignment macros shared by every component.
 Addresses are natural numbers; a sum that the kernel computes in a uint64_t is reduced
 explicitly with Wrap64.
 */
module Machine {

  const PAGE_SIZE: nat := 4096
  const TWO64: nat := 0x1_0000_0000_0000_0000

  type U64 = x: nat | x < TWO64
  type Byte = x: nat | x < 256

  datatype Option<+T> = None | Some(value: T)

  function Wrap64(x: nat): (r: U64) {
    x % TWO64
  }

  /** ALIGN_UP(x, PAGE_SIZE) with its uint64_t wrap-around. */
  function PageAlignUp(x: U64): (r: U64) {
    Wrap64(x + PAGE_SIZE - 1) / PAGE_SIZE * PAGE_SIZE
  }

  /** ALIGN_DOWN(x, PAGE_SIZE). */
  function PageAlignDown(x: U64): (r: U64) {
    x / PAGE_SIZE * PAGE_SIZE
  }

  /** Number of pages that ALIGN_UP(size, PAGE_SIZE) / PAGE_SIZE yields. */
  function PageCount(size: U64): (r: nat) {
    PageAlignUp(size) / PAGE_SIZE
  }

  function Zeros(n: nat): (z: seq<Byte>)
    ensures |z| == n && forall i :: 0 <= i < n ==> z[i] == 0
  {
    seq(n, i => 0)
  }
}
