/** Machine words, bytes and pages shared by every component. */
module Words {

  const PAGE_SIZE: int := 4096
  const U32_LIMIT: int := 0x1_0000_0000

  /** From this many pages on, the byte size no longer fits in 32 bits. */
  const MAX_PAGES: int := 0x10_0000

  type U32 = x: int | 0 <= x < 0x1_0000_0000

  newtype Byte = x: int | 0 <= x < 256

  /** One page of memory: the unit of every transfer. */
  type Page = p: seq<Byte> | |p| == 4096 witness seq(4096, _ => 0)

  function ZeroPage(): (p: Page)
    ensures forall b :: 0 <= b < PAGE_SIZE ==> p[b] == 0
  {
    seq(4096, _ => 0)
  }

  /** The u32 product of two u32 values: the high half is lost. */
  function Mul32(a: U32, b: U32): U32 {
    (a * b) % 0x1_0000_0000
  }

  /** The byte size of `n` pages. */
  function Bytes(n: int): int {
    4096 * n
  }

  /** PGROUNDDOWN */
  function RoundDown(a: int): int {
    a / 4096 * 4096
  }

  /** What the kernel makes of a mapping length: whole pages. */
  function RoundUp(len: int): int {
    (len + 4095) / 4096 * 4096
  }

  /** `page` after a store of `bytes` at offset `at`. */
  function Overlay(page: Page, at: nat, bytes: seq<Byte>): (p: Page)
    requires at + |bytes| <= PAGE_SIZE
    ensures forall b :: at <= b < at + |bytes| ==> p[b] == bytes[b - at]
    ensures forall b :: 0 <= b < at || at + |bytes| <= b < PAGE_SIZE ==> p[b] == page[b]
  {
    page[..at] + bytes + page[at + |bytes|..]
  }
}
