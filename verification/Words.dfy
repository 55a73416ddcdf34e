/** Pages of bytes, and the 32-bit little-endian words the kernel keeps in them. */
module Words {
  import opened Frames

  type Byte = b: int | 0 <= b < 256
  type Page = p: seq<Byte> | |p| == PAGE_SIZE witness seq(PAGE_SIZE, _ => 0)

  const WORD := 0x1_0000_0000

  /** A 32-bit little-endian word in a page. */
  function Load32(p: Page, off: nat): (v: int)
    requires off + 4 <= PAGE_SIZE
    ensures 0 <= v < WORD
  {
    p[off] as int + 0x100 * p[off + 1] as int + 0x10000 * p[off + 2] as int + 0x1000000 * p[off + 3] as int
  }

  function Digit(v: int, scale: int): (b: Byte)
    requires scale > 0
  {
    v / scale % 0x100
  }

  function Store32(p: Page, off: nat, v: int): (q: Page)
    requires off + 4 <= PAGE_SIZE
  {
    p[off := Digit(v, 1)][off + 1 := Digit(v, 0x100)][off + 2 := Digit(v, 0x10000)][off + 3 := Digit(v, 0x1000000)]
  }

  lemma Digits(v: int)
    requires 0 <= v < WORD
    ensures Digit(v, 1) + 0x100 * Digit(v, 0x100) + 0x10000 * Digit(v, 0x10000) + 0x1000000 * Digit(v, 0x1000000) == v
  {
    assert v / 0x10000 == v / 0x100 / 0x100 && v / 0x1000000 == v / 0x10000 / 0x100;
  }

  lemma LoadStore(p: Page, off: nat, v: int, at: nat)
    requires off + 4 <= PAGE_SIZE && at + 4 <= PAGE_SIZE && 0 <= v < WORD
    requires at == off || at + 4 <= off || off + 4 <= at
    ensures Load32(Store32(p, off, v), at) == if at == off then v else Load32(p, at)
  {
    Digits(v);
  }
}
