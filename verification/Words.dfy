/** Bytes, 32-bit words and little-endian access to 4096-byte page frames. */
module Words {

  const PAGE_SIZE := 4096
  const ENTRIES := 1024
  const PAGES := 0x10_0000     // virtual pages in a 32-bit address space

  type byte = b: int | 0 <= b < 256
  type u16 = w: int | 0 <= w < 0x1_0000
  type u32 = w: int | 0 <= w < 0x1_0000_0000
  type Frame = s: seq<byte> | |s| == 4096 witness seq(4096, _ => 0)

  /** Unsigned 32-bit wrap-around. */
  function Wrap32(x: int): (r: u32)
    ensures 0 <= x < 0x1_0000_0000 ==> r == x
  {
    x % 0x1_0000_0000
  }

  function ZeroFrame(): (r: Frame)
    ensures forall i | 0 <= i < 4096 :: r[i] == 0
  {
    seq(4096, _ => 0)
  }

  /** The four bytes of a word, lowest first, add up to the word. */
  lemma FourBytes(w: u32)
    ensures w == w % 0x100 + 0x100 * (w / 0x100 % 0x100)
                 + 0x1_0000 * (w / 0x1_0000 % 0x100) + 0x100_0000 * (w / 0x100_0000)
  {
    var a := w / 0x100;
    var b := a / 0x100;
    assert w == 0x100 * a + w % 0x100 && a == 0x100 * b + a % 0x100 && b == 0x100 * (b / 0x100) + b % 0x100;
    assert w / 0x1_0000 == b && w / 0x100_0000 == b / 0x100;
  }

  /** Four bytes as a word, lowest first. */
  function Word32(b0: int, b1: int, b2: int, b3: int): u32
    requires 0 <= b0 < 256 && 0 <= b1 < 256 && 0 <= b2 < 256 && 0 <= b3 < 256
  {
    b0 + 0x100 * b1 + 0x1_0000 * b2 + 0x100_0000 * b3
  }

  function ReadWord(fr: Frame, i: nat): u32
    requires i < ENTRIES
  {
    Word32(fr[4 * i], fr[4 * i + 1], fr[4 * i + 2], fr[4 * i + 3])
  }

  function WriteWord(fr: Frame, i: nat, w: u32): (r: Frame)
    requires i < ENTRIES
  {
    var low := fr[4 * i := w % 0x100][4 * i + 1 := w / 0x100 % 0x100];
    low[4 * i + 2 := w / 0x1_0000 % 0x100][4 * i + 3 := w / 0x100_0000]
  }

  /** A stored word reads back, and no other word of the frame changes. */
  lemma WriteWordSpec(fr: Frame, i: nat, w: u32)
    requires i < ENTRIES
    ensures ReadWord(WriteWord(fr, i, w), i) == w
    ensures forall j: nat | j < ENTRIES && j != i :: ReadWord(WriteWord(fr, i, w), j) == ReadWord(fr, j)
  {
    var r := WriteWord(fr, i, w);
    FourBytes(w);
    assert r[4 * i] == w % 0x100 && r[4 * i + 1] == w / 0x100 % 0x100;
    assert r[4 * i + 2] == w / 0x1_0000 % 0x100 && r[4 * i + 3] == w / 0x100_0000;
    forall j: nat | j < ENTRIES && j != i
      ensures ReadWord(r, j) == ReadWord(fr, j)
    {
      assert r[4 * j] == fr[4 * j] && r[4 * j + 1] == fr[4 * j + 1];
      assert r[4 * j + 2] == fr[4 * j + 2] && r[4 * j + 3] == fr[4 * j + 3];
    }
  }

  lemma ZeroWord(i: nat)
    requires i < ENTRIES
    ensures ReadWord(ZeroFrame(), i) == 0
  {
  }

  /** A word as four bytes, lowest first. */
  function Le32(w: u32): (bs: seq<byte>)
    ensures |bs| == 4
  {
    [w % 0x100, w / 0x100 % 0x100, w / 0x1_0000 % 0x100, w / 0x100_0000]
  }
}
