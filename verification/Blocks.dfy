/** Disk blocks: 512 bytes, also read and written as 32-bit little-endian words. */
module Blocks {
  const BSIZE: nat := 512
  const WORDS: nat := 128        // BSIZE / sizeof(uint)
  const WORD_LIMIT: nat := 0x1_0000_0000

  type Byte = x: int | 0 <= x < 256
  type Block = s: seq<Byte> | |s| == BSIZE witness seq(BSIZE, i => 0)
  type Disk = seq<Block>

  function ZeroBlock(): Block {
    seq(BSIZE, i => 0)
  }

  function Word(b: Block, i: nat): (w: nat)
    requires i < WORDS
    ensures w < WORD_LIMIT
  {
    var b0, b1, b2, b3: int := b[4 * i], b[4 * i + 1], b[4 * i + 2], b[4 * i + 3];
    b0 + 0x100 * b1 + 0x1_0000 * b2 + 0x100_0000 * b3
  }

  function WithWord(b: Block, i: nat, w: nat): Block
    requires i < WORDS && w < WORD_LIMIT
  {
    b[4 * i := w % 0x100]
     [4 * i + 1 := w / 0x100 % 0x100]
     [4 * i + 2 := w / 0x1_0000 % 0x100]
     [4 * i + 3 := w / 0x100_0000]
  }

  lemma WordOfWithWord(b: Block, i: nat, w: nat, j: nat)
    requires i < WORDS && w < WORD_LIMIT && j < WORDS
    ensures Word(WithWord(b, i, w), j) == if j == i then w else Word(b, j)
  {
    var b' := WithWord(b, i, w);
    if j == i {
      assert b'[4 * i] == w % 0x100 && b'[4 * i + 1] == w / 0x100 % 0x100;
      assert b'[4 * i + 2] == w / 0x1_0000 % 0x100 && b'[4 * i + 3] == w / 0x100_0000;
      BytesOfWord(w);
    } else {
      assert b'[4 * j] == b[4 * j] && b'[4 * j + 1] == b[4 * j + 1];
      assert b'[4 * j + 2] == b[4 * j + 2] && b'[4 * j + 3] == b[4 * j + 3];
    }
  }

  lemma BytesOfWord(w: nat)
    requires w < WORD_LIMIT
    ensures w == w % 0x100 + 0x100 * (w / 0x100 % 0x100) + 0x1_0000 * (w / 0x1_0000 % 0x100)
                 + 0x100_0000 * (w / 0x100_0000)
  {
  }

  lemma ZeroBlockWords(i: nat)
    requires i < WORDS
    ensures Word(ZeroBlock(), i) == 0
  {
  }
}
