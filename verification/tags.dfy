/** The boundary tags of mm.c: a block size, a multiple of 8, with the allocated bit in its last bit. */
module Tags {

  /** PACK */
  function Pack(size: int, used: bool): int {
    size + if used then 1 else 0
  }

  /** GET_SIZE of a tag */
  function SizeOf(tag: int): int {
    tag / 8 * 8
  }

  /** GET_ALLOC of a tag */
  function AllocOf(tag: int): int {
    tag % 2
  }

  lemma Parity(m: int)
    ensures 2 * m % 2 == 0 && (2 * m + 1) % 2 == 1
  {
  }

  lemma UnpackPack(size: int, used: bool)
    requires size % 8 == 0
    ensures SizeOf(Pack(size, used)) == size
    ensures AllocOf(Pack(size, used)) == if used then 1 else 0
  {
    var k := size / 8;
    assert size == 2 * (4 * k);
    Parity(4 * k);
  }
}
