/** CAbstractSpaceHash: the hash function shared by the space hash
    implementations.  The cell coordinates are 32-bit signed integers; the
    products and the exclusive or are computed on unsigned 32-bit words, so
    they wrap around modulo 2^32, and the word is then reduced modulo the
    number of buckets. */
module SpaceHash {

  const WORD: int := 0x1_0000_0000

  /** The unsigned 32-bit word a signed coordinate converts to. */
  function Word(n: int): bv32 {
    (n % WORD) as bv32
  }

  /** CoordinateHash: (73856093 i xor 19349663 j xor 83492791 k) mod size,
      on 32-bit words. */
  function CoordinateHash(i: int, j: int, k: int, size: nat): (h: nat)
    requires size > 0
    ensures h < size
  {
    Mix(Word(i), Word(j), Word(k)) as int % size
  }

  /** The wrapped products of the three coordinate words, combined by xor. */
  function Mix(wi: bv32, wj: bv32, wk: bv32): bv32 {
    (73856093 * wi) ^ (19349663 * wj) ^ (83492791 * wk)
  }

  /** The hash only sees each coordinate modulo 2^32: coordinates that agree
      on their 32-bit words share a bucket. */
  lemma HashWrapsAround(i: int, j: int, k: int, di: int, dj: int, dk: int, size: nat)
    requires size > 0
    ensures CoordinateHash(i + di * WORD, j + dj * WORD, k + dk * WORD, size)
            == CoordinateHash(i, j, k, size)
  {
    WordPeriodic(i, di);
    WordPeriodic(j, dj);
    WordPeriodic(k, dk);
  }

  lemma WordPeriodic(n: int, d: int)
    ensures Word(n + d * WORD) == Word(n)
  {
    assert (n + d * WORD) % WORD == n % WORD;
  }
}
