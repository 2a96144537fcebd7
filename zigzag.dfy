/** The zigzag fold that maps a signed integer of any magnitude to a
    non-negative one before it is split into bytes, and its inverse. */
module ZigZag {

  /** `x ^ -1` on an arbitrary-precision two's-complement integer. */
  function BitNot(x: int): int
  {
    -x - 1
  }

  /** `(v << 1) ^ (v < 0 ? -1 : 0)`: the sign moves into the lowest bit. */
  function Fold(v: int): (u: nat)
    ensures u % 2 == (if v < 0 then 1 else 0)
    ensures u / 2 == (if v < 0 then BitNot(v) else v)
  {
    var shifted := 2 * v;
    if v < 0 then BitNot(shifted) else shifted
  }

  /** `(u >> 1) ^ (u & 1 ? -1 : 0)` for the non-negative value read back. */
  function Unfold(u: nat): (v: int)
    ensures v < 0 <==> u % 2 == 1
  {
    var shifted := u / 2;
    if u % 2 == 1 then BitNot(shifted) else shifted
  }

  lemma UnfoldFold(v: int)
    ensures Unfold(Fold(v)) == v
  {
  }

  /** The fold is onto the naturals, so every payload decodes to the value
      whose fold it is. */
  lemma FoldUnfold(u: nat)
    ensures Fold(Unfold(u)) == u
  {
  }
}
