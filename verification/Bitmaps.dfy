/** Contracts for the libsolv `Map`: a bit array whose size is rounded up to whole bytes. libsolv
  itself is not part of this model. Note that intersection leaves the bits of the left operand
  beyond the size of the right one as they are, and that only union grows its left operand.
 */
module Bitmaps {

  type Bitmap = seq<bool>

  function Capacity(n: nat): (c: nat)
    ensures n <= c < n + 8
  {
    8 * ((n + 7) / 8)
  }

  predicate Has(m: Bitmap, id: int) {
    0 <= id < |m| && m[id]
  }

  function Empty(n: nat): (m: Bitmap)
    ensures |m| == Capacity(n) && forall id :: !Has(m, id)
  {
    seq(Capacity(n), i => false)
  }

  function Grow(m: Bitmap, n: nat): (r: Bitmap)
    ensures n <= |r| && |m| <= |r|
    ensures forall id :: Has(r, id) <==> Has(m, id)
  {
    if Capacity(n) <= |m| then m else m + seq(Capacity(n) - |m|, i => false)
  }

  function SetAll(m: Bitmap): (r: Bitmap)
    ensures |r| == |m| && forall id :: Has(r, id) <==> 0 <= id < |m|
  {
    seq(|m|, i => true)
  }

  function Union(m: Bitmap, other: Bitmap): (r: Bitmap)
    ensures |m| <= |r| && |other| <= |r|
    ensures forall id :: Has(r, id) <==> Has(m, id) || Has(other, id)
  {
    seq(if |m| < |other| then |other| else |m|, i => Has(m, i) || Has(other, i))
  }

  function Subtract(m: Bitmap, other: Bitmap): (r: Bitmap)
    ensures |r| == |m|
    ensures forall id :: Has(r, id) <==> Has(m, id) && !Has(other, id)
  {
    seq(|m|, i => Has(m, i) && !Has(other, i))
  }

  function And(m: Bitmap, other: Bitmap): (r: Bitmap)
    ensures |r| == |m|
    ensures forall id :: Has(r, id) <==> Has(m, id) && (id < |other| ==> Has(other, id))
  {
    seq(|m|, i => Has(m, i) && (i < |other| ==> Has(other, i)))
  }
}
