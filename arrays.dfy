/** Images as numpy holds them (height x width x 3 channels of uint8) and the
    whole-array numpy and OpenCV operations that the compositing step chains.
    Every operation returns a new array of the shape of its inputs. */
module Arrays {
  import opened Bytes

  /** One pixel: channels 0, 1 and 2 of an H x W x 3 uint8 array, in array order. */
  datatype Pixel = Pixel(c0: uint8, c1: uint8, c2: uint8)

  const Black := Pixel(0, 0, 0)

  /** A two-dimensional array, as a sequence of rows. */
  type Grid<T> = seq<seq<T>>

  /** a and b have the same number of rows, and each row the same length. */
  predicate SameShape<A, B>(a: Grid<A>, b: Grid<B>)
  {
    |a| == |b| && forall i :: 0 <= i < |a| ==> |a[i]| == |b[i]|
  }

  /** g is an h x w array. */
  predicate HasShape<T>(g: Grid<T>, h: nat, w: nat)
  {
    |g| == h && forall i :: 0 <= i < h ==> |g[i]| == w
  }

  function Height<T>(g: Grid<T>): nat { |g| }

  function Width<T>(g: Grid<T>): nat { if |g| == 0 then 0 else |g[0]| }

  /** Every row has the same length: g is a proper numpy array. */
  predicate IsRect<T>(g: Grid<T>)
  {
    HasShape(g, Height(g), Width(g))
  }

  /** Both arrays have the same shape and agree everywhere. */
  ghost predicate SameAt<T>(a: Grid<T>, b: Grid<T>)
  {
    SameShape(a, b) && forall i, j :: 0 <= i < |a| && 0 <= j < |a[i]| ==> a[i][j] == b[i][j]
  }

  lemma SameAtEqual<T>(a: Grid<T>, b: Grid<T>)
    requires SameAt(a, b)
    ensures a == b
  {
    forall i | 0 <= i < |a| ensures a[i] == b[i] {
      assert forall j :: 0 <= j < |a[i]| ==> a[i][j] == b[i][j];
    }
  }

  /** Element-wise comparison `m > t`, exact because probabilities are reals. */
  function Greater(m: Grid<real>, t: real): (r: Grid<bool>)
    ensures SameShape(r, m)
  {
    seq(|m|, i requires 0 <= i < |m| => seq(|m[i]|, j requires 0 <= j < |m[i]| => m[i][j] > t))
  }

  /** `.astype(np.uint8)` of a boolean array: true is 1, false is 0. */
  function AsUint8(b: Grid<bool>): (r: Grid<uint8>)
    ensures SameShape(r, b)
  {
    seq(|b|, i requires 0 <= i < |b| => seq(|b[i]|, j requires 0 <= j < |b[i]| => if b[i][j] then 1 else 0))
  }

  /** `g * k` for a uint8 array and a Python integer k that fits in uint8. */
  function Multiply(g: Grid<uint8>, k: int): (r: Grid<uint8>)
    ensures SameShape(r, g)
  {
    seq(|g|, i requires 0 <= i < |g| => seq(|g[i]|, j requires 0 <= j < |g[i]| => MulWrap(g[i][j], k)))
  }

  function PixelAnd(p: Pixel, q: Pixel): Pixel
  {
    Pixel(And(p.c0, q.c0), And(p.c1, q.c1), And(p.c2, q.c2))
  }

  function PixelAdd(p: Pixel, q: Pixel): Pixel
  {
    Pixel(AddSat(p.c0, q.c0), AddSat(p.c1, q.c1), AddSat(p.c2, q.c2))
  }

  /** `cv2.bitwise_and(a, b, mask=mask)` into a fresh destination: where the
      mask is non-zero the channel-wise AND of a and b, elsewhere zero (OpenCV
      clears a destination it allocates before a masked operation). */
  function BitwiseAnd(a: Grid<Pixel>, b: Grid<Pixel>, mask: Grid<uint8>): (r: Grid<Pixel>)
    requires SameShape(a, b) && SameShape(a, mask)
    ensures SameShape(r, a)
  {
    seq(|a|, i requires 0 <= i < |a| => seq(|a[i]|, j requires 0 <= j < |a[i]| =>
      if mask[i][j] != 0 then PixelAnd(a[i][j], b[i][j]) else Black))
  }

  /** `cv2.bitwise_not(m)` of a single-channel uint8 array. */
  function BitwiseNot(m: Grid<uint8>): (r: Grid<uint8>)
    ensures SameShape(r, m)
  {
    seq(|m|, i requires 0 <= i < |m| => seq(|m[i]|, j requires 0 <= j < |m[i]| => Not(m[i][j])))
  }

  /** `np.full((h, w, 3), p, dtype=np.uint8)`. */
  function Full(h: nat, w: nat, p: Pixel): (r: Grid<Pixel>)
    ensures HasShape(r, h, w)
  {
    seq(h, i => seq(w, j => p))
  }

  /** `cv2.add(a, b)` on two uint8 images: channel-wise addition clipped at 255. */
  function Add(a: Grid<Pixel>, b: Grid<Pixel>): (r: Grid<Pixel>)
    requires SameShape(a, b)
    ensures SameShape(r, a)
  {
    seq(|a|, i requires 0 <= i < |a| => seq(|a[i]|, j requires 0 <= j < |a[i]| => PixelAdd(a[i][j], b[i][j])))
  }
}
