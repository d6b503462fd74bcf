/** `remove_background` of app/background_removal.py with the segmentation
    network and the two cv2.resize calls abstracted away: the caller supplies
    `prob`, channel 0 of the network's prediction already resized back to the
    frame's height and width (line 41). What remains is a whole-array
    transform: binarise the probabilities, then composite. */
module BackgroundRemoval {
  import opened Results
  import opened Bytes
  import opened Arrays
  import opened HexColor

  const White := Pixel(255, 255, 255)

  /** The cut-off of line 44; a probability equal to it is background. */
  const Threshold: real := 0.5

  /** A frame with no pixels, which cv2.resize (line 34) refuses. */
  predicate IsEmpty<T>(g: Grid<T>)
  {
    Height(g) == 0 || Width(g) == 0
  }

  /** Every element of the mask is 0 or 255. */
  predicate IsBinary(m: Grid<uint8>)
  {
    forall i, j :: 0 <= i < |m| && 0 <= j < |m[i]| ==> m[i][j] == 0 || m[i][j] == 255
  }

  /** Line 44, `(mask[:, :, 0] > 0.5).astype(np.uint8) * 255`: a 0/255 mask of
      the probabilities' shape, 255 exactly where the probability exceeds 0.5. */
  function BinaryMask(prob: Grid<real>): (mask: Grid<uint8>)
    ensures SameShape(mask, prob)
    ensures forall i, j :: 0 <= i < |mask| && 0 <= j < |mask[i]| ==>
      mask[i][j] == if prob[i][j] > Threshold then 255 else 0
    ensures IsBinary(mask)
  {
    Multiply(AsUint8(Greater(prob, Threshold)), 255)
  }

  /** Lines 48 and 56, `cv2.bitwise_and(frame, frame, mask=binary_mask)`: the
      frame's pixel where the mask is set, black elsewhere. */
  function MaskedFrame(frame: Grid<Pixel>, mask: Grid<uint8>): (r: Grid<Pixel>)
    requires SameShape(frame, mask)
    ensures SameShape(r, frame)
    ensures forall i, j :: 0 <= i < |r| && 0 <= j < |r[i]| ==>
      r[i][j] == if mask[i][j] != 0 then frame[i][j] else Black
  {
    BitwiseAnd(frame, frame, mask)
  }

  /** Lines 53 and 57: an h x w image of the fill colour, kept where the mask
      is clear (`cv2.bitwise_not(binary_mask)` is set), black elsewhere. */
  function MaskedFill(h: nat, w: nat, fill: Pixel, mask: Grid<uint8>): (r: Grid<Pixel>)
    requires HasShape(mask, h, w)
    ensures HasShape(r, h, w)
    ensures forall i, j :: 0 <= i < h && 0 <= j < w ==>
      r[i][j] == if mask[i][j] != 255 then fill else Black
  {
    var background := Full(h, w, fill);
    BitwiseAnd(background, background, BitwiseNot(mask))
  }

  /** Lines 53-60 given the fill colour: `cv2.add` of the two masked layers.
      With a 0/255 mask the frame's pixel is kept under the mask and the fill
      colour is everywhere else. */
  function CompositeSolid(frame: Grid<Pixel>, mask: Grid<uint8>, fill: Pixel): (r: Grid<Pixel>)
    requires IsRect(frame) && SameShape(frame, mask)
    ensures SameShape(r, frame)
    ensures IsBinary(mask) ==> forall i, j :: 0 <= i < |r| && 0 <= j < |r[i]| ==>
      r[i][j] == if mask[i][j] != 0 then frame[i][j] else fill
  {
    var fg := MaskedFrame(frame, mask);
    var bg := MaskedFill(Height(frame), Width(frame), fill, mask);
    Add(fg, bg)
  }

  /** At most one of two pixels is non-black. */
  predicate Disjoint(p: Pixel, q: Pixel)
  {
    p == Black || q == Black
  }

  /** Adding the two pixels channel by channel stays within 0..255. */
  predicate SumFits(p: Pixel, q: Pixel)
  {
    p.c0 as int + q.c0 as int <= 255 && p.c1 as int + q.c1 as int <= 255 && p.c2 as int + q.c2 as int <= 255
  }

  /** The two layers that line 60 adds have disjoint supports when the mask
      is 0/255, so the saturating cv2.add never clips and the result is their
      exact channel-wise sum. */
  lemma NoClipping(frame: Grid<Pixel>, mask: Grid<uint8>, fill: Pixel)
    requires IsRect(frame) && SameShape(frame, mask)
    ensures var fg := MaskedFrame(frame, mask);
      var bg := MaskedFill(Height(frame), Width(frame), fill, mask);
      IsBinary(mask) ==> forall i, j :: 0 <= i < |fg| && 0 <= j < |fg[i]| ==>
        Disjoint(fg[i][j], bg[i][j]) && SumFits(fg[i][j], bg[i][j])
  {
  }

  /** Line 52: the colour tuple, white when the argument is None or "". The
      only failure is hex_to_rgb's ValueError, and a tuple that comes back has
      components in -15..255. */
  function BackgroundRgb(backgroundColor: Option<string>): (r: Result<Rgb>)
    ensures r.Err? ==> r == Err(ValueError) && backgroundColor.Some? && backgroundColor.value != ""
    ensures r.Ok? ==> var (c0, c1, c2) := r.value;
      -15 <= c0 <= 255 && -15 <= c1 <= 255 && -15 <= c2 <= 255
  {
    match backgroundColor
    case None => Ok((255, 255, 255))
    case Some(s) =>
      if s == "" then Ok((255, 255, 255))
      else
        HexToRgbRange(s);
        HexToRgb(s)
  }

  /** Line 53: `np.full(..., bg_color_rgb, dtype=np.uint8)` casts each
      component to uint8, keeping its low 8 bits. */
  function FillPixel(rgb: Rgb): (p: Pixel)
    ensures 0 <= rgb.0 < 256 && 0 <= rgb.1 < 256 && 0 <= rgb.2 < 256 ==>
      p.c0 as int == rgb.0 && p.c1 as int == rgb.1 && p.c2 as int == rgb.2
  {
    Pixel(Wrap(rgb.0), Wrap(rgb.1), Wrap(rgb.2))
  }

  /** Lines 17-61, from the resized probability map on. */
  function RemoveBackground(frame: Grid<Pixel>, prob: Grid<real>, forRealtime: bool,
                            backgroundColor: Option<string>): (r: Result<Grid<Pixel>>)
    requires IsRect(frame) && SameShape(prob, frame)
    ensures IsEmpty(frame) ==> r == Err(ResizeError)
    ensures !IsEmpty(frame) && !forRealtime && BackgroundRgb(backgroundColor).Err? ==> r == Err(ValueError)
    ensures r.Ok? <==> !IsEmpty(frame) && (forRealtime || BackgroundRgb(backgroundColor).Ok?)
    ensures r.Ok? ==> SameShape(r.value, frame) && forall i, j :: 0 <= i < |frame| && 0 <= j < |frame[i]| ==>
      r.value[i][j] == if prob[i][j] > Threshold then frame[i][j]
                       else if forRealtime then Black
                       else FillPixel(BackgroundRgb(backgroundColor).value)
  {
    if IsEmpty(frame) then Err(ResizeError)
    else
      var binaryMask := BinaryMask(prob);
      if forRealtime then Ok(MaskedFrame(frame, binaryMask))
      else
        match BackgroundRgb(backgroundColor)
        case Err(e) => Err(e)
        case Ok(rgb) => Ok(CompositeSolid(frame, binaryMask, FillPixel(rgb)))
  }

  /** A map that is exactly 0.5 everywhere gives an all-background mask. */
  lemma {:induction false} TieIsBackground(prob: Grid<real>)
    requires forall i, j :: 0 <= i < |prob| && 0 <= j < |prob[i]| ==> prob[i][j] == 0.5
    ensures forall i, j :: 0 <= i < |prob| && 0 <= j < |prob[i]| ==> BinaryMask(prob)[i][j] == 0
  {
  }

  /** The colour argument: absent, empty and the default "#FFFFFF" all give white. */
  lemma {:induction false} DefaultColorIsWhite()
    ensures BackgroundRgb(None) == Ok((255, 255, 255))
    ensures BackgroundRgb(Some("")) == Ok((255, 255, 255))
    ensures BackgroundRgb(Some("#FFFFFF")) == Ok((255, 255, 255))
    ensures FillPixel((255, 255, 255)) == White
  {
    HexToRgbWhite();
  }

  /** The realtime branch returns before the colour is parsed, so it does not
      depend on it, and a malformed colour cannot make it fail. */
  lemma {:induction false} RealtimeIgnoresColor(frame: Grid<Pixel>, prob: Grid<real>, c: Option<string>, d: Option<string>)
    requires IsRect(frame) && SameShape(prob, frame)
    ensures RemoveBackground(frame, prob, true, c) == RemoveBackground(frame, prob, true, d)
  {
  }

  /** A frame classified background everywhere comes out all black in the
      realtime branch. */
  lemma {:induction false} RealtimeAllBackground(frame: Grid<Pixel>, prob: Grid<real>, c: Option<string>)
    requires IsRect(frame) && SameShape(prob, frame) && !IsEmpty(frame)
    requires forall i, j :: 0 <= i < |prob| && 0 <= j < |prob[i]| ==> prob[i][j] <= Threshold
    ensures RemoveBackground(frame, prob, true, c) == Ok(Full(Height(frame), Width(frame), Black))
  {
    var out := RemoveBackground(frame, prob, true, c).value;
    SameAtEqual(out, Full(Height(frame), Width(frame), Black));
  }

  /** A frame classified foreground everywhere comes out unchanged in both
      branches, whatever the colour (as long as it parses in the file branch). */
  lemma {:induction false} AllForegroundKeepsFrame(frame: Grid<Pixel>, prob: Grid<real>, forRealtime: bool, c: Option<string>)
    requires IsRect(frame) && SameShape(prob, frame)
    requires forall i, j :: 0 <= i < |prob| && 0 <= j < |prob[i]| ==> prob[i][j] > Threshold
    requires RemoveBackground(frame, prob, forRealtime, c).Ok?
    ensures RemoveBackground(frame, prob, forRealtime, c) == Ok(frame)
  {
    SameAtEqual(RemoveBackground(frame, prob, forRealtime, c).value, frame);
  }

  /** Masking an already masked frame again with the same mask changes nothing. */
  lemma {:induction false} MaskedFrameIdempotent(frame: Grid<Pixel>, mask: Grid<uint8>)
    requires SameShape(frame, mask)
    ensures MaskedFrame(MaskedFrame(frame, mask), mask) == MaskedFrame(frame, mask)
  {
    var once := MaskedFrame(frame, mask);
    SameAtEqual(MaskedFrame(once, mask), once);
  }

  /** Compositing the result again with the same 0/255 mask and colour gives
      the same image: foreground pixels stay, background pixels are filled
      with the same colour again. */
  lemma {:induction false} CompositeSolidIdempotent(frame: Grid<Pixel>, mask: Grid<uint8>, fill: Pixel)
    requires IsRect(frame) && SameShape(frame, mask) && IsBinary(mask)
    ensures CompositeSolid(CompositeSolid(frame, mask, fill), mask, fill) == CompositeSolid(frame, mask, fill)
  {
    var once := CompositeSolid(frame, mask, fill);
    assert HasShape(once, Height(frame), Width(frame));
    SameAtEqual(CompositeSolid(once, mask, fill), once);
  }

  /** Running remove_background on its own output with the same probability
      map, mode and colour returns that output again. */
  lemma {:induction false} RemoveBackgroundIdempotent(frame: Grid<Pixel>, prob: Grid<real>, forRealtime: bool, c: Option<string>)
    requires IsRect(frame) && SameShape(prob, frame)
    requires RemoveBackground(frame, prob, forRealtime, c).Ok?
    ensures var out := RemoveBackground(frame, prob, forRealtime, c).value;
      IsRect(out) && SameShape(prob, out) && RemoveBackground(out, prob, forRealtime, c) == Ok(out)
  {
    var mask := BinaryMask(prob);
    var out := RemoveBackground(frame, prob, forRealtime, c).value;
    assert HasShape(out, Height(frame), Width(frame));
    if forRealtime {
      MaskedFrameIdempotent(frame, mask);
    } else {
      CompositeSolidIdempotent(frame, mask, FillPixel(BackgroundRgb(c).value));
    }
  }
}
