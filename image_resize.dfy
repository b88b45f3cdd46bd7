/**
 * The dimension arithmetic of the image-resize helpers: the two-mode
 * `resize` calculator, the percentage resize, the shrink-until-under-budget
 * loop and the order in which the upload handler applies them.
 *
 * Pixels are never modelled. An image is an opaque lineage: the decoded
 * upload, or the result of asking the resampling primitive for a given
 * size and filter. The encoded size of an image (JPEG, quality 100) is an
 * uninterpreted oracle `measure: Image -> nat` giving a byte count.
 */
module ImageResize {

  /** The loop never produces an image whose longer side is at or below this. */
  const MIN_SIZE: int := 32
  /** Pixels taken off the longer side on every pass of the shrink loop. */
  const STEP: int := 32

  datatype Option<T> = None | Some(value: T)

  /** The only failure the dimension arithmetic itself can raise. */
  datatype ResizeError = ZeroDivision

  datatype Result<T> = Ok(value: T) | Err(error: ResizeError)

  /** Resampling filters: the aspect-keeping mode uses the antialiasing one. */
  datatype Filter = Antialias | Nearest

  /** The (width, height) an image reports. */
  datatype Size = Size(width: nat, height: nat)
  {
    /** max(width, height) */
    function Longer(): (m: nat)
      ensures width <= m && height <= m
      ensures m == width || m == height
    {
      if width >= height then width else height
    }
  }

  /**
   * The third argument of `resize`: an integer is the new longer side
   * (aspect ratio kept), a pair is an exact (width, height), each component
   * truncated to an integer.
   */
  datatype Target = Side(side: nat) | Pair(width: real, height: real)

  /** What `resize` hands to the resampling primitive. */
  datatype Request = Request(width: int, height: int, filter: Filter)
  {
    /** The requested dimensions as a Size, when neither is negative. */
    function Dims(): (s: Size)
      requires 0 <= width && 0 <= height
    {
      Size(width, height)
    }
  }

  /**
   * An image, with its pixels left opaque: either a decoded upload (the
   * `content` tag stands for its pixels) or a resample of another image.
   */
  datatype Image = Loaded(dims: Size, content: nat) | Resampled(source: Image, request: Request)
  {
    function Width(): (w: int)
    {
      match this
      case Loaded(d, _) => d.width
      case Resampled(_, q) => q.width
    }

    function Height(): (h: int)
    {
      match this
      case Loaded(d, _) => d.height
      case Resampled(_, q) => q.height
    }

    /** max(Width(), Height()); unlike Size.Longer it may be negative for a Pair request. */
    function Longer(): (m: int)
      ensures Width() <= m && Height() <= m
      ensures m == Width() || m == Height()
    {
      if Width() >= Height() then Width() else Height()
    }
  }

  /** Python's `int(x)` on a float: truncation toward zero. */
  function Trunc(x: real): (r: int)
    ensures 0.0 <= x ==> 0 <= r && r as real <= x < r as real + 1.0
    ensures x < 0.0 ==> r <= 0 && r as real - 1.0 < x <= r as real
  {
    if x >= 0.0 then x.Floor else -((-x).Floor)
  }

  /** The defining inequalities of floor division on naturals. */
  lemma FloorDiv(n: nat, d: nat)
    requires d > 0
    ensures 0 <= n / d
    ensures (n / d) * d <= n < (n / d + 1) * d
  {
    assert n == (n / d) * d + n % d;
  }

  /**
   * `resize(image, current_size, new_width_height)`, on dimensions.
   * Side(t): the longer side becomes t and the shorter side the floor of
   * its proportional value; a tie (square image) takes the width branch.
   * Pair(a, b): exactly (int(a), int(b)), aspect ratio ignored.
   */
  function Resize(current: Size, target: Target): (r: Result<Request>)
    ensures r.Err? <==> target.Side? && current.width == 0 && current.height == 0
    ensures target.Pair? ==> r.Ok? && r.value.filter == Nearest
    ensures target.Pair? ==> r.value.width == Trunc(target.width) && r.value.height == Trunc(target.height)
    ensures target.Side? && r.Ok? ==> r.value.filter == Antialias && 0 <= r.value.width && 0 <= r.value.height
    ensures target.Side? && current.height > current.width ==>
      r.Ok? && r.value.height == target.side &&
      r.value.width * current.height <= current.width * target.side < (r.value.width + 1) * current.height
    ensures target.Side? && 0 < current.width && current.height <= current.width ==>
      r.Ok? && r.value.width == target.side &&
      r.value.height * current.width <= current.height * target.side < (r.value.height + 1) * current.width
  {
    match target
    case Side(t) =>
      if current.height > current.width then
        FloorDiv(current.width * t, current.height);
        Ok(Request(current.width * t / current.height, t, Antialias))
      else if current.width == 0 then
        Err(ZeroDivision)
      else
        FloorDiv(current.height * t, current.width);
        Ok(Request(t, current.height * t / current.width, Antialias))
    case Pair(a, b) =>
      Ok(Request(Trunc(a), Trunc(b), Nearest))
  }

  /**
   * A floor of short*t/long is at most t, and below t when short < long and
   * t > 0.
   */
  lemma ScaledShortAtMost(q: nat, short: nat, long: nat, t: nat)
    requires short <= long && 0 < long
    requires q * long <= short * t
    ensures q <= t
    ensures short < long && 0 < t ==> q < t
  {
    assert short * t <= long * t by {
      assert (long - short) * t >= 0;
    }
    if short < long && 0 < t {
      assert short * t < long * t by {
        assert (long - short) * t > 0;
      }
    }
  }

  /**
   * In fixed-size mode the requested longer side is exactly t, and the
   * orientation (portrait or not) of a non-degenerate target is kept.
   */
  lemma SideKeepsLongerSide(current: Size, t: nat)
    requires current.width > 0 || current.height > 0
    ensures Resize(current, Side(t)).value.Dims().Longer() == t
    ensures 0 < t ==> (Resize(current, Side(t)).value.height > Resize(current, Side(t)).value.width
                       <==> current.height > current.width)
  {
    var s := Resize(current, Side(t)).value;
    if current.height > current.width {
      ScaledShortAtMost(s.width, current.width, current.height, t);
    } else {
      ScaledShortAtMost(s.height, current.height, current.width, t);
    }
  }

  /** Resizing to the image's own exact pair asks for the same dimensions. */
  lemma SameExactPairUnchanged(current: Size)
    ensures Resize(current, Pair(current.width as real, current.height as real))
         == Ok(Request(current.width, current.height, Nearest))
  {
    var q := Resize(current, Pair(current.width as real, current.height as real)).value;
    assert q.width as real <= current.width as real < q.width as real + 1.0;
    assert q.height as real <= current.height as real < q.height as real + 1.0;
  }

  /** 1920x1080 with new longer side 960 gives 960x540; a square keeps the width branch. */
  lemma SideExamples()
    ensures Resize(Size(1920, 1080), Side(960)) == Ok(Request(960, 540, Antialias))
    ensures Resize(Size(1080, 1920), Side(960)) == Ok(Request(540, 960, Antialias))
    ensures Resize(Size(500, 500), Side(100)) == Ok(Request(100, 100, Antialias))
    ensures Resize(Size(1000, 1), Side(968)) == Ok(Request(968, 0, Antialias))
  {
  }

  /**
   * `resize_in_percentages`: both sides scaled by percentage/100 and sent
   * through the exact-pair path.
   */
  function ResizeInPercentages(size: Size, percentage: real): (r: Request)
    ensures r.filter == Nearest
    ensures 0.0 <= percentage ==>
      0 <= r.width && r.width as real <= size.width as real * percentage / 100.0 < r.width as real + 1.0
    ensures 0.0 <= percentage ==>
      0 <= r.height && r.height as real <= size.height as real * percentage / 100.0 < r.height as real + 1.0
  {
    Resize(size, Pair(size.width as real * percentage / 100.0, size.height as real * percentage / 100.0)).value
  }

  /** The real quotient n/100 truncates to the integer quotient. */
  lemma TruncHundredth(n: nat)
    ensures Trunc(n as real / 100.0) == n / 100
  {
    var q, r := n / 100, n % 100;
    assert n == q * 100 + r;
    assert n as real / 100.0 == q as real + r as real / 100.0;
    assert q as real <= n as real / 100.0 < q as real + 1.0;
  }

  /** With a whole-number percentage p the result is (floor(w*p/100), floor(h*p/100)). */
  lemma PercentOfNat(size: Size, p: nat)
    ensures ResizeInPercentages(size, p as real)
         == Request(size.width * p / 100, size.height * p / 100, Nearest)
  {
    assert size.width as real * p as real / 100.0 == (size.width * p) as real / 100.0;
    assert size.height as real * p as real / 100.0 == (size.height * p) as real / 100.0;
    TruncHundredth(size.width * p);
    TruncHundredth(size.height * p);
  }

  /** 100% keeps the dimensions; 1000x500 at 50% gives 500x250. */
  lemma PercentExamples(size: Size)
    ensures ResizeInPercentages(size, 100.0) == Request(size.width, size.height, Nearest)
    ensures ResizeInPercentages(Size(1000, 500), 50.0) == Request(500, 250, Nearest)
  {
    PercentOfNat(size, 100);
    PercentOfNat(Size(1000, 500), 50);
  }

  /** The encoded size, in KB, of an image whose encoding takes `bytes` bytes. */
  function Kb(bytes: nat): (kb: real)
    ensures 0.0 <= kb && kb * 1024.0 == bytes as real
  {
    bytes as real / 1024.0
  }

  /**
   * Final state of the shrink loop: the image, the `size` variable, the last
   * measured KB, and the sizes produced by the passes, in order.
   */
  datatype Shrunk = Shrunk(image: Image, size: Size, kb: real, tried: seq<Size>)

  /**
   * The shrink loop as a recursive function: while the next candidate
   * (longer side minus STEP) is above MIN_SIZE and the measured KB is over
   * budget, resize so that the longer side is that candidate and re-measure.
   */
  function ShrinkRun(image: Image, size: Size, kb: real, desired: real, measure: Image -> nat): (r: Shrunk)
    decreases size.Longer()
  {
    var next := size.Longer() - STEP;
    if next > MIN_SIZE && kb > desired then
      var req := Resize(size, Side(next)).value;
      var resized := Resampled(image, req);
      var dims := req.Dims();
      SideKeepsLongerSide(size, next);
      var rest := ShrinkRun(resized, dims, Kb(measure(resized)), desired, measure);
      Shrunk(rest.image, rest.size, rest.kb, [dims] + rest.tried)
    else
      Shrunk(image, size, kb, [])
  }

  /**
   * The loop stops only when the measured size is within budget or the next
   * candidate is at or below MIN_SIZE.
   */
  lemma {:induction false} ShrinkRunStops(image: Image, size: Size, kb: real, desired: real, measure: Image -> nat)
    ensures var r := ShrinkRun(image, size, kb, desired, measure);
      r.kb <= desired || r.size.Longer() - STEP <= MIN_SIZE
    decreases size.Longer()
  {
    var next := size.Longer() - STEP;
    if next > MIN_SIZE && kb > desired {
      var req := Resize(size, Side(next)).value;
      var resized := Resampled(image, req);
      SideKeepsLongerSide(size, next);
      ShrinkRunStops(resized, req.Dims(), Kb(measure(resized)), desired, measure);
    }
  }

  /**
   * What the passes do: pass i (from 0) produces an image whose longer side
   * is max(w, h) - (i+1)*STEP, above MIN_SIZE, with the orientation of the
   * starting size. With no pass the image is returned untouched; otherwise
   * the result is the last pass's antialiased image and the KB is its
   * measurement.
   */
  lemma {:induction false} ShrinkRunTrace(image: Image, size: Size, kb: real, desired: real, measure: Image -> nat)
    ensures var r := ShrinkRun(image, size, kb, desired, measure);
      && (r.tried == [] ==> r.image == image && r.size == size && r.kb == kb)
      && (r.tried != [] ==>
            && r.size == r.tried[|r.tried| - 1]
            && r.image.Resampled? && r.image.request.filter == Antialias
            && r.image.Width() == r.size.width && r.image.Height() == r.size.height
            && r.kb == Kb(measure(r.image)))
      && (forall i :: 0 <= i < |r.tried| ==>
            && r.tried[i].Longer() == size.Longer() - (i + 1) * STEP
            && r.tried[i].Longer() > MIN_SIZE
            && (r.tried[i].height > r.tried[i].width <==> size.height > size.width))
    decreases size.Longer()
  {
    var next := size.Longer() - STEP;
    if next > MIN_SIZE && kb > desired {
      var req := Resize(size, Side(next)).value;
      var resized := Resampled(image, req);
      var dims := req.Dims();
      SideKeepsLongerSide(size, next);
      ShrinkRunTrace(resized, dims, Kb(measure(resized)), desired, measure);
      var rest := ShrinkRun(resized, dims, Kb(measure(resized)), desired, measure);
      var r := ShrinkRun(image, size, kb, desired, measure);
      assert r.tried == [dims] + rest.tried;
      forall i | 0 <= i < |r.tried|
        ensures r.tried[i].Longer() == size.Longer() - (i + 1) * STEP
        ensures r.tried[i].Longer() > MIN_SIZE
        ensures r.tried[i].height > r.tried[i].width <==> size.height > size.width
      {
        if i > 0 {
          assert r.tried[i] == rest.tried[i - 1];
        }
      }
    }
  }

  /**
   * The number of passes k satisfies k*STEP < max(w, h) - MIN_SIZE, so the
   * loop runs strictly fewer than (max(w, h) - MIN_SIZE)/STEP times.
   */
  lemma ShrinkRunBound(image: Image, size: Size, kb: real, desired: real, measure: Image -> nat)
    ensures var r := ShrinkRun(image, size, kb, desired, measure);
      r.tried == [] || |r.tried| * STEP < size.Longer() - MIN_SIZE
  {
    ShrinkRunTrace(image, size, kb, desired, measure);
    var r := ShrinkRun(image, size, kb, desired, measure);
    if r.tried != [] {
      var n := |r.tried|;
      assert r.tried[n - 1].Longer() == size.Longer() - n * STEP;
    }
  }

  /**
   * `resize_under_kb`: shrink the longer side by STEP per pass, re-measuring
   * each time, until the image is within `desired` KB or the next candidate
   * reaches MIN_SIZE. `size` and `sizeKb` are the caller's, and need not be
   * those of `image`. The result is best effort: it may still be over budget.
   */
  method ResizeUnderKb(image: Image, size: Size, sizeKb: real, desired: real, measure: Image -> nat)
    returns (result: Image)
    ensures result == ShrinkRun(image, size, sizeKb, desired, measure).image
    ensures sizeKb <= desired || size.Longer() - STEP <= MIN_SIZE ==> result == image
    ensures sizeKb > desired && size.Longer() - STEP > MIN_SIZE ==> MIN_SIZE < result.Longer() < size.Longer()
  {
    var current, dims, kb := image, size, sizeKb;
    var next := dims.Longer() - STEP;
    while next > MIN_SIZE && kb > desired
      invariant next == dims.Longer() - STEP
      invariant ShrinkRun(current, dims, kb, desired, measure).image == ShrinkRun(image, size, sizeKb, desired, measure).image
      decreases next
    {
      SideKeepsLongerSide(dims, next);
      var req := Resize(dims, Side(next)).value;
      current := Resampled(current, req);
      kb := Kb(measure(current));
      dims := req.Dims();
      next := dims.Longer() - STEP;
    }
    result := current;
    ShrinkRunTrace(image, size, sizeKb, desired, measure);
  }

  /** Line 124: the optional percentage resize of the decoded upload. */
  function ScaleStep(upload: Image, size: Size, percentage: Option<real>): (r: Image)
    ensures percentage.None? ==> r == upload
    ensures percentage.Some? ==> r.Resampled? && r.source == upload
    ensures percentage.Some? ==> r.request == ResizeInPercentages(size, percentage.value)
    ensures percentage.Some? && 0.0 <= percentage.value ==>
      && 0 <= r.Width() && r.Width() as real <= size.width as real * percentage.value / 100.0 < r.Width() as real + 1.0
      && 0 <= r.Height() && r.Height() as real <= size.height as real * percentage.value / 100.0 < r.Height() as real + 1.0
  {
    if percentage.Some? then Resampled(upload, ResizeInPercentages(size, percentage.value)) else upload
  }

  /** Line 126: the optional exact (width, height) resize, from already-parsed integers. */
  function CustomStep(image: Image, size: Size, custom: Option<(int, int)>): (r: Image)
    ensures custom.None? ==> r == image
    ensures custom.Some? ==> r.Resampled? && r.source == image
    ensures custom.Some? ==> r.request == Request(custom.value.0, custom.value.1, Nearest)
  {
    if custom.Some? then
      var q := Resize(size, Pair(custom.value.0 as real, custom.value.1 as real)).value;
      assert q.width as real - 1.0 < custom.value.0 as real < q.width as real + 1.0;
      assert q.height as real - 1.0 < custom.value.1 as real < q.height as real + 1.0;
      Resampled(image, q)
    else
      image
  }

  /**
   * Lines 124-126 of the upload handler, as written: percentage, then size
   * budget, then exact pair, each applied to the previous step's image but
   * each computed from the upload's ORIGINAL size (and, for the budget, its
   * original KB).
   */
  function HandleResize(size: Size, content: nat, sizeKb: real, percentage: Option<real>,
                        desired: Option<real>, custom: Option<(int, int)>, measure: Image -> nat): (r: Image)
    ensures percentage.None? && desired.None? && custom.None? ==> r == Loaded(size, content)
    ensures percentage.Some? && desired.None? && custom.None? ==>
      r == Resampled(Loaded(size, content), ResizeInPercentages(size, percentage.value))
    ensures percentage.None? && desired.Some? && custom.None? ==>
      r == ShrinkRun(Loaded(size, content), size, sizeKb, desired.value, measure).image
    ensures desired.Some? && custom.None? && (sizeKb <= desired.value || size.Longer() - STEP <= MIN_SIZE) ==>
      r == ScaleStep(Loaded(size, content), size, percentage)
    ensures custom.Some? ==> r.Resampled? && r.request == Request(custom.value.0, custom.value.1, Nearest)
  {
    var scaled := ScaleStep(Loaded(size, content), size, percentage);
    var shrunk := if desired.Some? then ShrinkRun(scaled, size, sizeKb, desired.value, measure).image else scaled;
    CustomStep(shrunk, size, custom)
  }

  /**
   * The exact-pair step resamples whatever the percentage and budget steps
   * produced: dropping the pair leaves exactly that image.
   */
  lemma HandleResizeCustomLast(size: Size, content: nat, sizeKb: real, percentage: Option<real>,
                               desired: Option<real>, a: int, b: int, measure: Image -> nat)
    ensures var r := HandleResize(size, content, sizeKb, percentage, desired, Some((a, b)), measure);
      && r.Resampled?
      && r.source == HandleResize(size, content, sizeKb, percentage, desired, None, measure)
      && r.request == Request(a, b, Nearest)
  {
  }

  /**
   * As written, the budget step can ENLARGE an image the percentage step
   * has just shrunk: 1000x500 at 50% is 500x250, and the first budget pass
   * then asks for 968x484, computed from the stale original size.
   */
  lemma HandleResizeEnlarges()
    ensures var r := HandleResize(Size(1000, 500), 0, 100.0, Some(50.0), Some(10.0), None, (_: Image) => 0);
      && r == Resampled(Resampled(Loaded(Size(1000, 500), 0), Request(500, 250, Nearest)),
                        Request(968, 484, Antialias))
      && r.Longer() > r.source.Longer()
  {
    var measure := (_: Image) => 0;
    var upload := Loaded(Size(1000, 500), 0);
    PercentExamples(Size(1000, 500));
    var scaled := ScaleStep(upload, Size(1000, 500), Some(50.0));
    assert scaled == Resampled(upload, Request(500, 250, Nearest));
    var first := Resampled(scaled, Request(968, 484, Antialias));
    assert Resize(Size(1000, 500), Side(968)) == Ok(Request(968, 484, Antialias));
    assert ShrinkRun(first, Size(968, 484), Kb(measure(first)), 10.0, measure)
        == Shrunk(first, Size(968, 484), 0.0, []);
    assert ShrinkRun(scaled, Size(1000, 500), 100.0, 10.0, measure).image == first;
  }

  /**
   * For every upload over budget and large enough to shrink, the budget
   * step after a percentage resize makes its first pass from the ORIGINAL
   * size: it resamples the percentage-scaled image to the longer side
   * max(w, h) - STEP of the upload and carries on from there. Whenever the
   * percentage step left the image shorter than that, the first pass
   * enlarges it.
   */
  lemma HandleResizeStaleBudget(size: Size, content: nat, sizeKb: real, p: real, d: real, measure: Image -> nat)
    requires sizeKb > d && size.Longer() - STEP > MIN_SIZE
    ensures var scaled := ScaleStep(Loaded(size, content), size, Some(p));
      var first := Resampled(scaled, Resize(size, Side(size.Longer() - STEP)).value);
      && HandleResize(size, content, sizeKb, Some(p), Some(d), None, measure)
         == ShrinkRun(first, first.request.Dims(), Kb(measure(first)), d, measure).image
      && first.Longer() == size.Longer() - STEP
      && (scaled.Longer() < size.Longer() - STEP ==> first.Longer() > scaled.Longer())
  {
    var next := size.Longer() - STEP;
    SideKeepsLongerSide(size, next);
  }

  /**
   * Lines 124-126 with the budget step fed the dimensions and the KB of the
   * image it is actually given: after a percentage resize, the scaled
   * dimensions and a fresh measurement; without one, the upload's own size
   * and KB, as written. The budget step then never makes that image larger.
   */
  function HandleResizeRemeasured(size: Size, content: nat, sizeKb: real, percentage: Option<real>,
                                  desired: Option<real>, custom: Option<(int, int)>, measure: Image -> nat): (r: Image)
    requires percentage.Some? ==> 0.0 <= percentage.value
    ensures custom.Some? ==> r.Resampled? && r.request == Request(custom.value.0, custom.value.1, Nearest)
    ensures custom.None? ==> r.Longer() <= ScaleStep(Loaded(size, content), size, percentage).Longer()
    ensures percentage.None? && custom.None? ==>
      r == if desired.Some? then ShrinkRun(Loaded(size, content), size, sizeKb, desired.value, measure).image
           else Loaded(size, content)
  {
    var scaled := ScaleStep(Loaded(size, content), size, percentage);
    var dims := if percentage.Some? then scaled.request.Dims() else size;
    var kb := if percentage.Some? then Kb(measure(scaled)) else sizeKb;
    assert scaled.Longer() == dims.Longer();
    var shrunk :=
      if desired.Some? then
        ShrinkRunTrace(scaled, dims, kb, desired.value, measure);
        ShrinkRun(scaled, dims, kb, desired.value, measure).image
      else scaled;
    CustomStep(shrunk, size, custom)
  }
}
