/** The frame payload: frame i is a typed read at `4100 + i * stride` of `int(size / nbytes)`
    elements, reshaped to the region size in row-major order; the frames, in order, form the
    data. */
module Frames {
  import opened Results
  import opened Bytes
  import opened Footer
  import Header

  /** One frame: a `height` by `width` array, held as the flat samples of its read in
      row-major order, as the view `reshape` gives of them. */
  datatype Frame = Frame(height: nat, width: nat, samples: seq<nat>)

  predicate WellShaped(f: Frame)
  {
    |f.samples| == f.height * f.width
  }

  /** Row-major addresses of a `height` by `width` array stay below `height * width`. */
  lemma RowMajorBound(height: nat, width: nat, r: nat, c: nat)
    requires r < height && c < width
    ensures r * width + c < height * width
  {
    MulMonotone(r + 1, height, width);
    assert (r + 1) * width == r * width + width;
  }

  /** Sample (r, c) of a frame: flat sample `r * width + c`. */
  function Sample(f: Frame, r: nat, c: nat): nat
    requires WellShaped(f) && r < f.height && c < f.width
  {
    RowMajorBound(f.height, f.width, r, c);
    f.samples[r * f.width + c]
  }

  /** `int(a / b)`: true division, then truncation toward zero. */
  function TruncatedQuotient(a: int, b: nat): (q: int)
    requires b > 0
    ensures a >= 0 ==> 0 <= q && q * b <= a < q * b + b
    ensures a < 0 ==> q <= 0 && q * b - b < a <= q * b
  {
    if a >= 0 then
      DivBounds(a, b);
      a / b
    else
      DivBounds(-a, b);
      -((-a) / b)
  }

  /** Floor division of a natural number, and the negated quotient. */
  lemma DivBounds(n: nat, b: nat)
    requires b > 0
    ensures 0 <= n / b && (n / b) * b <= n < (n / b) * b + b
    ensures (-(n / b)) * b == -((n / b) * b)
  {
  }

  /** The dimensions `reshape((height, width))` gives an array of `n` elements: each
      dimension must first fit in a signed 64-bit size, height before width; then a negative
      dimension is the unknown one, inferred from the other, and at most one may be unknown. */
  function ReshapeDims(n: nat, height: int, width: int): (r: Result<(nat, nat)>)
    ensures r.Ok? ==> r.value.0 * r.value.1 == n
    ensures r.Ok? && height >= 0 && width >= 0 ==> r.value == (height, width)
  {
    if !IsInt64(height) then Err(DimensionTooLarge(height))
    else if !IsInt64(width) then Err(DimensionTooLarge(width))
    else if height >= 0 && width >= 0 then
      if height * width == n then Ok((height, width)) else Err(ReshapeMismatch(n, height, width))
    else if height < 0 && width >= 0 then
      if width > 0 && n % width == 0 then Ok((n / width, width)) else Err(ReshapeMismatch(n, height, width))
    else if height >= 0 && width < 0 then
      if height > 0 && n % height == 0 then Ok((height, n / height)) else Err(ReshapeMismatch(n, height, width))
    else Err(ReshapeMismatch(n, height, width))
  }

  /** Reshape dimensions are refused by name when one does not fit in 64 bits, height
      first; past that, both given dimensions must multiply to the element count, one
      negative dimension is inferred when the other divides the count, and two negative
      dimensions fail with the mismatch. */
  lemma ReshapeDimsSpec(n: nat, height: int, width: int)
    ensures ReshapeDims(n, height, width).Ok? ==> IsInt64(height) && IsInt64(width)
    ensures !IsInt64(height) ==> ReshapeDims(n, height, width) == Err(DimensionTooLarge(height))
    ensures IsInt64(height) && !IsInt64(width) ==> ReshapeDims(n, height, width) == Err(DimensionTooLarge(width))
    ensures IsInt64(height) && IsInt64(width) ==>
              var r := ReshapeDims(n, height, width);
              && (height >= 0 && width >= 0 ==> (r.Ok? <==> height * width == n))
              && (height < 0 && width >= 0 ==> (r.Ok? <==> width > 0 && n % width == 0) && (r.Ok? ==> r.value.1 == width))
              && (height >= 0 && width < 0 ==> (r.Ok? <==> height > 0 && n % height == 0) && (r.Ok? ==> r.value.0 == height))
              && (height < 0 && width < 0 ==> r.Err?)
              && (r.Err? ==> r.error == ReshapeMismatch(n, height, width))
  {
  }

  /** Dimensions that do not fit in 64 bits are refused before any inference. */
  lemma ReshapeDimsOutOfRange()
    ensures ReshapeDims(0, 0x8000_0000_0000_0000, 0) == Err(DimensionTooLarge(0x8000_0000_0000_0000))
    ensures ReshapeDims(3, -0x1_0000_0000_0000_0000_0000, 1) == Err(DimensionTooLarge(-0x1_0000_0000_0000_0000_0000))
    ensures ReshapeDims(3, 1, -0x8000_0000_0000_0001) == Err(DimensionTooLarge(-0x8000_0000_0000_0001))
  {
  }

  /** `flat.reshape((height, width))`: a view of the same samples, in the same order. */
  function Reshape(flat: seq<nat>, height: int, width: int): (r: Result<Frame>)
    ensures r.Ok? ==> WellShaped(r.value) && r.value.samples == flat
    ensures r.Ok? && height >= 0 && width >= 0 ==> r.value.height == height && r.value.width == width
  {
    var dims :- ReshapeDims(|flat|, height, width);
    Ok(Frame(dims.0, dims.1, flat))
  }

  /** A reshape fails exactly as its dimensions do: a dimension outside 64 bits by name,
      height first; otherwise with the mismatch, which for two given dimensions is exactly
      when their product is not the element count. */
  lemma ReshapeSpec(flat: seq<nat>, height: int, width: int)
    ensures !IsInt64(height) ==> Reshape(flat, height, width) == Err(DimensionTooLarge(height))
    ensures IsInt64(height) && !IsInt64(width) ==> Reshape(flat, height, width) == Err(DimensionTooLarge(width))
    ensures IsInt64(height) && IsInt64(width) && height >= 0 && width >= 0 ==>
              (Reshape(flat, height, width).Ok? <==> height * width == |flat|)
    ensures IsInt64(height) && IsInt64(width) && Reshape(flat, height, width).Err? ==>
              Reshape(flat, height, width).error == ReshapeMismatch(|flat|, height, width)
  {
    ReshapeDimsSpec(|flat|, height, width);
  }

  /** Where record i starts: `4100 + i * stride`. */
  function FramePosition(info: FramesInfo, i: nat): int
  {
    Header.DataOffset + i * info.stride
  }

  /** The element count asked of each read: `int(size / nbytes)`. */
  function ElementsPerFrame(info: FramesInfo): int
  {
    TruncatedQuotient(info.size, BytesPerElement(info.pixel))
  }

  /** Frame i: its read, reshaped to the region size. */
  function FrameAt(file: seq<byte>, info: FramesInfo, region: (int, int), i: nat): Result<Frame>
  {
    var flat :- ReadAt(file, FramePosition(info, i), ElementsPerFrame(info), BytesPerElement(info.pixel));
    Reshape(flat, region.0, region.1)
  }

  /** Frames 0 to n - 1, read in that order, stopping at the first that fails. */
  function FramesUpTo(file: seq<byte>, info: FramesInfo, region: (int, int), n: nat): Result<seq<Frame>>
  {
    if n == 0 then Ok([])
    else
      var earlier :- FramesUpTo(file, info, region, n - 1);
      var last :- FrameAt(file, info, region, n - 1);
      Ok(earlier + [last])
  }

  /** `range(count)` is empty for a negative count. */
  function FrameTotal(info: FramesInfo): nat
  {
    if info.count < 0 then 0 else info.count
  }

  /** Whether the frames can be stacked into one array. */
  predicate SameShape(frames: seq<Frame>)
  {
    forall i :: 0 <= i < |frames| ==> frames[i].height == frames[0].height && frames[i].width == frames[0].width
  }

  /** All the frames, then their stacking into one array. */
  function BuildFrames(file: seq<byte>, info: FramesInfo, region: (int, int)): Result<seq<Frame>>
  {
    var frames :- FramesUpTo(file, info, region, FrameTotal(info));
    if SameShape(frames) then Ok(frames) else Err(RaggedFrames)
  }

  /** The frames of the first n records that are read before the first one that fails, in
      order: what the frame list holds when the reading stops. */
  function FramesRead(file: seq<byte>, info: FramesInfo, region: (int, int), n: nat): (frames: seq<Frame>)
    ensures |frames| <= n
  {
    if n == 0 then []
    else
      var earlier := FramesRead(file, info, region, n - 1);
      if |earlier| < n - 1 then earlier
      else
        match FrameAt(file, info, region, n - 1)
        case Ok(last) => earlier + [last]
        case Err(_) => earlier
  }

  /** Once frame i cannot be read, no later record is read. */
  lemma {:induction false} FramesReadStays(file: seq<byte>, info: FramesInfo, region: (int, int), i: nat, n: nat)
    requires i < n && |FramesRead(file, info, region, i)| == i && FrameAt(file, info, region, i).Err?
    ensures FramesRead(file, info, region, n) == FramesRead(file, info, region, i)
  {
    if n > i + 1 {
      FramesReadStays(file, info, region, i, n - 1);
    }
  }

  /** The frames read are a list that can be built, and they stop short only at a frame that
      cannot be read, whose error is then that of the whole list. */
  lemma {:induction false} FramesReadStop(file: seq<byte>, info: FramesInfo, region: (int, int), n: nat)
    ensures var read := FramesRead(file, info, region, n);
            FramesUpTo(file, info, region, |read|) == Ok(read)
    ensures var read := FramesRead(file, info, region, n);
            |read| == n ==> FramesUpTo(file, info, region, n) == Ok(read)
    ensures var read := FramesRead(file, info, region, n);
            |read| < n ==> && FrameAt(file, info, region, |read|).Err?
                           && FramesUpTo(file, info, region, n) == Err(FrameAt(file, info, region, |read|).error)
  {
    if n > 0 {
      FramesReadStop(file, info, region, n - 1);
      var earlier := FramesRead(file, info, region, n - 1);
      if |earlier| < n - 1 {
        assert FramesRead(file, info, region, n) == earlier;
        FramesUpToStops(file, info, region, |earlier|, n);
      } else {
        match FrameAt(file, info, region, n - 1)
        case Ok(last) =>
          assert FramesRead(file, info, region, n) == earlier + [last];
          assert FramesUpTo(file, info, region, n) == Ok(earlier + [last]);
        case Err(e) =>
          assert FramesRead(file, info, region, n) == earlier;
          assert FramesUpTo(file, info, region, n) == Err(e);
      }
    }
  }

  /** What the frame reading leaves: all the frames when the list is built, otherwise those
      before the first unreadable frame, which is the error; or all of them when only their
      stacking fails. */
  lemma FramesReadBuilt(file: seq<byte>, info: FramesInfo, region: (int, int))
    ensures var read, built := FramesRead(file, info, region, FrameTotal(info)), BuildFrames(file, info, region);
            built.Ok? ==> built.value == read
    ensures var read, built := FramesRead(file, info, region, FrameTotal(info)), BuildFrames(file, info, region);
            |read| < FrameTotal(info) ==> built.Err? && FrameAt(file, info, region, |read|) == Err(built.error)
    ensures var read, built := FramesRead(file, info, region, FrameTotal(info)), BuildFrames(file, info, region);
            |read| == FrameTotal(info) && built.Err? ==> built.error == RaggedFrames && !SameShape(read)
  {
    FramesReadStop(file, info, region, FrameTotal(info));
  }

  /** The frame list can be built exactly when each of the first n frames can be read. */
  lemma {:induction false} FramesUpToOk(file: seq<byte>, info: FramesInfo, region: (int, int), n: nat)
    ensures FramesUpTo(file, info, region, n).Ok? <==> forall i :: 0 <= i < n ==> FrameAt(file, info, region, i).Ok?
  {
    if n > 0 {
      FramesUpToOk(file, info, region, n - 1);
    }
  }

  /** It then holds exactly those frames, in order. */
  lemma {:induction false} FramesUpToFrames(file: seq<byte>, info: FramesInfo, region: (int, int), n: nat)
    requires FramesUpTo(file, info, region, n).Ok?
    ensures var frames := FramesUpTo(file, info, region, n).value;
            |frames| == n && forall i :: 0 <= i < n ==> FrameAt(file, info, region, i) == Ok(frames[i])
  {
    if n > 0 {
      FramesUpToStep(file, info, region, n);
      FramesUpToFrames(file, info, region, n - 1);
      var earlier := FramesUpTo(file, info, region, n - 1).value;
      var frames := earlier + [FrameAt(file, info, region, n - 1).value];
      forall i | 0 <= i < n ensures FrameAt(file, info, region, i) == Ok(frames[i]) {
        if i < n - 1 {
          assert frames[i] == earlier[i];
        }
      }
    }
  }

  lemma FramesUpToStep(file: seq<byte>, info: FramesInfo, region: (int, int), n: nat)
    requires 0 < n && FramesUpTo(file, info, region, n).Ok?
    ensures FramesUpTo(file, info, region, n - 1).Ok? && FrameAt(file, info, region, n - 1).Ok?
    ensures FramesUpTo(file, info, region, n).value
            == FramesUpTo(file, info, region, n - 1).value + [FrameAt(file, info, region, n - 1).value]
  {
  }

  /** Otherwise it fails with the error of the first frame that cannot be read. */
  lemma {:induction false} FramesUpToErr(file: seq<byte>, info: FramesInfo, region: (int, int), n: nat)
    requires FramesUpTo(file, info, region, n).Err?
    ensures exists k :: 0 <= k < n && FrameAt(file, info, region, k) == Err(FramesUpTo(file, info, region, n).error)
                        && forall j :: 0 <= j < k ==> FrameAt(file, info, region, j).Ok?
  {
    var e := FramesUpTo(file, info, region, n).error;
    if FramesUpTo(file, info, region, n - 1).Err? {
      FramesUpToErr(file, info, region, n - 1);
    } else {
      FramesUpToFrames(file, info, region, n - 1);
      assert FrameAt(file, info, region, n - 1) == Err(e);
    }
  }

  /** A frame that cannot be read stops every longer frame list, with its error. */
  lemma {:induction false} FramesUpToStops(file: seq<byte>, info: FramesInfo, region: (int, int), i: nat, n: nat)
    requires i < n && FramesUpTo(file, info, region, i).Ok? && FrameAt(file, info, region, i).Err?
    ensures FramesUpTo(file, info, region, n) == Err(FrameAt(file, info, region, i).error)
  {
    if n > i + 1 {
      FramesUpToStops(file, info, region, i, n - 1);
    }
  }

  /** Frame i of the data is the reshape of the read of record i. */
  lemma FrameIsRead(file: seq<byte>, info: FramesInfo, region: (int, int), frames: seq<Frame>, i: nat)
    requires BuildFrames(file, info, region) == Ok(frames) && i < |frames|
    ensures var read := ReadAt(file, FramePosition(info, i), ElementsPerFrame(info), BytesPerElement(info.pixel));
            read.Ok? && Reshape(read.value, region.0, region.1) == Ok(frames[i])
  {
    FrameOfData(file, info, region, frames, i);
    FrameAtRead(file, info, region, i);
  }

  lemma FrameAtRead(file: seq<byte>, info: FramesInfo, region: (int, int), i: nat)
    requires FrameAt(file, info, region, i).Ok?
    ensures var read := ReadAt(file, FramePosition(info, i), ElementsPerFrame(info), BytesPerElement(info.pixel));
            read.Ok? && Reshape(read.value, region.0, region.1) == FrameAt(file, info, region, i)
  {
  }

  /** Sample (r, c) of a reshaped read is element `r * width + c` of the window, which lies
      wholly inside the file, and among the elements asked for unless the count was
      negative. */
  lemma ReadSample(file: seq<byte>, pos: int, count: int, width: nat, region: (int, int), f: Frame, r: nat, c: nat)
    requires 0 < width
    requires ReadAt(file, pos, count, width).Ok?
    requires Reshape(ReadAt(file, pos, count, width).value, region.0, region.1) == Ok(f)
    requires r < f.height && c < f.width
    ensures WellShaped(f)
    ensures var k := r * f.width + c;
            && 0 <= pos && pos + k * width + width <= |file|
            && (count >= 0 ==> k < count)
            && Sample(f, r, c) == WordAt(file, pos, width, k)
  {
    var read := ReadAt(file, pos, count, width).value;
    ReshapedSample(read, region.0, region.1, f, r, c);
    var k := r * f.width + c;
    ReadElement(file, pos, count, width, read, k);
  }

  lemma ReadElement(file: seq<byte>, pos: int, count: int, width: nat, read: seq<nat>, k: nat)
    requires 0 < width
    requires ReadAt(file, pos, count, width) == Ok(read) && k < |read|
    ensures 0 <= pos && pos + k * width + width <= |file|
    ensures count >= 0 ==> k < count
    ensures read[k] == WordAt(file, pos, width, k)
  {
    ReadAtWindow(file, pos, count, width, k);
  }

  /** Sample (r, c) of a reshape is flat element `r * width + c`. */
  lemma ReshapedSample(flat: seq<nat>, height: int, width: int, f: Frame, r: nat, c: nat)
    requires Reshape(flat, height, width) == Ok(f)
    requires r < f.height && c < f.width
    ensures WellShaped(f) && r * f.width + c < |flat| && Sample(f, r, c) == flat[r * f.width + c]
  {
    RowMajorBound(f.height, f.width, r, c);
  }

  /** Every frame of the data is the reshape of its own read: sample (r, c) of frame i is
      element `r * width + c` of the window at `4100 + i * stride`, read from the file,
      and that element is among the `int(size / nbytes)` the read asks for when that count
      is not negative (a negative count reads to the end of file). */
  lemma FrameSample(file: seq<byte>, info: FramesInfo, region: (int, int), frames: seq<Frame>, i: nat, r: nat, c: nat)
    requires BuildFrames(file, info, region) == Ok(frames)
    requires i < |frames| && r < frames[i].height && c < frames[i].width
    ensures WellShaped(frames[i])
    ensures var k, p, b := r * frames[i].width + c, FramePosition(info, i), BytesPerElement(info.pixel);
            && 0 <= p && p + k * b + b <= |file|
            && (ElementsPerFrame(info) >= 0 ==> k < ElementsPerFrame(info))
            && Sample(frames[i], r, c) == WordAt(file, p, b, k)
  {
    FrameOfData(file, info, region, frames, i);
    FrameAtSample(file, info, region, frames[i], i, r, c);
  }

  /** Frame i of the data is the frame read from record i. */
  lemma FrameOfData(file: seq<byte>, info: FramesInfo, region: (int, int), frames: seq<Frame>, i: nat)
    requires BuildFrames(file, info, region) == Ok(frames) && i < |frames|
    ensures FrameAt(file, info, region, i) == Ok(frames[i])
  {
    assert FramesUpTo(file, info, region, FrameTotal(info)) == Ok(frames);
    FramesUpToFrames(file, info, region, FrameTotal(info));
  }

  /** Sample (r, c) of frame i, once that frame is read. */
  lemma FrameAtSample(file: seq<byte>, info: FramesInfo, region: (int, int), f: Frame, i: nat, r: nat, c: nat)
    requires FrameAt(file, info, region, i) == Ok(f)
    requires r < f.height && c < f.width
    ensures WellShaped(f)
    ensures var k, p, b := r * f.width + c, FramePosition(info, i), BytesPerElement(info.pixel);
            && 0 <= p && p + k * b + b <= |file|
            && (ElementsPerFrame(info) >= 0 ==> k < ElementsPerFrame(info))
            && Sample(f, r, c) == WordAt(file, p, b, k)
  {
    FrameAtRead(file, info, region, i);
    ReadSample(file, FramePosition(info, i), ElementsPerFrame(info), BytesPerElement(info.pixel), region, f, r, c);
  }

  /** The data holds one frame per record, each of the declared region size when both of its
      dimensions are given. */
  lemma BuildFramesShape(file: seq<byte>, info: FramesInfo, region: (int, int))
    requires BuildFrames(file, info, region).Ok?
    ensures |BuildFrames(file, info, region).value| == FrameTotal(info)
    ensures SameShape(BuildFrames(file, info, region).value)
    ensures region.0 >= 0 && region.1 >= 0 ==>
              forall i :: 0 <= i < FrameTotal(info) ==>
                var f := BuildFrames(file, info, region).value[i];
                f.height == region.0 && f.width == region.1 && WellShaped(f)
  {
    FramesUpToFrames(file, info, region, FrameTotal(info));
  }

  /** A frame block asking for all remaining elements (a negative size) of a frame that starts
      a whole element past the end of file cannot be read: with `size="-2"` in 16-bit pixels,
      one record and any file of at most 4098 bytes, the decode stops at the first frame. */
  lemma ReadPastEndFails(file: seq<byte>, region: (int, int))
    requires |file| <= 4098
    ensures BuildFrames(file, FramesInfo(1, Unsigned16, -2, 0), region) == Err(NegativeDimension(4100))
  {
    var info := FramesInfo(1, Unsigned16, -2, 0);
    assert ElementsPerFrame(info) == -1;
    assert FrameAt(file, info, region, 0) == Err(NegativeDimension(4100));
    assert FramesUpTo(file, info, region, 1) == Err(NegativeDimension(4100));
  }

  /** A frame read that stops short at the end of file is no error when the elements it does
      return still fit the region: with `size="8"` in 16-bit pixels, one record and a file of
      4104 bytes, the read returns two elements of the four asked for, and a region `(1, 2)`
      or `(1, -1)` takes them as one frame of two samples. */
  lemma ShortFrameDecodes(file: seq<byte>, region: (int, int))
    requires |file| == 4104
    requires region == (1, 2) || region == (1, -1)
    ensures var info := FramesInfo(1, Unsigned16, 8, 0);
            && ElementsPerFrame(info) == 4
            && BuildFrames(file, info, region) == Ok([Frame(1, 2, [WordAt(file, 4100, 2, 0), WordAt(file, 4100, 2, 1)])])
  {
    var info := FramesInfo(1, Unsigned16, 8, 0);
    assert ElementsPerFrame(info) == 4;
    var read := ReadAt(file, 4100, 4, 2);
    assert IsInt64(4) && !TooBig(4, 2) && Available(file, 4100, 2) == 2;
    assert read.Ok? && |read.value| == 2;
    assert read.value == [WordAt(file, 4100, 2, 0), WordAt(file, 4100, 2, 1)];
    var f := Frame(1, 2, read.value);
    assert FrameAt(file, info, region, 0) == Ok(f);
    assert FramesUpTo(file, info, region, 0) == Ok([]) && [] + [f] == [f];
  }

  /** The frames fail exactly as the first unreadable frame does, or as the stacking does. */
  lemma BuildFramesFailure(file: seq<byte>, info: FramesInfo, region: (int, int))
    requires BuildFrames(file, info, region).Err?
    ensures var e := BuildFrames(file, info, region).error;
            || (e == RaggedFrames && FramesUpTo(file, info, region, FrameTotal(info)).Ok?)
            || exists k :: 0 <= k < FrameTotal(info) && FrameAt(file, info, region, k) == Err(e)
                          && forall j :: 0 <= j < k ==> FrameAt(file, info, region, j).Ok?
  {
    if FramesUpTo(file, info, region, FrameTotal(info)).Err? {
      FramesUpToErr(file, info, region, FrameTotal(info));
    }
  }
}
