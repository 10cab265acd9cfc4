/** The file as a byte sequence, little-endian words, and the positional typed read
    (seek to a position, then read a number of fixed-width elements). */
module Bytes {
  import opened Results

  /** One byte of the file. */
  type byte = x: int | 0 <= x < 256

  /** A seek position must fit in a signed 64-bit offset. */
  const MaxSeek: int := 0x8000_0000_0000_0000

  /** 256 to the power k: one more than the largest k-byte unsigned value. */
  function Pow256(k: nat): (p: nat)
    ensures p >= 1
  {
    if k == 0 then 1 else 256 * Pow256(k - 1)
  }

  /** The unsigned value of `bs`, least significant byte first. */
  function LittleEndian(bs: seq<byte>): nat
  {
    if bs == [] then 0 else bs[0] + 256 * LittleEndian(bs[1..])
  }

  lemma {:induction false} LittleEndianBound(bs: seq<byte>)
    ensures LittleEndian(bs) < Pow256(|bs|)
  {
    if bs != [] {
      LittleEndianBound(bs[1..]);
    }
  }

  /** The k bytes that encode `n` least significant byte first (`n` modulo `256^k`). */
  function ToLittleEndian(n: nat, k: nat): (bs: seq<byte>)
    ensures |bs| == k
  {
    if k == 0 then [] else [n % 256] + ToLittleEndian(n / 256, k - 1)
  }

  lemma {:induction false} DecodeEncode(n: nat, k: nat)
    requires n < Pow256(k)
    ensures LittleEndian(ToLittleEndian(n, k)) == n
  {
    if k > 0 {
      var bs := ToLittleEndian(n, k);
      assert bs[1..] == ToLittleEndian(n / 256, k - 1);
      DecodeEncode(n / 256, k - 1);
    }
  }

  lemma {:induction false} EncodeDecode(bs: seq<byte>)
    ensures LittleEndian(bs) < Pow256(|bs|)
    ensures ToLittleEndian(LittleEndian(bs), |bs|) == bs
  {
    LittleEndianBound(bs);
    if bs != [] {
      EncodeDecode(bs[1..]);
      var n := LittleEndian(bs);
      assert n % 256 == bs[0] && n / 256 == LittleEndian(bs[1..]);
    }
  }

  /** What `read()` after a seek to `pos` returns: every byte from `pos` on, nothing past the end. */
  function Remaining(file: seq<byte>, pos: nat): (rest: seq<byte>)
    ensures pos <= |file| ==> rest == file[pos..]
    ensures pos >= |file| ==> rest == []
  {
    if pos <= |file| then file[pos..] else []
  }

  /** How many whole `width`-byte elements the file holds from `pos` on. */
  function Available(file: seq<byte>, pos: nat, width: nat): nat
    requires 0 < width
  {
    |Remaining(file, pos)| / width
  }

  lemma MulMonotone(a: nat, b: nat, w: nat)
    requires a <= b
    ensures a * w <= b * w
  {
  }

  lemma MulPred(k: nat, w: nat)
    requires 0 < k
    ensures k * w == (k - 1) * w + w
  {
  }

  /** The available elements fit in the rest of the file, and one more would not. */
  lemma AvailableFits(file: seq<byte>, pos: nat, width: nat)
    requires 0 < width
    ensures Available(file, pos, width) * width <= |Remaining(file, pos)| < (Available(file, pos, width) + 1) * width
  {
    var n, rest := Available(file, pos, width), |Remaining(file, pos)|;
    assert rest == n * width + rest % width;
    assert (n + 1) * width == n * width + width;
  }

  /** Element k of the window at `pos`: the little-endian value of its own `width` bytes, or
      0 where the file holds no whole element there. */
  function WordAt(file: seq<byte>, pos: int, width: nat, k: int): nat
  {
    if 0 <= pos && 0 <= k && pos + k * width + width <= |file| then LittleEndian(file[pos + k * width .. pos + k * width + width]) else 0
  }

  /** Whether an integer fits in a signed 64-bit size, as element counts and array
      dimensions must. */
  predicate IsInt64(x: int)
  {
    -MaxSeek <= x < MaxSeek
  }

  /** A read of the elements left (a negative count) counts them by the bytes from `pos` to
      the end of file, divided by `width` with truncation toward zero; from a whole element
      past the end of file that count is negative, and the array cannot be made. */
  predicate PastEndByElement(file: seq<byte>, pos: int, count: int, width: nat)
  {
    count < 0 && pos >= |file| + width
  }

  /** A count of elements whose byte size does not fit in a signed 64-bit size. */
  predicate TooBig(count: int, width: nat)
  {
    count >= 0 && count * width >= MaxSeek
  }

  /** Seek to `pos`, then read up to `count` elements of `width` bytes each (all remaining
      whole elements when `count` is negative): the read returns fewer elements, not an
      error, when the file ends first. The seek is checked first, then the count's
      conversion, then the size of the array. */
  function ReadAt(file: seq<byte>, pos: int, count: int, width: nat): (r: Result<seq<nat>>)
    requires 0 < width
    ensures r.Ok? && 0 <= count ==> |r.value| <= count
  {
    if !(0 <= pos < MaxSeek) then Err(BadSeek(pos))
    else if !IsInt64(count) then Err(CountOverflow(count))
    else if PastEndByElement(file, pos, count, width) then Err(NegativeDimension(pos))
    else if TooBig(count, width) then Err(ArrayTooBig(count))
    else
      var avail := Available(file, pos, width);
      var n := if count < 0 || count > avail then avail else count;
      Ok(seq(n, k => WordAt(file, pos, width, k)))
  }

  /** A read fails exactly when, in this order, the seek, the count's conversion, the count
      of elements left or the size of the array fails; a negative count from the end of file
      or past it reads nothing. */
  lemma ReadAtSpec(file: seq<byte>, pos: int, count: int, width: nat)
    requires 0 < width
    ensures var r := ReadAt(file, pos, count, width);
            r.Err? <==> !(0 <= pos < MaxSeek) || !IsInt64(count) || PastEndByElement(file, pos, count, width) || TooBig(count, width)
    ensures !(0 <= pos < MaxSeek) ==> ReadAt(file, pos, count, width) == Err(BadSeek(pos))
    ensures 0 <= pos < MaxSeek && !IsInt64(count) ==> ReadAt(file, pos, count, width) == Err(CountOverflow(count))
    ensures 0 <= pos < MaxSeek && IsInt64(count) && PastEndByElement(file, pos, count, width) ==>
              ReadAt(file, pos, count, width) == Err(NegativeDimension(pos))
    ensures 0 <= pos < MaxSeek && IsInt64(count) && TooBig(count, width) ==> ReadAt(file, pos, count, width) == Err(ArrayTooBig(count))
    ensures var r := ReadAt(file, pos, count, width);
            r.Ok? && count < 0 && pos >= |file| ==> r.value == []
  {
  }

  /** Element k of a read is the little-endian value of its own `width` bytes of the window. */
  lemma ReadAtWindow(file: seq<byte>, pos: int, count: int, width: nat, k: nat)
    requires 0 < width
    requires ReadAt(file, pos, count, width).Ok?
    requires k < |ReadAt(file, pos, count, width).value|
    ensures 0 <= pos && pos + k * width + width <= |file|
    ensures ReadAt(file, pos, count, width).value[k] == WordAt(file, pos, width, k)
    ensures ReadAt(file, pos, count, width).value[k]
            == LittleEndian(file[pos + k * width .. pos + k * width + width])
  {
    AvailableFits(file, pos, width);
    MulMonotone(k + 1, Available(file, pos, width), width);
    assert (k + 1) * width == k * width + width;
  }

  /** A read returns exactly `count` elements when the window fits in the file, and stops
      short only at the end of the file. */
  lemma ReadAtCount(file: seq<byte>, pos: int, count: int, width: nat)
    requires 0 < width
    requires ReadAt(file, pos, count, width).Ok?
    ensures 0 <= count && pos + count * width <= |file| ==> |ReadAt(file, pos, count, width).value| == count
    ensures var n := |ReadAt(file, pos, count, width).value|;
            n == count || pos + (n + 1) * width > |file|
  {
    var avail := Available(file, pos, width);
    AvailableFits(file, pos, width);
    if 0 <= count && pos + count * width <= |file| && count > avail {
      MulMonotone(avail + 1, count, width);
    }
  }

  /** The bytes of `words`, each written as `width` little-endian bytes. */
  function EncodeWords(words: seq<nat>, width: nat): (bs: seq<byte>)
    ensures |bs| == |words| * width
  {
    if words == [] then [] else ToLittleEndian(words[0], width) + EncodeWords(words[1..], width)
  }

  /** A slice that lies wholly within the middle part of a concatenation. */
  lemma SliceWithin(a: seq<byte>, b: seq<byte>, c: seq<byte>, i: nat, j: nat)
    requires i <= j <= |b|
    ensures (a + b + c)[|a| + i .. |a| + j] == b[i..j]
  {
    assert forall t :: i <= t < j ==> (a + b + c)[|a| + t] == b[t];
  }

  /** Word k of the encoding sits at `k * width`. */
  lemma {:induction false} EncodedWord(words: seq<nat>, width: nat, k: nat)
    requires forall i :: 0 <= i < |words| ==> words[i] < Pow256(width)
    requires k < |words|
    ensures k * width + width <= |EncodeWords(words, width)|
    ensures LittleEndian(EncodeWords(words, width)[k * width .. k * width + width]) == words[k]
  {
    DecodeEncode(words[k], width);
    EncodedSlice(words, width, k);
  }

  lemma {:induction false} EncodedSlice(words: seq<nat>, width: nat, k: nat)
    requires forall i :: 0 <= i < |words| ==> words[i] < Pow256(width)
    requires k < |words|
    ensures k * width + width <= |EncodeWords(words, width)|
    ensures EncodeWords(words, width)[k * width .. k * width + width] == ToLittleEndian(words[k], width)
  {
    var head, tail := ToLittleEndian(words[0], width), EncodeWords(words[1..], width);
    assert EncodeWords(words, width) == head + tail;
    if k == 0 {
      assert k * width == 0;
      SliceAfter([], head + tail, 0, width, 0, width);
    } else {
      EncodedSlice(words[1..], width, k - 1);
      SliceOfTail(head, tail, width, k, ToLittleEndian(words[k], width));
    }
  }

  /** Past a first part of `width` bytes, the slice at `k * width` is the second part's
      slice at `(k - 1) * width`. */
  lemma SliceOfTail(head: seq<byte>, tail: seq<byte>, width: nat, k: nat, v: seq<byte>)
    requires |head| == width && 0 < k
    requires (k - 1) * width + width <= |tail| && tail[(k - 1) * width .. (k - 1) * width + width] == v
    ensures k * width + width <= |head + tail| && (head + tail)[k * width .. k * width + width] == v
  {
    MulMonotone(0, k - 1, width);
    MulPred(k, width);
    var off: nat := (k - 1) * width;
    SliceAfter(head, tail, k * width, k * width + width, off, off + width);
  }

  /** A slice past the first part of a concatenation is a slice of the second. */
  lemma SliceAfter(a: seq<byte>, b: seq<byte>, lo: int, hi: int, i: nat, j: nat)
    requires lo == |a| + i && hi == |a| + j && i <= j <= |b|
    ensures (a + b)[lo..hi] == b[i..j]
  {
    assert forall t :: i <= t < j ==> (a + b)[|a| + t] == b[t];
  }

  /** A window that fits in the file is read whole, element by element. */
  lemma ReadAtFull(file: seq<byte>, pos: int, count: nat, width: nat)
    requires 0 < width && 0 <= pos < MaxSeek && count * width < MaxSeek && pos + count * width <= |file|
    ensures ReadAt(file, pos, count, width).Ok?
    ensures var read := ReadAt(file, pos, count, width).value;
            |read| == count && forall k :: 0 <= k < count ==> read[k] == WordAt(file, pos, width, k)
  {
    var avail := Available(file, pos, width);
    AvailableFits(file, pos, width);
    if count > avail {
      MulMonotone(avail + 1, count, width);
    }
  }

  /** Round trip: reading back `|words|` elements from where they were written yields them. */
  lemma ReadAtEncoded(prefix: seq<byte>, words: seq<nat>, width: nat, suffix: seq<byte>)
    requires 0 < width && |prefix| < MaxSeek && |words| * width < MaxSeek
    requires forall i :: 0 <= i < |words| ==> words[i] < Pow256(width)
    ensures ReadAt(prefix + EncodeWords(words, width) + suffix, |prefix|, |words|, width) == Ok(words)
  {
    var file := prefix + EncodeWords(words, width) + suffix;
    forall k | 0 <= k < |words|
      ensures WordAt(file, |prefix|, width, k) == words[k]
    {
      EncodedWordAt(prefix, words, width, suffix, k);
    }
    ReadAtWords(file, |prefix|, words, width);
  }

  /** A window that fits in the file reads back the given words when each of its
      elements is the corresponding word. */
  lemma ReadAtWords(file: seq<byte>, pos: int, words: seq<nat>, width: nat)
    requires 0 < width && 0 <= pos < MaxSeek && |words| * width < MaxSeek && pos + |words| * width <= |file|
    requires forall k :: 0 <= k < |words| ==> WordAt(file, pos, width, k) == words[k]
    ensures ReadAt(file, pos, |words|, width) == Ok(words)
  {
    ReadAtFull(file, pos, |words|, width);
    var read := ReadAt(file, pos, |words|, width).value;
    assert read == words;
  }

  /** One element of the round trip. */
  lemma EncodedWordAt(prefix: seq<byte>, words: seq<nat>, width: nat, suffix: seq<byte>, k: nat)
    requires forall i :: 0 <= i < |words| ==> words[i] < Pow256(width)
    requires k < |words|
    ensures WordAt(prefix + EncodeWords(words, width) + suffix, |prefix|, width, k) == words[k]
  {
    EncodedWord(words, width, k);
    WordAtWithin(prefix, EncodeWords(words, width), suffix, width, k, words[k]);
  }

  /** The element at index k of a window that starts where the middle part `b` does is the
      word that `b` holds at `k * width`. */
  lemma WordAtWithin(a: seq<byte>, b: seq<byte>, c: seq<byte>, width: nat, k: nat, w: nat)
    requires k * width + width <= |b| && LittleEndian(b[k * width .. k * width + width]) == w
    ensures WordAt(a + b + c, |a|, width, k) == w
  {
    MulMonotone(0, k, width);
    SliceWithin(a, b, c, k * width, k * width + width);
  }
}
