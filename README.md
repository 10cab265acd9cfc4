# SPE 3 decoder, modelled in Dafny

This project models the decoder of Princeton Instruments SPE 3 files, the class `SPE3map`
in `princeton3/SPE3read.py`. An SPE 3 file starts with a fixed 4100-byte header. Its frame
records follow from byte 4100, and an XML footer closes the file. The decoder:

- reads the format version, a float32 at byte 1992, and refuses anything below 3;
- reads the unsigned 64-bit footer offset stored at byte 678, and parses the text from that
  offset to the end of file as XML;
- takes from the footer the wavelength calibration, the frame block (its type, count, pixel
  format, size and stride), the region block (its type, height and width) and the exposure
  time;
- reads each frame record `i` at `4100 + i * stride` as `int(size / nbytes)` typed samples,
  reshapes it to `(height, width)`, and stacks the frames in order.

The model has two layers.

- **Reference functions.** `Spe3.Decode` states the whole decode as a function of the file's
  bytes. Each step is a function of its own: `Header.ReadVersion`, `Header.ReadFooter`,
  `Footer.WavelengthsOf`, `Footer.FramesInfoOf`, `Footer.RegionSizeOf`, `Footer.ExposureTimeOf`
  and `Frames.BuildFrames`.
- **The decoder object.** `Spe3.Spe3Map` is a class with one field per attribute of
  `SPE3map`. Its methods perform the same steps in the source's order and store each value
  as soon as it is read. The attributes as a whole are the value `Spe3.Attributes`, and each
  step is also a function (`Spe3.VersionRun`, `Spe3.FramesInfoRun`, …, `Spe3.ReadDataRun`)
  from the attributes before it to its outcome and the attributes after it, failures
  included. Each method's contract is that its outcome and new attributes are those of its
  step function on the old attributes. Lemmas then tie the step functions to the reference
  functions: `Spe3.ReadDataRunDecode` for the outcome and the attributes of a success, and
  `Spe3.ReadDataRunSteps`, `Spe3.FooterValuesRunSteps` and `Spe3.FramesInfoRunSpec` for the
  attributes each failure leaves set. The frame loop `AppendFrames` carries invariants that
  tie the list built so far to `Frames.FramesRead`.

Modules:

| module | file |
|---|---|
| `Results` | `results.dfy` |
| `Bytes` | `bytes.dfy` |
| `PyText` | `pytext.dfy` |
| `Float32` | `float32.dfy` |
| `XmlTree` | `xmltree.dfy` |
| `Header` | `header.dfy` |
| `Footer` | `footer.dfy` |
| `Frames` | `frames.dfy` |
| `Spe3` | `decoder.dfy` |

Each exception the source can raise on its way is a constructor of `Results.Error`, with two
exceptions named under "Left out": a `MemoryError` from a read whose array fits in 64 bits
but cannot be allocated, and the ordering of the `OverflowError` of a float division. The
`ValueError`s of `numpy.fromfile` and `reshape` are `ArrayTooBig`, `NegativeDimension`,
`DimensionTooLarge` and `ReshapeMismatch`. The last one covers both a size mismatch and
numpy's refusal of two unknown (negative) dimensions, which has no constructor of its own.
A failing step returns its error rather than aborting.

Where this model follows the code rather than the prose description of the format:

- A read that reaches the end of file is not an error. `numpy.fromfile` then returns fewer
  elements. For the version and the footer offset the failure shows later, as an
  `IndexError` on `[0]` (`ShortRead`). A short frame read fails only when the elements it
  returns no longer fit the region (a reshape mismatch). One that still fits is decoded as
  a smaller frame, with no error. This happens with an inferred dimension, or with a `size`
  larger than height · width · nbytes (`Frames.ShortFrameDecodes`).
- A negative element count (`int(size / nbytes) < 0`) reads every remaining element, as
  `numpy.fromfile` does. numpy counts them as the bytes from the position to the end of
  file divided by the element size, truncated toward zero: from less than one element past
  the end of file that is no element, and from a whole element or more past it the count is
  negative and `numpy.fromfile` raises `ValueError` (`NegativeDimension`).
- A read whose byte size (`count * nbytes`) does not fit in a signed 64-bit size raises
  `ValueError` in `numpy.fromfile` before any allocation (`ArrayTooBig`).
- `reshape` converts each dimension to a signed 64-bit size first, height before width, and
  refuses one outside that range with `ValueError` (`DimensionTooLarge`).
- `reshape` infers one negative dimension from the element count, as numpy does. Two
  negative dimensions always fail.
- Frames of unequal shape cannot be stacked (`RaggedFrames`). This can only happen when a
  dimension is inferred and the reads give different element counts: a read that stops
  short at the end of file, or a negative count, which makes every read run to the end of
  file from its own offset. The model follows numpy 1.24 and later, where `pylab.array`
  raises on such a list. Older numpy raises too when the frames share their height and
  differ in width; it builds an array of objects only when the heights differ.
- The environment modelled is numpy 1.24 or later on a Python 3 release whose `int()` has
  no digit limit (Python 3.8.0 to 3.8.13). numpy 1.24 needs Python 3.8 or later, so the
  Python 3.6 named in the source's header (line 10) cannot run it.
- The stream is closed only after a successful decode. An exception in `readData` leaves it
  open.
- On a failure part way through the frames, `data` keeps the frames read before it.
- In the dictionary view that `xmltodict` gives, an element with neither attributes nor
  children is a plain string. Asking it for `#text` therefore fails. A repeated child tag
  gives a list, and indexing that list with a tag fails.

## Model

| member | source | states |
|---|---|---|
| Bytes.ReadAt | princeton3/SPE3read.py:91-104 | a successful read never returns more elements than the non-negative count asked for |
| Bytes.ReadAtSpec | princeton3/SPE3read.py:91-104 | a read fails exactly when, in this order, the seek position is outside 0 .. 2^63 - 1 (BadSeek), the count is outside the signed 64-bit range (CountOverflow), a negative count starts a whole element or more past the end of file (NegativeDimension), or the byte size of the count does not fit in 64 bits (ArrayTooBig), each with that error; a negative count from the end of file or past it reads nothing |
| Bytes.ReadAtWindow | princeton3/SPE3read.py:102-104 | element k of a read comes from its own `width` bytes at `pos + k * width`, which lie inside the file, read little-endian |
| Bytes.ReadAtCount | princeton3/SPE3read.py:102-104 | a read returns exactly `count` elements when the window fits in the file, and stops short only where one more element would pass the end of file |
| Bytes.ReadAtFull | princeton3/SPE3read.py:102-104 | a window that fits in the file is read whole, each element from its own bytes |
| Bytes.ReadAtEncoded | princeton3/SPE3read.py:102-104 | round trip: words written little-endian at an offset are read back unchanged from that offset |
| Bytes.DecodeEncode | princeton3/SPE3read.py:104 | the little-endian reading of the k-byte encoding of any n below 256^k is n |
| Bytes.EncodeDecode | princeton3/SPE3read.py:104 | the k-byte encoding of the value read from k bytes gives those bytes back, and that value is below 256^k |
| Bytes.LittleEndianBound | princeton3/SPE3read.py:104 | the value of k bytes read as an unsigned integer is below 256^k |
| Header.ReadVersion | princeton3/SPE3read.py:106-108 | the version is found exactly when the file holds the 4 bytes at 1992, and is their little-endian float32 pattern; otherwise `[0]` fails with ShortRead(1992) |
| Header.ReadFooterOffset | princeton3/SPE3read.py:112 | the footer offset is found exactly when the file holds the 8 bytes at 678, and is their little-endian unsigned value; otherwise ShortRead(678) |
| Header.ReadFooter | princeton3/SPE3read.py:110-114 | the footer is found exactly when the offset is read, is a valid seek, and the parser accepts every byte from that offset to the end of file; a parse gives what the parser returns; a file too short for the offset fails with ShortRead(678), an offset of 2^63 or more fails the seek, and a text the parser rejects is MalformedFooter |
| Float32.AtLeastThreeIsBitRange | princeton3/SPE3read.py:71 | the float32 comparison `version >= 3` (false for every NaN, true for +inf) holds exactly for the bit patterns 0x40400000 to 0x7F800000 |
| PyText.StripTrims | princeton3/SPE3read.py:125 | the `str.strip` that `int()` and `float()` apply leaves no whitespace at either end, and removes only whitespace runs from the two ends |
| PyText.ParseShowInt | princeton3/SPE3read.py:125 | round trip: `int(str(n)) == n` for every integer n, on a Python whose `int()` has no digit limit; `PyText.ParseInt` is the function this contract is about |
| PyText.IntIsFloat | princeton3/SPE3read.py:119 | contract of `PyText.IsFloatLiteral`: every text `int()` accepts is accepted by `float()` too |
| PyText.ShowIntIsFloat | princeton3/SPE3read.py:119 | `float(str(n))` succeeds for every integer n |
| PyText.FloatLiteralPadded | princeton3/SPE3read.py:119 | contract of `PyText.IsFloatLiteral`: `float()` accepts a text exactly when it accepts it with one more whitespace character at either end |
| PyText.Split | princeton3/SPE3read.py:119 | `str.split` always gives at least one field |
| PyText.SplitFields | princeton3/SPE3read.py:119 | no field of a split holds the separator |
| PyText.JoinSplit | princeton3/SPE3read.py:119 | joining the fields of a split with the separator gives the text back |
| PyText.SplitJoin | princeton3/SPE3read.py:119 | splitting the join of fields that hold no separator gives the fields back |
| PyText.SplitCount | princeton3/SPE3read.py:119 | a split gives one more field than the text has separators |
| XmlTree.ValueOf | princeton3/SPE3read.py:114 | in the dictionary view an element is a dictionary exactly when it has attributes or children, and otherwise a string exactly when it has text |
| XmlTree.TaggedMembers | princeton3/SPE3read.py:118 | the entries a tag indexes are exactly the children that carry the tag |
| XmlTree.Index | princeton3/SPE3read.py:118 | `v[tag]` succeeds exactly on a dictionary with such a child; it gives that child's value for a single child and a list for a repeated tag; it fails with a missing key on a dictionary and a type error otherwise |
| XmlTree.AttributeValueFound | princeton3/SPE3read.py:124 | an attribute is found exactly when one of that name is present, and its value is that of the first one |
| XmlTree.LookupAppend | princeton3/SPE3read.py:138-140 | looking up `p + q` is looking up `p`, then `q` from there |
| XmlTree.LookupIsDescend | princeton3/SPE3read.py:118 | a key path reaches a dictionary exactly when the element tree has a path of unique children to an element with attributes or children, and it is that element |
| XmlTree.AttrAtElement | princeton3/SPE3read.py:124-133 | `['@name']` at a path succeeds exactly when that path of unique children ends at an element carrying the attribute, and gives its value |
| XmlTree.TextAtElement | princeton3/SPE3read.py:146 | `['#text']` at a path succeeds exactly when that path of unique children ends at an element with text and with attributes or children, and gives that text |
| Footer.PixelFormat | princeton3/SPE3read.py:126-131 | the table knows exactly the four names; each gives 2 bytes per sample for MonochromeUnsigned16 and 4 otherwise, and both float names give the float type |
| Footer.FramePixelType | princeton3/SPE3read.py:126-131 | the pixel type is found exactly when the attribute is present and named in the table, and is the table's entry for it; a failed lookup is its error, and an unknown name is UnsupportedPixelFormat of that name |
| Footer.FramesInfoOfSpec | princeton3/SPE3read.py:121-133 | contract of `Footer.FramesInfoOf`: the frame layout is found exactly when the block's type is `Frame` and count, pixel format, size and stride are all valid; its values are those attributes, through `int()` and the table; a block of another type is refused by name |
| Footer.FramesInfoSteps | princeton3/SPE3read.py:124-133 | type check, count, pixel format, size, stride: the error is that of the first step that fails |
| Footer.RegionSizeOfSpec | princeton3/SPE3read.py:135-141 | contract of `Footer.RegionSizeOf`: the region size is found exactly when the nested block's type is `Region` and height and width are integers; it is `(height, width)`, height first; a failed type lookup is its error, a block of another type is refused by name, and then the height's error comes before the width's |
| Footer.IntAttrSpec | princeton3/SPE3read.py:125 | contract of `PyText.ParseInt`: `int(['@name'])` succeeds exactly when the attribute is found and `int()` accepts its text, and gives that integer; a failed lookup is its error, and a text `int()` rejects is NotAnInteger of that text |
| Footer.RegionUnderFrameBlock | princeton3/SPE3read.py:138-140 | the region block is reached through the frame block: the frame block first, then its only `DataBlock` child |
| Footer.FirstNonFloat | princeton3/SPE3read.py:119 | there is no index exactly when every field from `start` on passes `float()`; otherwise it is the first field that does not |
| Footer.WavelengthFieldsSpec | princeton3/SPE3read.py:119 | on success the fields are one more than the commas of the text, join back into it, hold no comma and all pass `float()`; on failure the error names the first field that `float()` rejects |
| Footer.WavelengthsSpec | princeton3/SPE3read.py:116-119 | contract of `Footer.WavelengthsOf`: the wavelengths are found exactly when the `#text` at the calibration path is found and all its fields are numbers, and they are those fields |
| Footer.ExposureTimeOf | princeton3/SPE3read.py:143-146 | the exposure time is found exactly when the `#text` at its path is found and `float()` accepts it, and it is that text; a failed lookup is its error, and a text `float()` rejects is NotAFloat of that text |
| Frames.TruncatedQuotient | princeton3/SPE3read.py:152 | `int(a / b)` truncates toward zero: for a >= 0 it is the largest q with q * b <= a, and for a < 0 it is the smallest q with q * b >= a |
| Frames.ReshapeDims | princeton3/SPE3read.py:153 | the dimensions a reshape settles on multiply to the element count, and are the region itself when both are given |
| Frames.ReshapeDimsSpec | princeton3/SPE3read.py:153 | a dimension outside the signed 64-bit range is refused first, height before width; past that, with both dimensions given they must match the count, one negative dimension is inferred exactly when the other is positive and divides the count, two negative dimensions fail, and every other failure is the mismatch |
| Frames.ReshapeDimsOutOfRange | princeton3/SPE3read.py:153 | dimensions of 2^63, -2^80 and -2^63 - 1 are refused by name, whatever the element count |
| Frames.Reshape | princeton3/SPE3read.py:153 | a reshaped frame keeps the read's samples in their order (row-major) and has exactly the region size when both dimensions are given |
| Frames.ReshapeSpec | princeton3/SPE3read.py:153 | a dimension outside 64 bits is refused by name, height first; with both given, the reshape succeeds exactly when their product is the element count; any other failure is the mismatch |
| Frames.ReshapedSample | princeton3/SPE3read.py:153 | sample (r, c) of a reshaped frame is flat element `r * width + c`, which exists |
| Frames.FramesReadStays | princeton3/SPE3read.py:151-153 | the frame list stops growing at the first frame that fails: once frame i cannot be read, the list of the first n records, for every n beyond i, is the list of frames 0 to i - 1 |
| Frames.FramesReadStop | princeton3/SPE3read.py:151-153 | the frames read form a buildable list, and they stop short only at a frame that cannot be read, whose error then stops the whole list |
| Frames.FramesReadBuilt | princeton3/SPE3read.py:150-154 | the list the loop leaves is the data when the frames build; a shorter list ends just before the frame whose error is the result; a full list fails only when the frames cannot be stacked |
| Frames.FramesUpToOk | princeton3/SPE3read.py:151-153 | the first n frames build exactly when each of them can be read |
| Frames.FramesUpToFrames | princeton3/SPE3read.py:151-153 | n built frames are exactly frames 0 to n - 1, in order |
| Frames.FramesUpToErr | princeton3/SPE3read.py:151-153 | a failed list fails with the error of the first frame that cannot be read |
| Frames.FramesUpToStops | princeton3/SPE3read.py:151-153 | a frame that cannot be read stops every longer list with its error |
| Frames.FrameOfData | princeton3/SPE3read.py:150-154 | frame i of the data is what reading record i gives |
| Frames.FrameAtSample | princeton3/SPE3read.py:150-153 | sample (r, c) of the frame read at record i is the element `r * width + c` read at `4100 + i * stride`, inside the file and among the elements asked for unless that count is negative |
| Frames.FrameIsRead | princeton3/SPE3read.py:152-153 | frame i of the data is the reshape of the read at record i's window |
| Frames.ReadSample | princeton3/SPE3read.py:152-153 | sample (r, c) of a reshaped read is element `r * width + c` of the window; that element lies inside the file, and among those asked for unless the count is negative |
| Frames.FrameSample | princeton3/SPE3read.py:150-154 | sample (r, c) of frame i is the element `r * width + c` read at `4100 + i * stride`, inside the file and among the `int(size / nbytes)` asked for; frame i comes only from its own window |
| Frames.BuildFramesShape | princeton3/SPE3read.py:150-154 | contract of `Frames.BuildFrames`: the data holds exactly one frame per record (none for a negative count), all of one shape, and of the region size when both dimensions are given |
| Frames.ReadPastEndFails | princeton3/SPE3read.py:151-153 | a frame block of one record with `size="-2"` in 16-bit pixels fails on any file of at most 4098 bytes, because its read of all remaining elements starts a whole element past the end of file |
| Frames.ShortFrameDecodes | princeton3/SPE3read.py:150-154 | a frame read that stops short at the end of file decodes without error when its elements still fit the region: `size="8"` in 16-bit pixels over a 4104-byte file gives one frame of the two elements there, for a region `(1, 2)` or `(1, -1)` |
| Frames.BuildFramesFailure | princeton3/SPE3read.py:150-154 | contract of `Frames.BuildFrames`: a frame failure is that of the first unreadable frame, or the stacking of frames of unequal shape |
| Spe3.MetadataSteps | princeton3/SPE3read.py:76-79 | the footer values are found exactly when all four steps succeed, and are their results; otherwise the error of the first failing step, for each of the four (wavelengths, frame block, region block, exposure time) |
| Spe3.DecodeAccepts | princeton3/SPE3read.py:67-80 | contract of `Spe3.Decode`: a file decodes exactly when every step succeeds; the result is the version word at 1992, the parse of the text from the offset stored at 678, that footer's values, and the frames they lay out |
| Spe3.DecodeSteps | princeton3/SPE3read.py:69-75 | contract of `Spe3.Decode`: the decode fails with the version read's error, then the version check's, then the footer read's, in that order |
| Spe3.VersionGate | princeton3/SPE3read.py:69-73 | a file too short for the version word fails there; one whose word is not a float32 of at least 3 is refused, whatever follows it and whatever the parser does |
| Spe3.FooterBeforeFrames | princeton3/SPE3read.py:75-80 | a footer-value failure is the decode's error, the same for every file that agrees on the version and the footer, whatever the frame records hold |
| Spe3.UnknownPixelFormat | princeton3/SPE3read.py:124-131 | an unknown pixel format stops the decode at the frame block, naming the format, before the region block and the frames |
| Spe3.DecodedShape | princeton3/SPE3read.py:150-154 | every decoded file holds one frame per record, all of one shape, and of the region size when both dimensions are given |
| Spe3.VersionRun | princeton3/SPE3read.py:106-108 | without a readable stream nothing changes; otherwise the step ends as the version read does and stores the version only when it is read |
| Spe3.FooterRun | princeton3/SPE3read.py:110-114 | without a readable stream nothing changes; otherwise the step ends as the footer read does and stores the tree only when the parser accepts the text |
| Spe3.WavelengthRun | princeton3/SPE3read.py:116-119 | without a stored footer it fails on the missing attribute; otherwise it ends as the wavelength read does, stores the list only on success and otherwise changes nothing |
| Spe3.FramesInfoRunSpec | princeton3/SPE3read.py:121-133 | the frame-block step ends as the frame block's read does; it stores count, pixel type, size and stride in that order, each once read, so a failure keeps those read before it (the count after an unknown pixel format), and touches nothing else; on success the stored layout is the frame block's |
| Spe3.RegionRun | princeton3/SPE3read.py:135-141 | ends as the region block's read does and stores `(height, width)` only once both are read |
| Spe3.ExposureRun | princeton3/SPE3read.py:143-146 | ends as the exposure-time read does and stores the text only when `float()` accepts it |
| Spe3.FooterValuesRunMeta | princeton3/SPE3read.py:76-79 | the four footer steps end as the read of the footer values does, and on success they have stored exactly those values over what was there |
| Spe3.FooterValuesRunSteps | princeton3/SPE3read.py:76-79 | a failing footer step leaves the values of the steps before it: nothing after the wavelengths, the frame-block step's own state after it, wavelengths and layout after the region block, and these with the region size after the exposure time |
| Spe3.LayoutOf | princeton3/SPE3read.py:151-152 | the frame layout is available exactly when count, pixel type, size and stride are all stored, and is made of them; a missing count is reported first, then a missing stride, then a missing size |
| Spe3.FrameSetup | princeton3/SPE3read.py:151-153 | the first frame can start exactly when the layout, the stream and the region size are all available; a missing layout is reported before the stream |
| Spe3.ArrayRunFrames | princeton3/SPE3read.py:148-154 | contract of `Spe3.ArrayRun`: with the layout and the region size stored, the frame step ends as the reference frame reading does and leaves in `data` the frames read before the first failure |
| Spe3.ReadDataRunDecode | princeton3/SPE3read.py:67-80 | contract of `Spe3.ReadDataRun`: `readData` on a stream ends exactly as the decode of its bytes does, and on success leaves every attribute set to the decoded value, whatever they held before |
| Spe3.ReadDataRunSteps | princeton3/SPE3read.py:67-80 | contract of `Spe3.ReadDataRun`: a failing `readData` leaves: the attributes as they were after an unreadable version; the version set after its refusal or a failed footer read; version and footer set, then what the footer steps leave, after a failing footer value; every footer value, and in `data` the frames read before the failure, after a failing frame |
| Spe3.Spe3Map.constructor | princeton3/SPE3read.py:56-61 | a new object holds the given stream, open, with no attribute read |
| Spe3.Spe3Map.Stream | princeton3/SPE3read.py:102 | the stream can be read exactly when the object was given one and has not closed it, and reads the bytes it was given; without one the seek is a missing attribute, and after closing it is StreamClosed |
| Spe3.Spe3Map.ReadSpeVersion | princeton3/SPE3read.py:106-108 | its outcome and the attributes it leaves are those of VersionRun on the attributes before it |
| Spe3.Spe3Map.ReadXmlFooter | princeton3/SPE3read.py:110-114 | its outcome and the attributes it leaves are those of FooterRun |
| Spe3.Spe3Map.ReadWavelengths | princeton3/SPE3read.py:116-119 | its outcome and the attributes it leaves are those of WavelengthRun |
| Spe3.Spe3Map.ReadFramesInfo | princeton3/SPE3read.py:121-133 | storing count, pixel type, size and stride one by one, its outcome and the attributes it leaves are those of FramesInfoRun |
| Spe3.Spe3Map.ReadRegionSize | princeton3/SPE3read.py:135-141 | its outcome and the attributes it leaves are those of RegionRun |
| Spe3.Spe3Map.ReadExposureTime | princeton3/SPE3read.py:143-146 | its outcome and the attributes it leaves are those of ExposureRun |
| Spe3.Spe3Map.ReadFooterValues | princeton3/SPE3read.py:76-79 | the four footer steps in order: outcome and attributes are those of FooterValuesRun |
| Spe3.Spe3Map.ReadArray | princeton3/SPE3read.py:148-154 | empties the data first; its outcome and the attributes it leaves are those of ArrayRun: no count fails, a count of 0 or less gives no frames, a missing layout, stream or region size fails with the data empty, and otherwise the frame reading |
| Spe3.Spe3Map.AppendFrames | princeton3/SPE3read.py:150-154 | the loop's result is the reference frame list's, and it leaves in the data every frame read before the first failure, in order |
| Spe3.Spe3Map.ReadData | princeton3/SPE3read.py:67-80 | its outcome and the attributes it leaves are those of ReadDataRun, failures included; with a readable stream it ends as the reference decode does and on success every attribute holds the decoded value |
| Spe3.Spe3Map.Close | princeton3/SPE3read.py:65 | closing keeps every attribute read |
| Spe3.Open | princeton3/SPE3read.py:46-65 | without a stream nothing is read; with one, the outcome and the attributes are those of ReadDataRun from nothing read, the outcome is the reference decode's, a success leaves the decoded values, and the stream is closed exactly on success |

## Left out

- File names and `openFile` (lines 82-89): the model starts from the bytes of an open stream (`fid`). Opening a file by name is I/O.
- `saveXMLinfo` (lines 156-164) and the script under `if __name__ == "__main__"` (lines 167-204): they are output and plotting, not decoding.
- The XML parser: `xmltodict.parse` is a parameter from the footer bytes to an element tree, or to none when the text cannot be parsed. XML syntax, entities and encodings are not modelled.
- Floating point: the version is kept as its float32 bit pattern, and only its comparison with 3 is modelled. Wavelengths and exposure time are kept as their text once `float()` would accept them, not converted to numbers. Float32 samples are kept as raw 32-bit patterns.
- Frames.TruncatedQuotient: `int(size / nbytes)` is exact integer truncation. The source divides in double precision first, which can differ for sizes above 2^53.
- PyText.IsFloatLiteral and PyText.ParseInt: only ASCII whitespace and ASCII digits are accepted. Python also accepts other Unicode digits and spaces.
- Python's `-O` switch, which removes the `assert` statements (lines 71, 124, 138), is not modelled: the model always applies them.
- Spe3.Spe3Map.ReadArray: the attributes are read once before the frame loop. The source reads them again at each iteration (line 152), which gives the same values because nothing in the loop changes them.
- The class methods `ReadFooterValues` and `AppendFrames` have no method of their own in the source: they group consecutive statements of `readData` and `_readArray` (lines 76-79, 150-154).
- Bytes.ReadAt: a count whose byte size fits in 64 bits but cannot be allocated makes `numpy.fromfile` raise `MemoryError`; the model has no allocation limit and reads what the file holds.
- Frames.ElementsPerFrame: `size / nbytes` is a float division, which raises `OverflowError` for a size of about 2^1024 or more, before the stream and the seek are used. The model reports such a count as CountOverflow, after the stream and seek checks.
- PyText.ParseInt: Python 3.11 and later, and the releases 3.7.14, 3.8.14, 3.9.14 and 3.10.7 that received the same change, refuse by default to convert a text of more than 4300 digits with `int()`. The model follows a Python without that limit (3.8.0 to 3.8.13, the releases that also run numpy 1.24) and has no such limit.
- Python raises the exception of a failing `readData` out of the constructor, so the caller gets no object. `Spe3.Open` returns the object anyway, so that the attributes a failure leaves can be stated; they are what an object holds after its own `readData` fails.
- numpy beyond the windowed read, the reshape and the stacking (dtype objects, array views, byte order other than little-endian) is not modelled.
