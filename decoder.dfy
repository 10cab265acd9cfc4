/** The decoder of an SPE 3 file: the whole decode as one function of the file's bytes, and
    the object that performs it step by step, storing what each step reads in its own
    attribute. The XML parser is a parameter. */
module Spe3 {
  import opened Results
  import opened Bytes
  import opened Float32
  import opened XmlTree
  import opened Footer
  import opened Header
  import opened Frames

  /** The values the footer gives, in the order they are read. */
  datatype Metadata = Metadata(wavelength: seq<string>, info: FramesInfo, region: (int, int), exposureTime: string)

  /** Everything a successful decode stores. */
  datatype Decoded = Decoded(version: Word, footer: Element, meta: Metadata, data: seq<Frame>)

  /** The wavelengths, the frame block, the region block, the exposure time, in that order,
      stopping at the first failure. */
  function ReadMetadata(root: Element): Result<Metadata>
  {
    match WavelengthsOf(root)
    case Err(e) => Err(e)
    case Ok(wavelength) =>
      match FramesInfoOf(root)
      case Err(e) => Err(e)
      case Ok(info) =>
        match RegionSizeOf(root)
        case Err(e) => Err(e)
        case Ok(region) =>
          match ExposureTimeOf(root)
          case Err(e) => Err(e)
          case Ok(exposureTime) => Ok(Metadata(wavelength, info, region, exposureTime))
  }

  /** The version word and its check, the footer and its values, then the frames. */
  function Decode(file: seq<byte>, parser: seq<byte> -> Option<Element>): Result<Decoded>
  {
    match ReadVersion(file)
    case Err(e) => Err(e)
    case Ok(version) =>
      if !AtLeastThree(version) then Err(UnsupportedVersion(version))
      else
        match ReadFooter(file, parser)
        case Err(e) => Err(e)
        case Ok(footer) => DecodeFooter(file, version, footer)
  }

  /** What follows the parse of the footer: its values, then the frames they lay out. */
  function DecodeFooter(file: seq<byte>, version: Word, footer: Element): Result<Decoded>
  {
    match ReadMetadata(footer)
    case Err(e) => Err(e)
    case Ok(meta) =>
      match BuildFrames(file, meta.info, meta.region)
      case Err(e) => Err(e)
      case Ok(data) => Ok(Decoded(version, footer, meta, data))
  }


  /** The footer values are found exactly when each of the four steps succeeds; otherwise
      the error is that of the first step that fails. */
  lemma MetadataSteps(root: Element)
    ensures ReadMetadata(root).Ok? <==>
              WavelengthsOf(root).Ok? && FramesInfoOf(root).Ok? && RegionSizeOf(root).Ok? && ExposureTimeOf(root).Ok?
    ensures ReadMetadata(root).Ok? ==>
              ReadMetadata(root).value ==
                Metadata(WavelengthsOf(root).value, FramesInfoOf(root).value, RegionSizeOf(root).value, ExposureTimeOf(root).value)
    ensures WavelengthsOf(root).Err? ==> ReadMetadata(root) == Err(WavelengthsOf(root).error)
    ensures WavelengthsOf(root).Ok? && FramesInfoOf(root).Err? ==> ReadMetadata(root) == Err(FramesInfoOf(root).error)
    ensures WavelengthsOf(root).Ok? && FramesInfoOf(root).Ok? && RegionSizeOf(root).Err? ==>
              ReadMetadata(root) == Err(RegionSizeOf(root).error)
    ensures WavelengthsOf(root).Ok? && FramesInfoOf(root).Ok? && RegionSizeOf(root).Ok? && ExposureTimeOf(root).Err? ==>
              ReadMetadata(root) == Err(ExposureTimeOf(root).error)
  {
  }

  /** A file is decoded exactly when every step succeeds, and the result is what the steps
      read: the version word at 1992, the parse of the text from the offset stored at 678 to
      the end of file, the values of that footer and the frames they lay out. */
  lemma DecodeAccepts(file: seq<byte>, parser: seq<byte> -> Option<Element>)
    ensures Decode(file, parser).Ok? <==>
              && ReadVersion(file).Ok? && AtLeastThree(ReadVersion(file).value)
              && ReadFooter(file, parser).Ok?
              && ReadMetadata(ReadFooter(file, parser).value).Ok?
              && var meta := ReadMetadata(ReadFooter(file, parser).value).value;
                 BuildFrames(file, meta.info, meta.region).Ok?
    ensures Decode(file, parser).Ok? ==>
              var d := Decode(file, parser).value;
              && d.version == LittleEndian(file[VersionOffset .. VersionOffset + 4])
              && Some(d.footer) == parser(Remaining(file, LittleEndian(file[FooterOffsetPos .. FooterOffsetPos + 8])))
              && Ok(d.meta) == ReadMetadata(d.footer)
              && Ok(d.data) == BuildFrames(file, d.meta.info, d.meta.region)
  {
  }

  /** The decode fails at the first step that fails: the version read, the version check,
      the footer read; past these it is what follows the footer. */
  lemma DecodeSteps(file: seq<byte>, parser: seq<byte> -> Option<Element>)
    ensures ReadVersion(file).Err? ==> Decode(file, parser) == Err(ReadVersion(file).error)
    ensures ReadVersion(file).Ok? && !AtLeastThree(ReadVersion(file).value) ==>
              Decode(file, parser) == Err(UnsupportedVersion(ReadVersion(file).value))
    ensures ReadVersion(file).Ok? && AtLeastThree(ReadVersion(file).value) && ReadFooter(file, parser).Err? ==>
              Decode(file, parser) == Err(ReadFooter(file, parser).error)
    ensures ReadVersion(file).Ok? && AtLeastThree(ReadVersion(file).value) && ReadFooter(file, parser).Ok? ==>
              Decode(file, parser) == DecodeFooter(file, ReadVersion(file).value, ReadFooter(file, parser).value)
  {
  }

  /** The version is checked before anything else is read: a file shorter than the version
      word fails there, and one whose version word is not a float32 of at least 3 (as a bit
      pattern, outside 0x40400000 to 0x7F800000) is rejected whatever follows it, whatever
      the footer parser does. */
  lemma VersionGate(file: seq<byte>, parser: seq<byte> -> Option<Element>)
    ensures |file| < VersionOffset + 4 ==> Decode(file, parser) == Err(ShortRead(VersionOffset))
    ensures |file| >= VersionOffset + 4 ==>
              var w := LittleEndian(file[VersionOffset .. VersionOffset + 4]);
              !(0x4040_0000 <= w <= 0x7F80_0000) ==> Decode(file, parser) == Err(UnsupportedVersion(w))
  {
    if |file| >= VersionOffset + 4 {
      AtLeastThreeIsBitRange(ReadVersion(file).value);
    }
  }

  /** The footer is read and checked in full before any frame: a failure of the footer steps
      is the decode's error, and it is the same for two files that agree on the version word
      and on the footer, whatever their frame payloads hold. */
  lemma FooterBeforeFrames(file: seq<byte>, other: seq<byte>, parser: seq<byte> -> Option<Element>)
    requires ReadVersion(file).Ok? && AtLeastThree(ReadVersion(file).value)
    requires ReadVersion(other) == ReadVersion(file) && ReadFooter(other, parser) == ReadFooter(file, parser)
    requires ReadFooter(file, parser).Ok? && ReadMetadata(ReadFooter(file, parser).value).Err?
    ensures Decode(file, parser) == Err(ReadMetadata(ReadFooter(file, parser).value).error)
    ensures Decode(other, parser) == Decode(file, parser)
  {
  }

  /** An unknown pixel format stops the decode at the frame block, before the region block
      and the frames: its name is the error. */
  lemma UnknownPixelFormat(file: seq<byte>, parser: seq<byte> -> Option<Element>)
    requires ReadVersion(file).Ok? && AtLeastThree(ReadVersion(file).value) && ReadFooter(file, parser).Ok?
    requires var root := ReadFooter(file, parser).value;
             && WavelengthsOf(root).Ok?
             && AttrAt(root, FrameBlockPath, "type") == Ok("Frame") && FrameCount(root).Ok?
             && AttrAt(root, FrameBlockPath, "pixelFormat").Ok?
             && PixelFormat(AttrAt(root, FrameBlockPath, "pixelFormat").value).None?
    ensures Decode(file, parser) ==
              Err(UnsupportedPixelFormat(AttrAt(ReadFooter(file, parser).value, FrameBlockPath, "pixelFormat").value))
  {
    MetadataSteps(ReadFooter(file, parser).value);
  }

  /** Every decoded file holds one frame per record of the frame block, all of one shape, and
      of the region size when both dimensions are given. */
  lemma DecodedShape(file: seq<byte>, parser: seq<byte> -> Option<Element>)
    requires Decode(file, parser).Ok?
    ensures var d := Decode(file, parser).value;
            && |d.data| == FrameTotal(d.meta.info) && SameShape(d.data)
            && (d.meta.region.0 >= 0 && d.meta.region.1 >= 0 ==>
                  forall j :: 0 <= j < |d.data| ==> d.data[j].height == d.meta.region.0 && d.data[j].width == d.meta.region.1)
  {
    var d := Decode(file, parser).value;
    DecodeAccepts(file, parser);
    BuildFramesShape(file, d.meta.info, d.meta.region);
  }

  /** The attributes of the decoder object that the decode sets; each is None until the
      step that sets it has succeeded. */
  datatype Attributes = Attributes(
    speVersion: Option<Word>,
    footerInfo: Option<Element>,
    wavelength: Option<seq<string>>,
    nbOfFrames: Option<int>,
    dataType: Option<PixelType>,
    frameSize: Option<int>,
    frameStride: Option<int>,
    regionSize: Option<(int, int)>,
    exposureTime: Option<string>,
    data: Option<seq<Frame>>)

  /** Nothing has been read. */
  const Unset: Attributes := Attributes(None, None, None, None, None, None, None, None, None, None)

  /** The frame layout stored over `a`. */
  function WithLayout(a: Attributes, info: FramesInfo): Attributes
  {
    a.(nbOfFrames := Some(info.count), dataType := Some(info.pixel), frameSize := Some(info.size), frameStride := Some(info.stride))
  }

  /** The footer values stored over `a`. */
  function WithMetadata(a: Attributes, meta: Metadata): Attributes
  {
    WithLayout(a, meta.info).(wavelength := Some(meta.wavelength), regionSize := Some(meta.region), exposureTime := Some(meta.exposureTime))
  }

  /** The attributes as a successful decode that produced `d` leaves them. */
  function AttributesOf(d: Decoded): Attributes
  {
    WithMetadata(Unset.(speVersion := Some(d.version), footerInfo := Some(d.footer), data := Some(d.data)), d.meta)
  }

  /** How a step of the object ends, and the attributes it leaves. */
  datatype Run = Run(outcome: Outcome, after: Attributes)

  /** The version read: stored only once the word is read. */
  function VersionRun(stream: Result<seq<byte>>, a: Attributes): (r: Run)
    ensures stream.Err? ==> r == Run(Fail(stream.error), a)
    ensures stream.Ok? ==> r.outcome == OutcomeOf(ReadVersion(stream.value))
    ensures r.outcome.Pass? ==> r.after == a.(speVersion := Some(ReadVersion(stream.value).value))
    ensures r.outcome.Fail? ==> r.after == a
  {
    match stream
    case Err(e) => Run(Fail(e), a)
    case Ok(file) =>
      match ReadVersion(file)
      case Err(e) => Run(Fail(e), a)
      case Ok(v) => Run(Pass, a.(speVersion := Some(v)))
  }

  /** The footer read and parsed: stored only once the parser has accepted it. */
  function FooterRun(stream: Result<seq<byte>>, parser: seq<byte> -> Option<Element>, a: Attributes): (r: Run)
    ensures stream.Err? ==> r == Run(Fail(stream.error), a)
    ensures stream.Ok? ==> r.outcome == OutcomeOf(ReadFooter(stream.value, parser))
    ensures r.outcome.Pass? ==> r.after == a.(footerInfo := Some(ReadFooter(stream.value, parser).value))
    ensures r.outcome.Fail? ==> r.after == a
  {
    match stream
    case Err(e) => Run(Fail(e), a)
    case Ok(file) =>
      match ReadFooter(file, parser)
      case Err(e) => Run(Fail(e), a)
      case Ok(root) => Run(Pass, a.(footerInfo := Some(root)))
  }

  /** The error of a footer step run before the footer is stored. */
  const NoFooter: Error := NoAttribute("_footerInfo")

  /** The wavelengths: stored only once every field has been converted. */
  function WavelengthRun(a: Attributes): (r: Run)
    ensures a.footerInfo.None? ==> r == Run(Fail(NoFooter), a)
    ensures a.footerInfo.Some? ==> r.outcome == OutcomeOf(WavelengthsOf(a.footerInfo.value))
    ensures r.outcome.Pass? ==> r.after == a.(wavelength := Some(WavelengthsOf(a.footerInfo.value).value))
    ensures r.outcome.Fail? ==> r.after == a
  {
    match a.footerInfo
    case None => Run(Fail(NoFooter), a)
    case Some(root) =>
      match WavelengthsOf(root)
      case Err(e) => Run(Fail(e), a)
      case Ok(w) => Run(Pass, a.(wavelength := Some(w)))
  }

  /** The frame block: after the type check, each of the four values is stored as soon as it
      is read, so a failure part way leaves the earlier ones set. */
  function FramesInfoRun(a: Attributes): Run
  {
    match a.footerInfo
    case None => Run(Fail(NoFooter), a)
    case Some(root) =>
      match CheckFrameBlock(root)
      case Fail(e) => Run(Fail(e), a)
      case Pass =>
        match FrameCount(root)
        case Err(e) => Run(Fail(e), a)
        case Ok(count) =>
          var a1 := a.(nbOfFrames := Some(count));
          match FramePixelType(root)
          case Err(e) => Run(Fail(e), a1)
          case Ok(pixel) =>
            var a2 := a1.(dataType := Some(pixel));
            match FrameSize(root)
            case Err(e) => Run(Fail(e), a2)
            case Ok(size) =>
              var a3 := a2.(frameSize := Some(size));
              match FrameStride(root)
              case Err(e) => Run(Fail(e), a3)
              case Ok(stride) => Run(Pass, a3.(frameStride := Some(stride)))
  }

  /** The region block: the pair is stored only once both dimensions are read. */
  function RegionRun(a: Attributes): (r: Run)
    ensures a.footerInfo.None? ==> r == Run(Fail(NoFooter), a)
    ensures a.footerInfo.Some? ==> r.outcome == OutcomeOf(RegionSizeOf(a.footerInfo.value))
    ensures r.outcome.Pass? ==> r.after == a.(regionSize := Some(RegionSizeOf(a.footerInfo.value).value))
    ensures r.outcome.Fail? ==> r.after == a
  {
    match a.footerInfo
    case None => Run(Fail(NoFooter), a)
    case Some(root) =>
      match RegionSizeOf(root)
      case Err(e) => Run(Fail(e), a)
      case Ok(region) => Run(Pass, a.(regionSize := Some(region)))
  }

  /** The exposure time: stored only once converted. */
  function ExposureRun(a: Attributes): (r: Run)
    ensures a.footerInfo.None? ==> r == Run(Fail(NoFooter), a)
    ensures a.footerInfo.Some? ==> r.outcome == OutcomeOf(ExposureTimeOf(a.footerInfo.value))
    ensures r.outcome.Pass? ==> r.after == a.(exposureTime := Some(ExposureTimeOf(a.footerInfo.value).value))
    ensures r.outcome.Fail? ==> r.after == a
  {
    match a.footerInfo
    case None => Run(Fail(NoFooter), a)
    case Some(root) =>
      match ExposureTimeOf(root)
      case Err(e) => Run(Fail(e), a)
      case Ok(t) => Run(Pass, a.(exposureTime := Some(t)))
  }

  /** The four footer steps of `readData` in order, stopping at the first failure. */
  function FooterValuesRun(a: Attributes): Run
  {
    var r1 := WavelengthRun(a);
    if r1.outcome.Fail? then r1
    else
      var r2 := FramesInfoRun(r1.after);
      if r2.outcome.Fail? then r2
      else
        var r3 := RegionRun(r2.after);
        if r3.outcome.Fail? then r3
        else ExposureRun(r3.after)
  }

  /** The frame layout as the attributes hold it, looked up in the order the frame
      statement uses them: the count, the stride, the size, the pixel type. */
  function LayoutOf(a: Attributes): (r: Result<FramesInfo>)
    ensures r.Ok? <==> a.nbOfFrames.Some? && a.dataType.Some? && a.frameSize.Some? && a.frameStride.Some?
    ensures r.Ok? ==> r.value == FramesInfo(a.nbOfFrames.value, a.dataType.value, a.frameSize.value, a.frameStride.value)
    ensures a.nbOfFrames.None? ==> r == Err(NoAttribute("nbOfFrames"))
    ensures a.nbOfFrames.Some? && a.frameStride.None? ==> r == Err(NoAttribute("frameStride"))
    ensures a.nbOfFrames.Some? && a.frameStride.Some? && a.frameSize.None? ==> r == Err(NoAttribute("frameSize"))
  {
    if a.nbOfFrames.None? then Err(NoAttribute("nbOfFrames"))
    else if a.frameStride.None? then Err(NoAttribute("frameStride"))
    else if a.frameSize.None? then Err(NoAttribute("frameSize"))
    else if a.dataType.None? then Err(NoAttribute("dataType"))
    else Ok(FramesInfo(a.nbOfFrames.value, a.dataType.value, a.frameSize.value, a.frameStride.value))
  }

  /** What the first frame needs, in the order its statement uses it: the layout, then the
      stream and its read, then the region size for the reshape. */
  function FrameSetup(stream: Result<seq<byte>>, a: Attributes): (r: Result<(seq<byte>, FramesInfo, (int, int))>)
    ensures LayoutOf(a).Ok? && stream.Ok? && a.regionSize.Some? ==> r == Ok((stream.value, LayoutOf(a).value, a.regionSize.value))
    ensures !(LayoutOf(a).Ok? && stream.Ok? && a.regionSize.Some?) ==> r.Err?
    ensures LayoutOf(a).Err? ==> r == Err(LayoutOf(a).error)
    ensures LayoutOf(a).Ok? && stream.Err? ==> r == Err(stream.error)
  {
    match LayoutOf(a)
    case Err(e) => Err(e)
    case Ok(info) =>
      match stream
      case Err(e) => Err(e)
      case Ok(file) =>
        if a.regionSize.Some? then Ok((file, info, a.regionSize.value))
        else
          match ReadAt(file, FramePosition(info, 0), ElementsPerFrame(info), BytesPerElement(info.pixel))
          case Err(e) => Err(e)
          case Ok(_) => Err(NoAttribute("regionSize"))
  }

  /** The frames: the list is emptied first; then each frame is appended as it is read and
      reshaped; then the list is stacked. A failure leaves the frames read before it. */
  function ArrayRun(stream: Result<seq<byte>>, a: Attributes): Run
  {
    var emptied := a.(data := Some([]));
    match a.nbOfFrames
    case None => Run(Fail(NoAttribute("nbOfFrames")), emptied)
    case Some(n) =>
      if n <= 0 then Run(Pass, emptied)
      else
        match FrameSetup(stream, a)
        case Err(e) => Run(Fail(e), emptied)
        case Ok((file, info, region)) =>
          Run(OutcomeOf(BuildFrames(file, info, region)), a.(data := Some(FramesRead(file, info, region, FrameTotal(info)))))
  }

  /** `readData`: the version, rejected unless at least 3, the footer, its four values, the
      frames, stopping at the first failure. */
  function ReadDataRun(stream: Result<seq<byte>>, parser: seq<byte> -> Option<Element>, a: Attributes): Run
  {
    var r1 := VersionRun(stream, a);
    if r1.outcome.Fail? then r1
    else if !AtLeastThree(r1.after.speVersion.value) then Run(Fail(UnsupportedVersion(r1.after.speVersion.value)), r1.after)
    else
      var r2 := FooterRun(stream, parser, r1.after);
      if r2.outcome.Fail? then r2
      else
        var r3 := FooterValuesRun(r2.after);
        if r3.outcome.Fail? then r3
        else ArrayRun(stream, r3.after)
  }

  /** The frame-block step ends as the frame block's read does; it stores the count, the
      pixel type, the size and the stride in that order, each once it has been read, and
      touches no other attribute; on success the layout it leaves is the frame block's. */
  lemma FramesInfoRunSpec(a: Attributes)
    ensures a.footerInfo.None? ==> FramesInfoRun(a) == Run(Fail(NoFooter), a)
    ensures a.footerInfo.Some? ==>
              var root := a.footerInfo.value;
              var r := FramesInfoRun(a);
              var counted := CheckFrameBlock(root).Pass? && FrameCount(root).Ok?;
              var typed := counted && FramePixelType(root).Ok?;
              var sized := typed && FrameSize(root).Ok?;
              && r.outcome == OutcomeOf(FramesInfoOf(root))
              && r.after == a.(nbOfFrames := if counted then Some(FrameCount(root).value) else a.nbOfFrames,
                               dataType := if typed then Some(FramePixelType(root).value) else a.dataType,
                               frameSize := if sized then Some(FrameSize(root).value) else a.frameSize,
                               frameStride := if sized && FrameStride(root).Ok? then Some(FrameStride(root).value) else a.frameStride)
              && (r.outcome.Pass? ==> LayoutOf(r.after) == FramesInfoOf(root))
  {
    if a.footerInfo.Some? {
      FramesInfoSteps(a.footerInfo.value);
    }
  }

  /** The four footer steps end as the read of the footer values does, and on success they
      have stored exactly those values. */
  lemma FooterValuesRunMeta(a: Attributes)
    requires a.footerInfo.Some?
    ensures FooterValuesRun(a).outcome == OutcomeOf(ReadMetadata(a.footerInfo.value))
    ensures FooterValuesRun(a).outcome.Pass? ==> FooterValuesRun(a).after == WithMetadata(a, ReadMetadata(a.footerInfo.value).value)
  {
    var root := a.footerInfo.value;
    MetadataSteps(root);
    var r1 := WavelengthRun(a);
    if r1.outcome.Pass? {
      FramesInfoRunSpec(r1.after);
    }
  }

  /** What each failing footer step leaves: the values of the steps before it, and, when the
      frame block fails, the part of it read before the failure. */
  lemma FooterValuesRunSteps(a: Attributes)
    requires a.footerInfo.Some?
    ensures var root := a.footerInfo.value;
            WavelengthsOf(root).Err? ==> FooterValuesRun(a) == Run(Fail(WavelengthsOf(root).error), a)
    ensures var root := a.footerInfo.value;
            WavelengthsOf(root).Ok? && FramesInfoOf(root).Err? ==>
              FooterValuesRun(a) == FramesInfoRun(a.(wavelength := Some(WavelengthsOf(root).value)))
    ensures var root := a.footerInfo.value;
            WavelengthsOf(root).Ok? && FramesInfoOf(root).Ok? && RegionSizeOf(root).Err? ==>
              FooterValuesRun(a) ==
                Run(Fail(RegionSizeOf(root).error), WithLayout(a.(wavelength := Some(WavelengthsOf(root).value)), FramesInfoOf(root).value))
    ensures var root := a.footerInfo.value;
            WavelengthsOf(root).Ok? && FramesInfoOf(root).Ok? && RegionSizeOf(root).Ok? && ExposureTimeOf(root).Err? ==>
              FooterValuesRun(a) ==
                Run(Fail(ExposureTimeOf(root).error),
                    WithLayout(a.(wavelength := Some(WavelengthsOf(root).value)), FramesInfoOf(root).value).(regionSize := Some(RegionSizeOf(root).value)))
  {
    var root := a.footerInfo.value;
    var r1 := WavelengthRun(a);
    if r1.outcome.Pass? {
      FramesInfoRunSpec(r1.after);
      FramesInfoSteps(root);
    }
  }

  /** Once the layout and the region size are stored, the frame step ends as the frame
      reading does and leaves the frames read before any failure. */
  lemma ArrayRunFrames(file: seq<byte>, a: Attributes, info: FramesInfo, region: (int, int))
    requires LayoutOf(a) == Ok(info) && a.regionSize == Some(region)
    ensures ArrayRun(Ok(file), a) ==
              Run(OutcomeOf(BuildFrames(file, info, region)), a.(data := Some(FramesRead(file, info, region, FrameTotal(info)))))
  {
    FramesReadBuilt(file, info, region);
  }

  /** The object's `readData` on a stream ends exactly as the decode of its bytes does, and on
      success leaves every attribute set to what the decode produced, whatever they held. */
  lemma ReadDataRunDecode(file: seq<byte>, parser: seq<byte> -> Option<Element>, a: Attributes)
    ensures ReadDataRun(Ok(file), parser, a).outcome == OutcomeOf(Decode(file, parser))
    ensures ReadDataRun(Ok(file), parser, a).outcome.Pass? ==>
              ReadDataRun(Ok(file), parser, a).after == AttributesOf(Decode(file, parser).value)
  {
    var r1 := VersionRun(Ok(file), a);
    if r1.outcome.Pass? && AtLeastThree(r1.after.speVersion.value) {
      var r2 := FooterRun(Ok(file), parser, r1.after);
      if r2.outcome.Pass? {
        var root := r2.after.footerInfo.value;
        FooterValuesRunMeta(r2.after);
        var r3 := FooterValuesRun(r2.after);
        if r3.outcome.Pass? {
          var meta := ReadMetadata(root).value;
          ArrayRunFrames(file, r3.after, meta.info, meta.region);
          FramesReadBuilt(file, meta.info, meta.region);
        }
      }
    }
  }

  /** What a failing `readData` leaves: nothing after an unreadable version; the version
      after its rejection or a failed footer read; the version and the footer, then what the
      footer steps leave, after a failing footer value; every footer value and the frames
      read before the failure after a failing frame. */
  lemma ReadDataRunSteps(file: seq<byte>, parser: seq<byte> -> Option<Element>, a: Attributes)
    ensures ReadVersion(file).Err? ==> ReadDataRun(Ok(file), parser, a) == Run(Fail(ReadVersion(file).error), a)
    ensures ReadVersion(file).Ok? && !AtLeastThree(ReadVersion(file).value) ==>
              ReadDataRun(Ok(file), parser, a) ==
                Run(Fail(UnsupportedVersion(ReadVersion(file).value)), a.(speVersion := Some(ReadVersion(file).value)))
    ensures ReadVersion(file).Ok? && AtLeastThree(ReadVersion(file).value) && ReadFooter(file, parser).Err? ==>
              ReadDataRun(Ok(file), parser, a) ==
                Run(Fail(ReadFooter(file, parser).error), a.(speVersion := Some(ReadVersion(file).value)))
    ensures ReadVersion(file).Ok? && AtLeastThree(ReadVersion(file).value) && ReadFooter(file, parser).Ok?
            && ReadMetadata(ReadFooter(file, parser).value).Err? ==>
              ReadDataRun(Ok(file), parser, a) ==
                FooterValuesRun(a.(speVersion := Some(ReadVersion(file).value), footerInfo := Some(ReadFooter(file, parser).value)))
    ensures ReadVersion(file).Ok? && AtLeastThree(ReadVersion(file).value) && ReadFooter(file, parser).Ok?
            && ReadMetadata(ReadFooter(file, parser).value).Ok? ==>
              var v, root := ReadVersion(file).value, ReadFooter(file, parser).value;
              var meta := ReadMetadata(root).value;
              BuildFrames(file, meta.info, meta.region).Err? ==>
                ReadDataRun(Ok(file), parser, a) ==
                  Run(Fail(BuildFrames(file, meta.info, meta.region).error),
                      WithMetadata(a, meta).(speVersion := Some(v), footerInfo := Some(root),
                                             data := Some(FramesRead(file, meta.info, meta.region, FrameTotal(meta.info)))))
  {
    var r1 := VersionRun(Ok(file), a);
    if r1.outcome.Pass? && AtLeastThree(r1.after.speVersion.value) {
      var r2 := FooterRun(Ok(file), parser, r1.after);
      if r2.outcome.Pass? {
        var root := r2.after.footerInfo.value;
        FooterValuesRunMeta(r2.after);
        var r3 := FooterValuesRun(r2.after);
        if r3.outcome.Pass? {
          var meta := ReadMetadata(root).value;
          ArrayRunFrames(file, r3.after, meta.info, meta.region);
        }
      }
    }
  }

  /** The decoder object. `fid` is the stream it was given, as the bytes it holds. */
  class Spe3Map {
    var fid: Option<seq<byte>>
    var closed: bool
    var speVersion: Option<Word>
    var footerInfo: Option<Element>
    var wavelength: Option<seq<string>>
    var nbOfFrames: Option<int>
    var dataType: Option<PixelType>
    var frameSize: Option<int>
    var frameStride: Option<int>
    var regionSize: Option<(int, int)>
    var exposureTime: Option<string>
    var data: Option<seq<Frame>>

    /** The attributes the decode sets, as they stand. */
    function Attrs(): Attributes
      reads this`speVersion, this`footerInfo, this`wavelength, this`nbOfFrames, this`dataType,
            this`frameSize, this`frameStride, this`regionSize, this`exposureTime, this`data
    {
      Attributes(speVersion, footerInfo, wavelength, nbOfFrames, dataType, frameSize, frameStride, regionSize, exposureTime, data)
    }

    /** An object holding a stream (or none), with nothing read yet. */
    constructor (fid: Option<seq<byte>>)
      ensures this.fid == fid && !closed && Attrs() == Unset
    {
      this.fid := fid;
      closed := false;
      speVersion, footerInfo, wavelength := None, None, None;
      nbOfFrames, dataType, frameSize, frameStride := None, None, None, None;
      regionSize, exposureTime, data := None, None, None;
    }

    /** The bytes a seek and read reach: none without a stream, none once it is closed. */
    function Stream(): (r: Result<seq<byte>>)
      reads this`fid, this`closed
      ensures r.Ok? <==> fid.Some? && !closed
      ensures r.Ok? ==> r.value == fid.value
      ensures fid.None? ==> r == Err(NoAttribute("seek"))
      ensures fid.Some? && closed ==> r == Err(StreamClosed)
    {
      if fid.None? then Err(NoAttribute("seek"))
      else if closed then Err(StreamClosed)
      else Ok(fid.value)
    }

    method ReadSpeVersion() returns (o: Outcome)
      modifies this`speVersion
      ensures Run(o, Attrs()) == VersionRun(Stream(), old(Attrs()))
    {
      var file := Stream();
      if file.Err? {
        return Fail(file.error);
      }
      var version := ReadVersion(file.value);
      if version.Err? {
        return Fail(version.error);
      }
      speVersion := Some(version.value);
      return Pass;
    }

    method ReadXmlFooter(parser: seq<byte> -> Option<Element>) returns (o: Outcome)
      modifies this`footerInfo
      ensures Run(o, Attrs()) == FooterRun(Stream(), parser, old(Attrs()))
    {
      var file := Stream();
      if file.Err? {
        return Fail(file.error);
      }
      var footer := ReadFooter(file.value, parser);
      if footer.Err? {
        return Fail(footer.error);
      }
      footerInfo := Some(footer.value);
      return Pass;
    }

    method ReadWavelengths() returns (o: Outcome)
      modifies this`wavelength
      ensures Run(o, Attrs()) == WavelengthRun(old(Attrs()))
    {
      if footerInfo.None? {
        return Fail(NoFooter);
      }
      var r := WavelengthsOf(footerInfo.value);
      if r.Err? {
        return Fail(r.error);
      }
      wavelength := Some(r.value);
      return Pass;
    }

    /** Each value is stored as soon as it is read. */
    method ReadFramesInfo() returns (o: Outcome)
      modifies this`nbOfFrames, this`dataType, this`frameSize, this`frameStride
      ensures Run(o, Attrs()) == FramesInfoRun(old(Attrs()))
    {
      if footerInfo.None? {
        return Fail(NoFooter);
      }
      var root := footerInfo.value;
      var check := CheckFrameBlock(root);
      if check.Fail? {
        return check;
      }
      var count := FrameCount(root);
      if count.Err? {
        return Fail(count.error);
      }
      nbOfFrames := Some(count.value);
      var pixel := FramePixelType(root);
      if pixel.Err? {
        return Fail(pixel.error);
      }
      dataType := Some(pixel.value);
      var size := FrameSize(root);
      if size.Err? {
        return Fail(size.error);
      }
      frameSize := Some(size.value);
      var stride := FrameStride(root);
      if stride.Err? {
        return Fail(stride.error);
      }
      frameStride := Some(stride.value);
      return Pass;
    }

    method ReadRegionSize() returns (o: Outcome)
      modifies this`regionSize
      ensures Run(o, Attrs()) == RegionRun(old(Attrs()))
    {
      if footerInfo.None? {
        return Fail(NoFooter);
      }
      var r := RegionSizeOf(footerInfo.value);
      if r.Err? {
        return Fail(r.error);
      }
      regionSize := Some(r.value);
      return Pass;
    }

    method ReadExposureTime() returns (o: Outcome)
      modifies this`exposureTime
      ensures Run(o, Attrs()) == ExposureRun(old(Attrs()))
    {
      if footerInfo.None? {
        return Fail(NoFooter);
      }
      var r := ExposureTimeOf(footerInfo.value);
      if r.Err? {
        return Fail(r.error);
      }
      exposureTime := Some(r.value);
      return Pass;
    }

    /** The frames, read in order into `data`, then stacked. */
    method ReadArray() returns (o: Outcome)
      modifies this`data
      ensures Run(o, Attrs()) == ArrayRun(Stream(), old(Attrs()))
    {
      var before := Attrs();
      data := Some([]);
      if nbOfFrames.None? {
        return Fail(NoAttribute("nbOfFrames"));
      }
      if nbOfFrames.value <= 0 {
        return Pass;
      }
      var setup := FrameSetup(Stream(), before);
      if setup.Err? {
        return Fail(setup.error);
      }
      var (file, info, region) := setup.value;
      o := AppendFrames(file, info, region);
    }

    /** The loop over the records: each frame read from its own window and reshaped to the
        region size, appended to `data`; then the stacking of the frames. */
    method AppendFrames(file: seq<byte>, info: FramesInfo, region: (int, int)) returns (o: Outcome)
      modifies this`data
      requires data == Some([])
      ensures o == OutcomeOf(BuildFrames(file, info, region))
      ensures data == Some(FramesRead(file, info, region, FrameTotal(info)))
    {
      var total := FrameTotal(info);
      var frames: seq<Frame> := [];
      var i := 0;
      while i < total
        invariant 0 <= i <= total
        invariant FramesUpTo(file, info, region, i) == Ok(frames)
        invariant frames == FramesRead(file, info, region, i) && |frames| == i
        invariant data == Some(frames)
      {
        var read := ReadAt(file, FramePosition(info, i), ElementsPerFrame(info), BytesPerElement(info.pixel));
        if read.Err? {
          FramesUpToStops(file, info, region, i, total);
          FramesReadStays(file, info, region, i, total);
          return Fail(read.error);
        }
        var frame := Reshape(read.value, region.0, region.1);
        if frame.Err? {
          FramesUpToStops(file, info, region, i, total);
          FramesReadStays(file, info, region, i, total);
          return Fail(frame.error);
        }
        assert FrameAt(file, info, region, i) == frame;
        frames := frames + [frame.value];
        data := Some(frames);
        i := i + 1;
      }
      if !SameShape(frames) {
        return Fail(RaggedFrames);
      }
      return Pass;
    }

    /** The version first, rejected unless at least 3; then the footer, the four values it
        gives and the frames, each step storing what it reads. */
    method ReadData(parser: seq<byte> -> Option<Element>) returns (o: Outcome)
      modifies this`speVersion, this`footerInfo, this`wavelength, this`nbOfFrames, this`dataType,
               this`frameSize, this`frameStride, this`regionSize, this`exposureTime, this`data
      ensures Run(o, Attrs()) == ReadDataRun(Stream(), parser, old(Attrs()))
      ensures Stream().Ok? ==> o == OutcomeOf(Decode(fid.value, parser))
      ensures Stream().Ok? && o.Pass? ==> Attrs() == AttributesOf(Decode(fid.value, parser).value)
    {
      ghost var before := Attrs();
      o := ReadSpeVersion();
      if o.Pass? {
        if !AtLeastThree(speVersion.value) {
          o := Fail(UnsupportedVersion(speVersion.value));
        } else {
          o := ReadXmlFooter(parser);
          if o.Pass? {
            o := ReadFooterValues();
            if o.Pass? {
              o := ReadArray();
            }
          }
        }
      }
      if Stream().Ok? {
        ReadDataRunDecode(fid.value, parser, before);
      }
    }

    /** The four footer steps of `readData`, in order, stopping at the first failure. */
    method ReadFooterValues() returns (o: Outcome)
      modifies this`wavelength, this`nbOfFrames, this`dataType, this`frameSize, this`frameStride,
               this`regionSize, this`exposureTime
      ensures Run(o, Attrs()) == FooterValuesRun(old(Attrs()))
    {
      o := ReadWavelengths();
      if o.Fail? {
        return;
      }
      o := ReadFramesInfo();
      if o.Fail? {
        return;
      }
      o := ReadRegionSize();
      if o.Fail? {
        return;
      }
      o := ReadExposureTime();
    }

    /** Closing the stream changes no attribute read from it. */
    method Close()
      modifies this`closed
      ensures closed && Attrs() == old(Attrs())
    {
      closed := true;
    }
  }

  /** Creating the decoder with a stream reads the whole file, then closes the stream; if the
      decode fails the stream is left open. Without a stream nothing is read. */
  method Open(fid: Option<seq<byte>>, parser: seq<byte> -> Option<Element>) returns (m: Spe3Map, o: Outcome)
    ensures fresh(m) && m.fid == fid
    ensures fid.None? ==> o == Pass && m.Attrs() == Unset && !m.closed
    ensures fid.Some? ==> Run(o, m.Attrs()) == ReadDataRun(Ok(fid.value), parser, Unset)
    ensures fid.Some? ==> o == OutcomeOf(Decode(fid.value, parser))
    ensures fid.Some? && o.Pass? ==> m.Attrs() == AttributesOf(Decode(fid.value, parser).value)
    ensures fid.Some? ==> (m.closed <==> o.Pass?)
  {
    m := new Spe3Map(fid);
    o := Pass;
    if fid.Some? {
      o := m.ReadData(parser);
      if o.Pass? {
        m.Close();
      }
    }
  }
}
