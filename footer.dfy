/** What the decoder takes from the parsed XML footer: the wavelength calibration, the
    frame block (count, pixel format, size, stride), the region block (height, width) and
    the exposure time, each by a fixed path in the dictionary view. */
module Footer {
  import opened Results
  import opened XmlTree
  import opened PyText

  const WavelengthPath: seq<string> := ["SpeFormat", "Calibrations", "WavelengthMapping", "Wavelength"]
  const FrameBlockPath: seq<string> := ["SpeFormat", "DataFormat", "DataBlock"]
  const RegionBlockPath: seq<string> := FrameBlockPath + ["DataBlock"]
  const ExposureTimePath: seq<string> :=
    ["SpeFormat", "DataHistories", "DataHistory", "Origin", "Experiment", "Devices", "Cameras",
     "Camera", "ShutterTiming", "ExposureTime"]

  /** The sample types the pixel-format table can name; float samples are kept as their
      raw 32-bit patterns. */
  datatype PixelType = Unsigned16 | Unsigned32 | Float32Word

  /** `dataType().nbytes`. */
  function BytesPerElement(t: PixelType): nat
  {
    match t
    case Unsigned16 => 2
    case Unsigned32 => 4
    case Float32Word => 4
  }

  /** The pixel-format table: a closed, case-sensitive dictionary literal. */
  function PixelFormat(name: string): (r: Option<PixelType>)
    ensures r.Some? <==> name in {"MonochromeUnsigned16", "MonochromeUnsigned32", "MonochromeFloat32", "MonochromeFloating32"}
    ensures r.Some? ==> BytesPerElement(r.value) == if name == "MonochromeUnsigned16" then 2 else 4
    ensures r == Some(Float32Word) <==> name == "MonochromeFloat32" || name == "MonochromeFloating32"
  {
    if name == "MonochromeUnsigned16" then Some(Unsigned16)
    else if name == "MonochromeUnsigned32" then Some(Unsigned32)
    else if name == "MonochromeFloat32" || name == "MonochromeFloating32" then Some(Float32Word)
    else None
  }

  /** `int(attribute)` for one attribute of the node at `path`. */
  function IntAttr(root: Element, path: seq<string>, name: string): Result<int>
  {
    var text :- AttrAt(root, path, name);
    match ParseInt(text)
    case Some(n) => Ok(n)
    case None => Err(NotAnInteger(text))
  }

  /** The layout of the frame records. */
  datatype FramesInfo = FramesInfo(count: int, pixel: PixelType, size: int, stride: int)

  /** The assertion that the frame block is of type `Frame`. */
  function CheckFrameBlock(root: Element): Outcome
  {
    match AttrAt(root, FrameBlockPath, "type")
    case Err(e) => Fail(e)
    case Ok(t) => if t == "Frame" then Pass else Fail(NotFrameBlock(t))
  }

  function FrameCount(root: Element): Result<int> { IntAttr(root, FrameBlockPath, "count") }
  function FrameSize(root: Element): Result<int> { IntAttr(root, FrameBlockPath, "size") }
  function FrameStride(root: Element): Result<int> { IntAttr(root, FrameBlockPath, "stride") }

  /** The pixel-format attribute, mapped through the table. */
  function FramePixelType(root: Element): (r: Result<PixelType>)
    ensures r.Ok? <==> AttrAt(root, FrameBlockPath, "pixelFormat").Ok?
                        && PixelFormat(AttrAt(root, FrameBlockPath, "pixelFormat").value).Some?
    ensures r.Ok? ==> Some(r.value) == PixelFormat(AttrAt(root, FrameBlockPath, "pixelFormat").value)
    ensures AttrAt(root, FrameBlockPath, "pixelFormat").Err? ==> r == Err(AttrAt(root, FrameBlockPath, "pixelFormat").error)
    ensures AttrAt(root, FrameBlockPath, "pixelFormat").Ok? && r.Err? ==>
              r.error == UnsupportedPixelFormat(AttrAt(root, FrameBlockPath, "pixelFormat").value)
  {
    var name :- AttrAt(root, FrameBlockPath, "pixelFormat");
    match PixelFormat(name)
    case Some(t) => Ok(t)
    case None => Err(UnsupportedPixelFormat(name))
  }

  /** The frame block's type check, then count, pixel format, size and stride, in that order. */
  function FramesInfoOf(root: Element): Result<FramesInfo>
  {
    match CheckFrameBlock(root)
    case Fail(e) => Err(e)
    case Pass =>
      var count :- FrameCount(root);
      var pixel :- FramePixelType(root);
      var size :- FrameSize(root);
      var stride :- FrameStride(root);
      Ok(FramesInfo(count, pixel, size, stride))
  }

  /** The frame layout is found exactly when the block is of type `Frame` and each of its
      four attributes is present and valid; the values are those attributes, as numbers and
      through the pixel-format table; a block of another type is refused by name. */
  lemma FramesInfoOfSpec(root: Element)
    ensures var r := FramesInfoOf(root);
            r.Ok? <==> && AttrAt(root, FrameBlockPath, "type") == Ok("Frame")
                       && FrameCount(root).Ok? && FramePixelType(root).Ok?
                       && FrameSize(root).Ok? && FrameStride(root).Ok?
    ensures var r := FramesInfoOf(root);
            r.Ok? ==> && Some(r.value.count) == ParseInt(AttrAt(root, FrameBlockPath, "count").value)
                      && Some(r.value.pixel) == PixelFormat(AttrAt(root, FrameBlockPath, "pixelFormat").value)
                      && Some(r.value.size) == ParseInt(AttrAt(root, FrameBlockPath, "size").value)
                      && Some(r.value.stride) == ParseInt(AttrAt(root, FrameBlockPath, "stride").value)
    ensures AttrAt(root, FrameBlockPath, "type").Err? ==> FramesInfoOf(root) == Err(AttrAt(root, FrameBlockPath, "type").error)
    ensures AttrAt(root, FrameBlockPath, "type").Ok? && AttrAt(root, FrameBlockPath, "type").value != "Frame"
            ==> FramesInfoOf(root) == Err(NotFrameBlock(AttrAt(root, FrameBlockPath, "type").value))
  {
  }

  /** The frame block's values are its four attributes, read once its type is checked;
      the error is that of the first step that fails. */
  lemma FramesInfoSteps(root: Element)
    ensures FramesInfoOf(root).Ok? <==>
              CheckFrameBlock(root).Pass? && FrameCount(root).Ok? && FramePixelType(root).Ok?
              && FrameSize(root).Ok? && FrameStride(root).Ok?
    ensures CheckFrameBlock(root).Fail? ==> FramesInfoOf(root) == Err(CheckFrameBlock(root).error)
    ensures CheckFrameBlock(root).Pass? && FrameCount(root).Err? ==> FramesInfoOf(root) == Err(FrameCount(root).error)
    ensures CheckFrameBlock(root).Pass? && FrameCount(root).Ok? && FramePixelType(root).Err? ==>
              FramesInfoOf(root) == Err(FramePixelType(root).error)
    ensures CheckFrameBlock(root).Pass? && FrameCount(root).Ok? && FramePixelType(root).Ok? && FrameSize(root).Err? ==>
              FramesInfoOf(root) == Err(FrameSize(root).error)
    ensures CheckFrameBlock(root).Pass? && FrameCount(root).Ok? && FramePixelType(root).Ok? && FrameSize(root).Ok? && FrameStride(root).Err?
            ==> FramesInfoOf(root) == Err(FrameStride(root).error)
    ensures FramesInfoOf(root).Ok? ==>
              FramesInfoOf(root).value ==
                FramesInfo(FrameCount(root).value, FramePixelType(root).value, FrameSize(root).value, FrameStride(root).value)
  {
  }

  /** The assertion that the nested block is of type `Region`. */
  function CheckRegionBlock(root: Element): Outcome
  {
    match AttrAt(root, RegionBlockPath, "type")
    case Err(e) => Fail(e)
    case Ok(t) => if t == "Region" then Pass else Fail(NotRegionBlock(t))
  }

  function RegionHeight(root: Element): Result<int> { IntAttr(root, RegionBlockPath, "height") }
  function RegionWidth(root: Element): Result<int> { IntAttr(root, RegionBlockPath, "width") }

  /** The region block's type check, then `(height, width)`, height first. */
  function RegionSizeOf(root: Element): Result<(int, int)>
  {
    match CheckRegionBlock(root)
    case Fail(e) => Err(e)
    case Pass =>
      var height :- RegionHeight(root);
      var width :- RegionWidth(root);
      Ok((height, width))
  }

  /** The region size is found exactly when the nested block is of type `Region` and both
      dimensions are integers; it is `(height, width)`; a block of another type is refused
      by name. */
  lemma RegionSizeOfSpec(root: Element)
    ensures var r := RegionSizeOf(root);
            r.Ok? <==> && AttrAt(root, RegionBlockPath, "type") == Ok("Region")
                       && RegionHeight(root).Ok? && RegionWidth(root).Ok?
    ensures var r := RegionSizeOf(root);
            r.Ok? ==> && Some(r.value.0) == ParseInt(AttrAt(root, RegionBlockPath, "height").value)
                      && Some(r.value.1) == ParseInt(AttrAt(root, RegionBlockPath, "width").value)
    ensures AttrAt(root, RegionBlockPath, "type").Err? ==> RegionSizeOf(root) == Err(AttrAt(root, RegionBlockPath, "type").error)
    ensures AttrAt(root, RegionBlockPath, "type").Ok? && AttrAt(root, RegionBlockPath, "type").value != "Region"
            ==> RegionSizeOf(root) == Err(NotRegionBlock(AttrAt(root, RegionBlockPath, "type").value))
    ensures CheckRegionBlock(root).Pass? && RegionHeight(root).Err? ==> RegionSizeOf(root) == Err(RegionHeight(root).error)
    ensures CheckRegionBlock(root).Pass? && RegionHeight(root).Ok? && RegionWidth(root).Err? ==>
              RegionSizeOf(root) == Err(RegionWidth(root).error)
  {
  }

  /** `int(attribute)` fails as the lookup of the attribute does, or on a text `int()`
      rejects, naming that text. */
  lemma IntAttrSpec(root: Element, path: seq<string>, name: string)
    ensures IntAttr(root, path, name).Ok? <==> AttrAt(root, path, name).Ok? && ParseInt(AttrAt(root, path, name).value).Some?
    ensures IntAttr(root, path, name).Ok? ==> Some(IntAttr(root, path, name).value) == ParseInt(AttrAt(root, path, name).value)
    ensures AttrAt(root, path, name).Err? ==> IntAttr(root, path, name) == Err(AttrAt(root, path, name).error)
    ensures AttrAt(root, path, name).Ok? && ParseInt(AttrAt(root, path, name).value).None? ==>
              IntAttr(root, path, name) == Err(NotAnInteger(AttrAt(root, path, name).value))
  {
  }

  /** The index of the first field from `start` on that `float()` rejects, if any. */
  function FirstNonFloat(fields: seq<string>, start: nat): (r: Option<nat>)
    ensures r.None? <==> forall i :: start <= i < |fields| ==> IsFloatLiteral(fields[i])
    ensures r.Some? ==> start <= r.value < |fields| && !IsFloatLiteral(fields[r.value])
                        && forall i :: start <= i < r.value ==> IsFloatLiteral(fields[i])
    decreases |fields| - start
  {
    if start >= |fields| then None
    else if !IsFloatLiteral(fields[start]) then Some(start)
    else FirstNonFloat(fields, start + 1)
  }

  /** The wavelength text split at commas; every field must be a number for `float()`.
      The numbers themselves are kept as their text. */
  function WavelengthsOf(root: Element): Result<seq<string>>
  {
    match TextAt(root, WavelengthPath)
    case Err(e) => Err(e)
    case Ok(text) => WavelengthFields(text)
  }

  /** The fields of one wavelength text, or the first one `float()` rejects. */
  function WavelengthFields(text: string): Result<seq<string>>
  {
    var fields := Split(text, ',');
    var bad := FirstNonFloat(fields, 0);
    if bad.None? then Ok(fields) else Err(NotAFloat(fields[bad.value]))
  }

  /** The fields are the comma-separated pieces of the text, one more than its commas, which
      they join back into; all of them are numbers, and otherwise the first that is not is
      the error. */
  lemma WavelengthFieldsSpec(text: string)
    ensures var r := WavelengthFields(text);
            r.Ok? ==> |r.value| == Count(text, ',') + 1 && Join(r.value, ',') == text
    ensures var r := WavelengthFields(text);
            r.Ok? ==> forall i :: 0 <= i < |r.value| ==> IsFloatLiteral(r.value[i]) && ',' !in r.value[i]
    ensures var r := WavelengthFields(text);
            r.Err? ==> exists i :: 0 <= i < |Split(text, ',')| && r.error == NotAFloat(Split(text, ',')[i])
                                   && !IsFloatLiteral(Split(text, ',')[i])
                                   && forall j :: 0 <= j < i ==> IsFloatLiteral(Split(text, ',')[j])
  {
    JoinSplit(text, ',');
    SplitFields(text, ',');
    SplitCount(text, ',');
  }

  /** The wavelengths are found exactly when the text is, and then are its fields. */
  lemma WavelengthsSpec(root: Element)
    ensures WavelengthsOf(root).Ok? ==> TextAt(root, WavelengthPath).Ok?
    ensures TextAt(root, WavelengthPath).Err? ==> WavelengthsOf(root) == Err(TextAt(root, WavelengthPath).error)
    ensures TextAt(root, WavelengthPath).Ok? ==> WavelengthsOf(root) == WavelengthFields(TextAt(root, WavelengthPath).value)
    ensures var r := WavelengthsOf(root);
            r.Ok? ==> && |r.value| == Count(TextAt(root, WavelengthPath).value, ',') + 1
                      && Join(r.value, ',') == TextAt(root, WavelengthPath).value
                      && forall i :: 0 <= i < |r.value| ==> IsFloatLiteral(r.value[i]) && ',' !in r.value[i]
  {
    if TextAt(root, WavelengthPath).Ok? {
      WavelengthFieldsSpec(TextAt(root, WavelengthPath).value);
    }
  }

  /** The exposure-time text; it must be a number for `float()`, and is kept as text. */
  function ExposureTimeOf(root: Element): (r: Result<string>)
    ensures r.Ok? <==> TextAt(root, ExposureTimePath).Ok? && IsFloatLiteral(TextAt(root, ExposureTimePath).value)
    ensures r.Ok? ==> r.value == TextAt(root, ExposureTimePath).value
    ensures TextAt(root, ExposureTimePath).Err? ==> r == Err(TextAt(root, ExposureTimePath).error)
    ensures TextAt(root, ExposureTimePath).Ok? && !IsFloatLiteral(TextAt(root, ExposureTimePath).value) ==>
              r == Err(NotAFloat(TextAt(root, ExposureTimePath).value))
  {
    var text :- TextAt(root, ExposureTimePath);
    if IsFloatLiteral(text) then Ok(text) else Err(NotAFloat(text))
  }

  /** The region block is found by looking up the frame block first, then its only child
      block: a frame block with several region blocks is a list, and has no region size. */
  lemma RegionUnderFrameBlock(root: Element, name: string)
    ensures AttrAt(root, RegionBlockPath, name) ==
            match Lookup(ValueOf(Document(root)), FrameBlockPath)
            case Err(e) => Err(e)
            case Ok(block) => (var v :- Index(block, "DataBlock"); AttrOf(v, name))
  {
    var doc := ValueOf(Document(root));
    LookupAppend(doc, FrameBlockPath, ["DataBlock"]);
    match Lookup(doc, FrameBlockPath)
    case Err(_) =>
    case Ok(block) =>
      assert Lookup(block, ["DataBlock"]) == (var v :- Index(block, "DataBlock"); Lookup(v, []));
  }
}
