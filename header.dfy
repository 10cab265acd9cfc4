/** The fixed offsets of the SPE 3 layout and the two header reads: the format version,
    and the 64-bit offset of the XML footer, which runs from there to the end of file. */
module Header {
  import opened Results
  import opened Bytes
  import opened XmlTree
  import opened Float32

  /** Where the format version (a float32) is stored. */
  const VersionOffset: nat := 1992
  /** Where the unsigned 64-bit offset of the XML footer is stored. */
  const FooterOffsetPos: nat := 678
  /** Where the frame payload starts. */
  const DataOffset: nat := 4100

  lemma Pow256Constants()
    ensures Pow256(4) == 0x1_0000_0000 && Pow256(8) == 0x1_0000_0000_0000_0000
  {
  }

  /** The version word, as its raw float32 bit pattern: `[0]` of a one-element read, which
      fails when no whole element is left at that position. */
  function ReadVersion(file: seq<byte>): (r: Result<Word>)
    ensures r.Ok? <==> |file| >= VersionOffset + 4
    ensures r.Ok? ==> r.value == LittleEndian(file[VersionOffset .. VersionOffset + 4])
    ensures r.Err? ==> r.error == ShortRead(VersionOffset)
  {
    var words := ReadAt(file, VersionOffset, 1, 4).value;
    ReadAtCount(file, VersionOffset, 1, 4);
    if |words| == 0 then Err(ShortRead(VersionOffset))
    else
      ReadAtWindow(file, VersionOffset, 1, 4, 0);
      LittleEndianBound(file[VersionOffset .. VersionOffset + 4]);
      Pow256Constants();
      Ok(words[0])
  }

  /** The footer offset: `[0]` of a one-element read of an unsigned 64-bit integer. */
  function ReadFooterOffset(file: seq<byte>): (r: Result<nat>)
    ensures r.Ok? <==> |file| >= FooterOffsetPos + 8
    ensures r.Ok? ==> r.value == LittleEndian(file[FooterOffsetPos .. FooterOffsetPos + 8])
    ensures r.Err? ==> r.error == ShortRead(FooterOffsetPos)
  {
    var words := ReadAt(file, FooterOffsetPos, 1, 8).value;
    ReadAtCount(file, FooterOffsetPos, 1, 8);
    if |words| == 0 then Err(ShortRead(FooterOffsetPos))
    else
      ReadAtWindow(file, FooterOffsetPos, 1, 8, 0);
      Ok(words[0])
  }

  /** Seek to the footer offset, read to the end of file, and hand the text to the XML
      parser, which is a parameter of the model. */
  function ReadFooter(file: seq<byte>, parser: seq<byte> -> Option<Element>): (r: Result<Element>)
    ensures r.Ok? <==> && ReadFooterOffset(file).Ok?
                       && ReadFooterOffset(file).value < MaxSeek
                       && parser(Remaining(file, ReadFooterOffset(file).value)).Some?
    ensures r.Ok? ==> Some(r.value) == parser(Remaining(file, ReadFooterOffset(file).value))
    ensures ReadFooterOffset(file).Err? ==> r == Err(ShortRead(FooterOffsetPos))
    ensures ReadFooterOffset(file).Ok? && ReadFooterOffset(file).value >= MaxSeek ==>
              r == Err(BadSeek(ReadFooterOffset(file).value))
    ensures ReadFooterOffset(file).Ok? && ReadFooterOffset(file).value < MaxSeek
            && parser(Remaining(file, ReadFooterOffset(file).value)).None?
            ==> r == Err(MalformedFooter)
  {
    var offset :- ReadFooterOffset(file);
    if offset >= MaxSeek then Err(BadSeek(offset))
    else
      match parser(Remaining(file, offset))
      case None => Err(MalformedFooter)
      case Some(root) => Ok(root)
  }
}
