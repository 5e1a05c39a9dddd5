/** The signature classifier of the `/upload` handler (index.js 145-154): the first
    four bytes of an attachment decide whether it is a PDF, a PNG or an MP4. */
module Signature {

  import opened Wrappers
  import opened Seqs
  import opened Hex

  /** The three extensions the handler can assign. */
  datatype Tag = Pdf | Png | Mp4

  /** The extension text written after the `.` of a renamed file. */
  function Extension(t: Tag): (e: string)
    ensures |e| == 3 && '.' !in e
  {
    match t
    case Pdf => "pdf"
    case Png => "png"
    case Mp4 => "mp4"
  }

  /** `%PDF`, the file header of section 7.5.2 of ISO 32000-1. */
  const PdfMagic: Bytes := [0x25, 0x50, 0x44, 0x46]
  /** The first four of the eight bytes of the PNG signature (section 5.2 of the PNG specification). */
  const PngMagic: Bytes := [0x89, 0x50, 0x4E, 0x47]
  /** An ISO media file whose first box (`ftyp`) is 32 bytes long. */
  const Mp4Magic32: Bytes := [0x00, 0x00, 0x00, 0x20]
  /** An ISO media file whose first box (`ftyp`) is 24 bytes long. */
  const Mp4Magic24: Bytes := [0x00, 0x00, 0x00, 0x18]

  /** `fileBuffer.slice(0, 4).toString('hex')`: at most the first four bytes, in hex. */
  function HeaderHex(content: Bytes): (h: string)
    ensures |h| == 2 * Min(4, |content|)
  {
    ToHex(content[..Min(4, |content|)])
  }

  /** The classifier as the handler writes it: `startsWith` tests of the hex header
      against lower-case hex patterns, in the order PDF, PNG, MP4. */
  function ClassifyHex(content: Bytes): Option<Tag>
  {
    var header := HeaderHex(content);
    if StartsWith(header, "25504446") then Some(Pdf)
    else if StartsWith(header, "89504e47") then Some(Png)
    else if StartsWith(header, "00000020") || StartsWith(header, "00000018") then Some(Mp4)
    else None
  }

  /** One row of the signature table: a byte prefix and the tag it implies. */
  datatype Sig = Sig(magic: Bytes, tag: Tag)

  /** The fixed signature table, as bytes rather than hex text. */
  const Table: seq<Sig> :=
    [Sig(PdfMagic, Pdf), Sig(PngMagic, Png), Sig(Mp4Magic32, Mp4), Sig(Mp4Magic24, Mp4)]

  /** Whether the content begins with the row's magic bytes. */
  predicate Matches(content: Bytes, s: Sig)
  {
    StartsWith(content, s.magic)
  }

  /** The same tests on the bytes themselves, in the same order: the classifier the
      rest of the model uses. `ClassifyHexIsClassify` proves it equal to `ClassifyHex`. */
  function Classify(content: Bytes): Option<Tag>
  {
    if StartsWith(content, PdfMagic) then Some(Pdf)
    else if StartsWith(content, PngMagic) then Some(Png)
    else if StartsWith(content, Mp4Magic32) || StartsWith(content, Mp4Magic24) then Some(Mp4)
    else None
  }

  /** The four hex patterns of the source are exactly the hex spelling of the four magics. */
  lemma PatternsAreMagics()
    ensures ToHex(PdfMagic) == "25504446"
    ensures ToHex(PngMagic) == "89504e47"
    ensures ToHex(Mp4Magic32) == "00000020"
    ensures ToHex(Mp4Magic24) == "00000018"
  {
  }

  /** A hex `startsWith` on the header holds exactly when the bytes themselves start with
      the four-byte magic: short contents give a short header, which no 8-digit pattern prefixes. */
  lemma HeaderStartsWith(content: Bytes, magic: Bytes)
    requires |magic| == 4
    ensures StartsWith(HeaderHex(content), ToHex(magic)) <==> StartsWith(content, magic)
  {
    if |content| >= 4 {
      var header := HeaderHex(content);
      assert |header| == 8 == |ToHex(magic)|;
      if StartsWith(header, ToHex(magic)) {
        assert header[..8] == header;
        ToHexInjective(content[..4], magic);
      }
    }
  }

  /** The hex-string classifier of the source and the byte-prefix classifier agree
      on every input. */
  lemma ClassifyHexIsClassify(content: Bytes)
    ensures ClassifyHex(content) == Classify(content)
  {
    PatternsAreMagics();
    HeaderStartsWith(content, PdfMagic);
    HeaderStartsWith(content, PngMagic);
    HeaderStartsWith(content, Mp4Magic32);
    HeaderStartsWith(content, Mp4Magic24);
  }

  /** The handler's classifier chooses each tag exactly when the content starts with
      one of that tag's magics, and no tag exactly when it starts with none of them. */
  lemma ClassifySpec(content: Bytes)
    ensures ClassifyHex(content) == Some(Pdf) <==> StartsWith(content, PdfMagic)
    ensures ClassifyHex(content) == Some(Png) <==> StartsWith(content, PngMagic)
    ensures ClassifyHex(content) == Some(Mp4) <==>
              StartsWith(content, Mp4Magic32) || StartsWith(content, Mp4Magic24)
    ensures ClassifyHex(content) == None <==>
              !StartsWith(content, PdfMagic) && !StartsWith(content, PngMagic) &&
              !StartsWith(content, Mp4Magic32) && !StartsWith(content, Mp4Magic24)
  {
    ClassifyHexIsClassify(content);
  }

  /** Content shorter than four bytes is never classified. */
  lemma ShortContentUnclassified(content: Bytes)
    requires |content| < 4
    ensures ClassifyHex(content) == None
  {
    ClassifyHexIsClassify(content);
  }

  /** Only the first four bytes are read: two contents that agree on them
      (or are equal and shorter) classify identically. */
  lemma ClassifyReadsHeaderOnly(c: Bytes, d: Bytes)
    requires c[..Min(4, |c|)] == d[..Min(4, |d|)]
    ensures Classify(c) == Classify(d)
  {
    if |c| >= 4 {
      assert c[..4] == d[..4];
    }
  }

  /** No content starts with two different magics, so the table order decides nothing:
      whichever row matches is the only row that matches. */
  lemma AtMostOneSignature(content: Bytes, i: nat, j: nat)
    requires i < |Table| && j < |Table|
    requires Matches(content, Table[i]) && Matches(content, Table[j])
    ensures i == j
  {
    assert Table[i].magic == content[..4] == Table[j].magic;
  }

  /** Whichever table row the content matches decides its tag, whatever the row's
      position in the table. */
  lemma ClassifyByRow(content: Bytes, i: nat)
    requires i < |Table| && Matches(content, Table[i])
    ensures Classify(content) == Some(Table[i].tag)
  {
    forall j | 0 <= j < |Table| && Matches(content, Table[j])
      ensures j == i
    {
      AtMostOneSignature(content, i, j);
    }
    assert Matches(content, Table[0]) == StartsWith(content, PdfMagic);
    assert Matches(content, Table[1]) == StartsWith(content, PngMagic);
    assert Matches(content, Table[2]) == StartsWith(content, Mp4Magic32);
    assert Matches(content, Table[3]) == StartsWith(content, Mp4Magic24);
  }

}
