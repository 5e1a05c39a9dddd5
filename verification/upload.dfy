/** The `/upload` request as a whole (index.js 94-196): reject a request without a
    file, extract the container, require an `attachments` entry, process every
    attachment, and hand back the archive of the renamed files. The container's
    extracted tree and the output archive are modelled as plain values: the
    extraction library's result is an input, and the archive is the map of the
    files it holds. */
module Upload {

  import opened Wrappers
  import opened Seqs
  import opened Hex
  import opened Signature
  import opened Rename
  import opened Processor

  /** A file or directory of the extracted container. */
  datatype Node = File(content: Bytes) | Dir(entries: seq<Entry>)

  /** A named entry of a directory, in the order the directory listing gives it. */
  datatype Entry = Entry(name: string, node: Node)

  /** The top level of the extracted container: name to node. */
  type Tree = map<string, Node>

  /** What the zip extraction produced: the tree, or an error because the container
      is not a readable archive. */
  datatype Container = Extracted(tree: Tree) | Corrupt

  /** The uploaded file. Its name only decides where it is stored in the working
      directory, which the model leaves out, so only its extracted content is kept. */
  datatype UploadedFile = UploadedFile(container: Container)

  /** The stage at which a request that got past the upload check stopped. */
  datatype Stage =
    | Extracting   // the extraction stream reported an error
    | Validating   // no `attachments` entry in the extracted tree
    | Reading      // `attachments` is not a directory, or one of its entries is not a file

  /** The three ways a request ends. */
  datatype Outcome = Rejected | Failed(stage: Stage) | Ready(archive: Output)

  const AttachmentsDir: string := "attachments"

  /** Read every entry of the `attachments` directory as a file (`readFileSync`); an
      entry that is itself a directory cannot be read, which aborts the request. */
  function ReadFiles(entries: seq<Entry>): (r: Option<seq<Attachment>>)
    ensures r.Some? <==> forall i :: 0 <= i < |entries| ==> entries[i].node.File?
    ensures r.Some? ==> |r.value| == |entries|
    ensures r.Some? ==> forall i :: 0 <= i < |entries| ==>
              r.value[i] == Attachment(entries[i].name, entries[i].node.content)
  {
    if |entries| == 0 then Some([])
    else match entries[0].node
      case Dir(_) => None
      case File(c) =>
        match ReadFiles(entries[1..])
        case None => None
        case Some(rest) => Some([Attachment(entries[0].name, c)] + rest)
  }

  /** `attachments` cannot be listed (it is a plain file, and `readdirSync` throws) or
      one of its entries cannot be read (it is a directory, and `readFileSync` throws). */
  predicate Unreadable(attachments: Node)
  {
    attachments.File? ||
    exists i :: 0 <= i < |attachments.entries| && attachments.entries[i].node.Dir?
  }

  /** The `/upload` handler. `upload` is `None` when the request carried no file. */
  function HandleUpload(upload: Option<UploadedFile>): (o: Outcome)
    ensures o == Rejected <==> upload.None?
    ensures o == Failed(Extracting) <==> upload.Some? && upload.value.container.Corrupt?
    ensures o == Failed(Validating) <==>
              upload.Some? && upload.value.container.Extracted? &&
              AttachmentsDir !in upload.value.container.tree
    ensures o == Failed(Reading) <==>
              upload.Some? && upload.value.container.Extracted? &&
              AttachmentsDir in upload.value.container.tree &&
              Unreadable(upload.value.container.tree[AttachmentsDir])
    ensures o.Ready? ==>
              var tree := upload.value.container.tree;
              AttachmentsDir in tree && tree[AttachmentsDir].Dir? &&
              |o.archive| <= |tree[AttachmentsDir].entries|
  {
    match upload
    case None => Rejected
    case Some(UploadedFile(Corrupt)) => Failed(Extracting)
    case Some(UploadedFile(Extracted(tree))) =>
      if AttachmentsDir !in tree then Failed(Validating)
      else match tree[AttachmentsDir]
        case File(_) => Failed(Reading)
        case Dir(entries) =>
          match ReadFiles(entries)
          case None => Failed(Reading)
          case Some(atts) =>
            ProcessSize(atts);
            Ready(Process(atts))
  }

  /** When every entry of `attachments` is a file, the request completes with the
      output of the processing loop over those files, in listing order. */
  lemma ReadyWhenAllFiles(tree: Tree)
    requires AttachmentsDir in tree && tree[AttachmentsDir].Dir?
    requires forall e :: e in tree[AttachmentsDir].entries ==> e.node.File?
    ensures ReadFiles(tree[AttachmentsDir].entries).Some?
    ensures HandleUpload(Some(UploadedFile(Extracted(tree)))) ==
              Ready(Process(ReadFiles(tree[AttachmentsDir].entries).value))
  {
    var entries := tree[AttachmentsDir].entries;
    forall i | 0 <= i < |entries|
      ensures entries[i].node.File?
    {
      assert entries[i] in entries;
    }
  }

  /** A request whose `attachments` directory holds only files completes, and its
      archive holds exactly the renamed classified files, each a byte-exact copy of
      the last attachment renamed to that name, and every name tagged. */
  lemma ReadyArchive(tree: Tree)
    requires AttachmentsDir in tree && tree[AttachmentsDir].Dir?
    requires forall e :: e in tree[AttachmentsDir].entries ==> e.node.File?
    ensures HandleUpload(Some(UploadedFile(Extracted(tree)))).Ready?
    ensures var archive := HandleUpload(Some(UploadedFile(Extracted(tree)))).archive;
            var atts := ReadFiles(tree[AttachmentsDir].entries).value;
            && (forall key :: key in archive <==> exists i :: 0 <= i < |atts| && WritesTo(atts, i, key))
            && (forall key :: key in archive ==> Tagged(key))
            && (forall key, i :: 0 <= i < |atts| && LastWriter(atts, i, key) ==>
                  key in archive && archive[key] == tree[AttachmentsDir].entries[i].node.content)
  {
    ReadyWhenAllFiles(tree);
    var atts := ReadFiles(tree[AttachmentsDir].entries).value;
    ProcessKeys(atts);
    ProcessKeysTagged(atts);
    forall key, i | 0 <= i < |atts| && LastWriter(atts, i, key)
      ensures key in Process(atts) && Process(atts)[key] == atts[i].content
    {
      ProcessLastWins(atts, i, key);
    }
  }

  /** An `attachments` directory with no entry, or with no classifiable file, still
      completes, with an empty archive. */
  lemma NothingToRename(tree: Tree)
    requires AttachmentsDir in tree && tree[AttachmentsDir].Dir?
    requires forall e :: e in tree[AttachmentsDir].entries ==>
               e.node.File? && Classify(e.node.content) == None
    ensures HandleUpload(Some(UploadedFile(Extracted(tree)))) == Ready(map[])
  {
    var entries := tree[AttachmentsDir].entries;
    assert forall i :: 0 <= i < |entries| ==> entries[i].node.File? && Classify(entries[i].node.content) == None by {
      forall i | 0 <= i < |entries|
        ensures entries[i].node.File? && Classify(entries[i].node.content) == None
      {
        assert entries[i] in entries;
      }
    }
    NothingClassified(ReadFiles(entries).value);
  }

  /** A container whose `attachments` directory lists two files completes with the
      processing of those two files, in listing order. */
  lemma TwoFiles(tree: Tree, a: Attachment, b: Attachment)
    requires tree == map[AttachmentsDir := Dir([Entry(a.name, File(a.content)), Entry(b.name, File(b.content))])]
    ensures HandleUpload(Some(UploadedFile(Extracted(tree)))) == Ready(Step(Step(map[], a), b))
  {
    ReadyWhenAllFiles(tree);
    var listed := ReadFiles(tree[AttachmentsDir].entries).value;
    assert listed[0] == a && listed[1] == b;
    assert listed == [a, b];
    ProcessPair(a, b);
  }

  /** The loop over `note1` starting `%PDF` and `note2` starting `FF FF FF FF`. */
  lemma PdfAndUnknownSteps(pdf: Bytes, junk: Bytes)
    requires StartsWith(pdf, PdfMagic)
    requires StartsWith(junk, [0xFF, 0xFF, 0xFF, 0xFF])
    ensures Step(Step(map[], Attachment("note1", pdf)), Attachment("note2", junk)) == map["note1.pdf" := pdf]
  {
    hide Classify, NewName;
    var a, b := Attachment("note1", pdf), Attachment("note2", junk);
    assert Classify(junk) == None by {
      ClassifyHexIsClassify(junk);
      ClassifySpec(junk);
      assert junk[..4] == [0xFF, 0xFF, 0xFF, 0xFF];
    }
    ClassifyByRow(pdf, 0);
    NewNameWithoutDot("note1", Pdf);
    assert "note1" + "." + Extension(Pdf) == "note1.pdf";
    StepClassified(map[], a, Pdf);
    StepSkipped(map["note1.pdf" := pdf], b);
  }

  /** A container with `note1` starting `%PDF` and `note2` starting `FF FF FF FF`
      yields an archive holding exactly `note1.pdf`, with `note1`'s bytes. */
  lemma PdfAndUnknown(tree: Tree, pdf: Bytes, junk: Bytes)
    requires StartsWith(pdf, PdfMagic)
    requires StartsWith(junk, [0xFF, 0xFF, 0xFF, 0xFF])
    requires tree == map[AttachmentsDir := Dir([Entry("note1", File(pdf)), Entry("note2", File(junk))])]
    ensures HandleUpload(Some(UploadedFile(Extracted(tree)))) == Ready(map["note1.pdf" := pdf])
  {
    TwoFiles(tree, Attachment("note1", pdf), Attachment("note2", junk));
    PdfAndUnknownSteps(pdf, junk);
  }

  /** `a.x` and `a.y` both become `a.png`. */
  lemma SameStemNames()
    ensures NewName("a.x", Png) == "a.png" && NewName("a.y", Png) == "a.png"
  {
    NewNameOfDottedName("a.x", Png, 1);
    NewNameOfDottedName("a.y", Png, 1);
  }

  /** The loop over `a.x` and `a.y`, both starting with the PNG magic. */
  lemma SameStemSteps(first: Bytes, second: Bytes)
    requires StartsWith(first, PngMagic) && StartsWith(second, PngMagic)
    ensures Step(Step(map[], Attachment("a.x", first)), Attachment("a.y", second)) == map["a.png" := second]
  {
    hide Classify, NewName;
    var a, b := Attachment("a.x", first), Attachment("a.y", second);
    ClassifyByRow(first, 1);
    ClassifyByRow(second, 1);
    SameStemNames();
    StepClassified(map[], a, Png);
    StepClassified(map["a.png" := first], b, Png);
    assert map["a.png" := first]["a.png" := second] == map["a.png" := second];
  }

  /** Two attachments with the same stem and the same kind collide: only one entry is
      written, with the bytes of the one listed later. */
  lemma SameStemLaterWins(tree: Tree, first: Bytes, second: Bytes)
    requires StartsWith(first, PngMagic) && StartsWith(second, PngMagic)
    requires tree == map[AttachmentsDir := Dir([Entry("a.x", File(first)), Entry("a.y", File(second))])]
    ensures HandleUpload(Some(UploadedFile(Extracted(tree)))) == Ready(map["a.png" := second])
  {
    TwoFiles(tree, Attachment("a.x", first), Attachment("a.y", second));
    SameStemSteps(first, second);
  }

  /** `a` and `b`, both starting with the PNG pattern, have different stems and so
      do not collide: both are kept, each with its own bytes. */
  lemma DistinctStemsKept(p: Bytes, q: Bytes)
    requires StartsWith(p, PngMagic) && StartsWith(q, PngMagic)
    ensures Process([Attachment("a", p), Attachment("b", q)]) == map["a.png" := p, "b.png" := q]
  {
    hide Classify, NewName;
    var a, b := Attachment("a", p), Attachment("b", q);
    ClassifyByRow(p, 1);
    ClassifyByRow(q, 1);
    NewNameWithoutDot("a", Png);
    NewNameWithoutDot("b", Png);
    assert "a" + "." + Extension(Png) == "a.png";
    assert "b" + "." + Extension(Png) == "b.png";
    ProcessPair(a, b);
    StepClassified(map[], a, Png);
    StepClassified(map["a.png" := p], b, Png);
  }

}
