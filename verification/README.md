# goodfiles: attachment classification and renaming

A Dafny model of the `/upload` handler of the GoodNotes file processor
(`index.js`). A user uploads a `.goodnotes` container, which is a zip archive.
The handler extracts it and looks for its `attachments` directory. It reads
every attachment and decides from its first four bytes whether it is a PDF, a
PNG or an MP4. It copies each recognised attachment under its old name with the
right extension, and returns the copies as `processed_files.zip`.

The model has five modules, one per stage of the pipeline:

- `Hex` (`hex.dfy`): bytes, and the lower-case hex encoding that
  `Buffer.toString('hex')` produces.
- `Signature` (`signature.dfy`): the classifier. `ClassifyHex` follows the
  source exactly: it takes at most the first four bytes, spells them in hex, and
  runs `startsWith` against the four hex patterns. `Classify` makes the same
  tests on the bytes themselves. `ClassifyHexIsClassify` proves the two agree on
  every input, and the rest of the model uses `Classify`. `Table` lists the
  four signatures as (bytes, tag) rows.
- `Rename` (`rename.dfy`): Node's `path.extname` and `path.basename(name, ext)`
  for names without `/`, and the new name `basename + "." + tag`.
- `Processor` (`processor.dfy`): the loop over the attachments. It is a left
  fold (`Process`) into a map from file name to content. `ProcessLoop` is the
  same loop written as a `while` loop.
- `Upload` (`upload.dfy`): the request as a whole. It yields one of three
  outcomes: `Rejected`, `Failed(stage)` or `Ready(archive)`.

`Wrappers` and `Seqs` hold the `Option` type and the prefix and suffix tests.

Modelling choices:

- A byte is an integer from 0 to 255 (`uint8`), and a file's content is a
  `seq<uint8>`.
- The extracted container is a map from top-level name to `Node`. A `Node` is a
  file with content, or a directory with a list of entries. The list is in the
  order `readdirSync` returns. The model takes that order as given.
- The zip library's result is an input (`Container`): either the tree or
  `Corrupt`.
- The output archive is the map of the files it holds.
- `copyFileSync` overwrites an existing file by default, so it is a map update.
  A later attachment with the same new name therefore replaces an earlier one.
- The handler sends the same HTTP 500 response for every failure inside its
  `try`. `Failed(stage)` still records which stage failed: `Extracting`,
  `Validating` (no `attachments` entry) or `Reading`. `Reading` covers an
  `attachments` entry that is a plain file (`readdirSync` throws), and a
  subdirectory among the attachments (`readFileSync` throws). An abort discards
  the copies made before it, so the model reports only the failure.
- On a case-sensitive file system, two attachments collide exactly when they
  have the same stem and the same tag (`NewNameCollision`). For example, `a.x` and `a.y` both become `a.png`. Attachments
  `a` and `b` become `a.png` and `b.png`, which do not collide.
  `SameStemLaterWins` states the collision case, and `DistinctStemsKept` states
  the case without a collision.
- The PNG pattern is only the first four of the eight bytes of the PNG
  signature (section 5.2 of the PNG specification). The two MP4 patterns are the
  box sizes 32 and 24 of a leading `ftyp` box. Both are modelled as the code
  writes them.

## Model

| member | source | states |
|---|---|---|
| Hex.ToHex | index.js:145 | the hex header has two lower-case digits per byte, high nibble first, so it is twice as long as the bytes |
| Hex.ToHexInjective | index.js:145 | the hex spelling loses nothing: equal hex text comes from equal bytes |
| Signature.PatternsAreMagics | index.js:148-153 | the four hex patterns of the code are exactly the hex spelling of `%PDF`, `89 50 4E 47`, `00 00 00 20` and `00 00 00 18` |
| Signature.HeaderStartsWith | index.js:145-153 | a hex `startsWith` on the header of at most four bytes holds exactly when the content starts with the four magic bytes; shorter content never matches |
| Signature.ClassifyHexIsClassify | index.js:145-154 | the hex-string classifier of the code and the byte-prefix classifier agree on every input |
| Signature.HeaderHex | index.js:145 | the hex spelling of at most the first four bytes, twice as long as that prefix; `HeaderStartsWith` states when it starts with a pattern |
| Signature.ClassifyHex | index.js:145-154 | no contract of its own; `ClassifySpec` states its result for each tag and for no tag, and `ClassifyHexIsClassify` equates it with the byte classifier |
| Signature.ClassifySpec | index.js:145-154 | `pdf` exactly for content starting `25 50 44 46`; `png` exactly for `89 50 4E 47`; `mp4` exactly for `00 00 00 20` or `00 00 00 18`; no extension exactly when none of the four matches |
| Signature.ShortContentUnclassified | index.js:145-154 | content shorter than four bytes gets no extension |
| Signature.ClassifyReadsHeaderOnly | index.js:145 | two contents that agree on their first four bytes (or are equal and shorter) get the same extension |
| Signature.AtMostOneSignature | index.js:148-153 | no content starts with two different patterns, so at most one extension applies |
| Signature.ClassifyByRow | index.js:148-153 | content that starts with any row's magic gets that row's tag, whatever the row's position in the table |
| Rename.ExtName | index.js:157 | `extname` is a suffix of the name; when it is not empty it starts with its only `.` (so at the last `.` of the name) and is shorter than the name; it is empty exactly when the name has no `.`, when its only `.` is the first character, or when the name is `..` |
| Rename.BaseName | index.js:157 | `basename(name, suffix)` removes a non-empty suffix the name ends with and otherwise returns the name |
| Rename.NewName | index.js:157 | the new name ends with `.` and the tag |
| Rename.NewNameCollision | index.js:157-158 | two names are renamed to the same new name exactly when they have the same stem and the same tag, so the new name keeps the stem and the tag recoverable |
| Rename.NewNameReplacesExtension | index.js:157 | a name is its stem followed by its extension, and the new name is that stem followed by `.` and the tag |
| Rename.NewNameWithoutDot | index.js:157 | a name without `.` gets `.` and the tag appended |
| Rename.NewNameOfDotFile | index.js:157 | a name whose only `.` is its first character gets `.` and the tag appended |
| Rename.NewNameOfDottedName | index.js:157 | when the last `.` is after the first character, everything from it on is replaced by `.` and the tag |
| Rename.RenameTwice | index.js:157 | renaming an already renamed name with another tag gives the same result as renaming the original with that tag |
| Rename.NewNameIdempotent | index.js:157 | renaming an already renamed name with the same tag leaves it unchanged |
| Processor.Step | index.js:145-158 | no contract of its own; one iteration, classifying with the byte classifier that `ClassifyHexIsClassify` equates with the hex chain: a classified attachment is written under its new name and nothing else changes; an unclassified one leaves the output unchanged (`StepClassified`, `StepSkipped` state this) |
| Processor.Process | index.js:140-163 | no contract of its own; the fold of `Step` over the attachments in enumeration order; `ProcessKeys`, `ProcessLastWins` and `ProcessCopiesContent` state its result |
| Processor.ProcessKeys | index.js:140-163 | the output holds exactly the new names of the classified attachments |
| Processor.ProcessLastWins | index.js:140-158 | each output entry holds the bytes of the last attachment, in enumeration order, whose new name it is |
| Processor.ProcessCopiesContent | index.js:142-158 | every output entry is a byte-exact copy of an attachment that was renamed to its name |
| Processor.ProcessKeysTagged | index.js:156-158 | every output name ends in `.pdf`, `.png` or `.mp4` |
| Processor.ProcessSize | index.js:140-163 | the output has at most as many entries as there are attachments |
| Processor.SkipUnclassified | index.js:156-162 | an unclassified attachment anywhere in the enumeration contributes nothing, and the attachments after it are still processed |
| Processor.NothingClassified | index.js:140-163 | with no classifiable attachment, or none at all, the output is empty |
| Processor.ProcessLoop | index.js:140-163 | the loop over the attachments computes the fold, and its output is tagged and no larger than the input |
| Upload.ReadFiles | index.js:133-142 | the attachments are read as files in listing order exactly when none of them is a directory |
| Upload.HandleUpload | index.js:94-196 | no file means rejected; an unreadable container fails at extraction; no `attachments` entry fails at validation; an `attachments` entry that is a file, or a subdirectory among the attachments, fails at reading; each exactly; a completed request had an `attachments` directory and its archive has no more entries than that directory |
| Upload.ReadyWhenAllFiles | index.js:128-163 | with an `attachments` directory of files only, the request completes with the loop's output over those files |
| Upload.ReadyArchive | index.js:140-177 | a completed archive holds exactly the renamed classified files, each tagged and each holding the bytes of the last attachment renamed to it |
| Upload.NothingToRename | index.js:140-177 | an `attachments` directory that is empty or has no classifiable file still completes, with an empty archive |
| Upload.PdfAndUnknown | index.js:140-163 | `note1` starting `%PDF` and `note2` starting `FF FF FF FF` give exactly `note1.pdf` with `note1`'s bytes |
| Upload.SameStemLaterWins | index.js:156-158 | `a.x` and `a.y`, both starting with the PNG pattern, give the single entry `a.png` with `a.y`'s bytes |
| Upload.DistinctStemsKept | index.js:156-158 | `a` and `b`, both starting with the PNG pattern, give the two entries `a.png` and `b.png`, each with its own bytes |

## Left out

- The Express server, the inline HTML form and `app.listen` (index.js:1-91, 198-200) are transport and presentation.
- Zip extraction with `unzipper` and archive creation with `archiver` at compression level 9 (index.js:118-122, 165-177) are foreign library calls. The extracted tree is an input, and the archive is the map of its files. So a pack-and-unpack round trip holds by construction and is not stated.
- File-system effects are not modelled: `mkdirSync`, `mv`, `renameSync`, `rmSync` and `res.download` (index.js:100-108, 115, 138, 181-187, 194). `copyFileSync` (index.js:158) is modelled as a map update. The working directory is shared by all requests (index.js:100), so overlapping requests can interfere. This is concurrency and is not modelled. Nor is the effect of the uploaded file's own name on where it is stored (index.js:107).
- Logging, HTTP status codes and message texts (index.js:111-126, 159-161, 182, 190-191) are not modelled. `Failed(stage)` keeps the stage, which the response does not show.
- Upload.HandleUpload: every outcome after the upload check assumes that `renameSync` (index.js:115) succeeds. It runs inside the `try` before extraction, and if it fails the request goes to the catch at index.js:189-191 before anything is extracted or validated. `Ready` also assumes that `mkdirSync` (index.js:138), each `copyFileSync` (index.js:158) and the archive creation, whose `'error'` event rejects (index.js:175), succeed; in the source any of these failing gives the same failure response. The model has no outcome for them, and in particular no separate packing failure, because they depend on the disk and the archive library. `mkdirSync` (index.js:104-105) and `mv` (index.js:108) run outside the `try`, so a failure there never reaches the response at index.js:191.
- Names are compared exactly, as on a case-sensitive file system. On a case-insensitive one (the macOS and Windows default), `A.png` and `a.png` are the same file, so `copyFileSync` (index.js:158) would overwrite and the archive would hold one entry where the map holds two. There, `existsSync` (index.js:129) would also accept a top-level `Attachments`. The model does not cover case-folding file systems.
- Node's `extname` and `basename` are modelled only for names without `/`. Directory listings never produce such names.
- The model does not say which of several uploaded files `req.files.file` refers to. It also does not model a read error on a single attachment other than the entry being a directory.
