# free-eml-extractor: a verified model of `EMLBatchProcessor`

This project models the batch extractor of `main.py`. The extractor takes a
folder of `.eml` messages and gives each message its own folder under an
output base. Each folder holds `headers.txt`, the first plain-text body as
`body_plain.txt`, the first HTML body as `body_html.html`, and an
`attachments/` directory with one file per named attachment. The batch loop
keeps a count of the files that succeed and of those that fail.

The model has five modules:

- `Wrappers`: `Option` and `Result`.
- `Strings`: the Python string operations the extractor uses, written out on
  `seq<char>`. They are `sub in s`, `str(n)`, `s.replace(c, "_")` and
  `s.strip(". ")`.
- `Naming`: the two sanitizers, `os.path.splitext`, and the two counter loops.
  One loop picks a free folder name in the output base. The other picks a free
  file name in `attachments/`. Each sanitizer is a method with the replacement
  loop of the source, proved equal to a one-pass specification function
  (`FolderName`, `AttachmentName`). The properties are proved about those
  functions.
- `Mime`: the parsed message as a tree of parts, its depth-first walk, and the
  six recognised headers with their `N/A` default. It also holds the text of
  `headers.txt` and the classification loop over the walked parts.
- `Batch`: the class `BatchProcessor`. Its fields are the stats counters and
  the output base, a map from entry name to folder contents. Its methods are
  `ExtractSingleEmail`, `ProcessFile` (one pass of the batch loop) and
  `ProcessAll`. Each method is proved against the functions `Outcome`,
  `Extracted`, `PlaceFile` and `Run`. Lemmas then state what the batch
  leaves behind: existing entries stay as they were, there is one fresh folder
  per message, and no two messages share a folder.

The file system is not computed. Each input file carries a `Faults` record
that says which of its operations raise:

- creating the message folder;
- writing `headers.txt`, `body_plain.txt` or `body_html.html`;
- creating `attachments/`;
- which attachment writes fail.

A file that cannot be read or parsed has no message. Existence checks are
membership in the keys of the map that models a directory.

Where the code and its written description disagree, the model follows the
code:

- A single-part message is classified by its content type alone. Its
  `Content-Disposition` is never looked at (main.py:108-113).
- `attachment_count` counts every collected attachment, including one whose
  write failed and was caught (main.py:155).
- Only attachment writes are caught inside `extract_single_email`. A failing
  body write, or a failing creation of the message folder or of
  `attachments/`, makes the whole message fail. The body files already
  written stay in place (main.py:116-127, 143-149, 217-219).
- An empty sanitized folder name denotes the output base itself, which
  exists, so the collision loop moves on to `_1` (main.py:193-201).

## Model

| member | source | states |
|---|---|---|
| Strings.ContainsIff | main.py:94 | The substring scan used for `"attachment" in content_disposition` answers yes exactly when the substring occurs at some index. |
| Strings.DecimalInjective | main.py:139 | Different counters render as different decimal strings, so the candidate names `name_1`, `name_2`, … are pairwise distinct. |
| Strings.TrimStartShape | main.py:30 | Stripping the front keeps a suffix of the name. It removes only dots and spaces, and the result does not start with either. |
| Strings.TrimEndShape | main.py:30 | Stripping the back keeps a prefix of the name. It removes only dots and spaces, and the result does not end with either. |
| Strings.StripShape | main.py:30 | `strip(". ")` returns a contiguous slice of its argument. Only dots and spaces lie outside the slice, and the slice neither starts nor ends with one. |
| Strings.StripNoOp | main.py:50 | A name that neither starts nor ends with a dot or a space is unchanged by `strip(". ")`. |
| Strings.FlattenSplit | main.py:80-81 | The text written line by line is the lines before line i, then line i, then the lines after it. |
| Naming.ForbiddenLists | main.py:27 | The folder sanitizer's list holds exactly the nine forbidden characters. So do the attachment sanitizer's two separators plus its seven other characters (main.py:42-45). Neither list contains `_`. |
| Naming.ScrubNoOp | main.py:28-29 | A name without forbidden characters is unchanged by the replacements. |
| Naming.SanitizeFolderName | main.py:24-30 | The method drops a case-insensitive `.eml` suffix, runs the replacement loop over the nine characters in order, then strips. Its result is `FolderName`: every forbidden character becomes `_` and every other character stays. |
| Naming.FolderNameClean | main.py:24-30 | A folder name has no forbidden character and neither starts nor ends with a dot or a space. It is no longer than the file name, and it may be empty. |
| Naming.FolderNameOfCleanBase | main.py:26-30 | A file `<base>.eml`, with the suffix in any case, gets the folder `<base>` when `<base>` is already clean. |
| Naming.FolderNameOfCleanName | main.py:26-30 | A clean name without the `.eml` suffix is its own folder name. |
| Naming.SanitizeAttachmentFilename | main.py:33-56 | The method returns early with `unnamed_attachment` for an empty name. Otherwise it replaces `\` and then `/`, runs the loop over the other seven characters, strips, and falls back to `unnamed_attachment` if nothing is left. Its result is `AttachmentName`. |
| Naming.AttachmentNameSafe | main.py:33-56 | An attachment name is never empty, has no forbidden character, and neither starts nor ends with a dot or a space. An empty declared name gives `unnamed_attachment`. Any other result is the fallback or no longer than the declared name. |
| Naming.SafeNameIsFixedPoint | main.py:33-56 | A safe name passes through the attachment sanitizer unchanged. |
| Naming.AttachmentNameIdempotent | main.py:33-56 | Sanitizing an attachment name twice gives the same result as sanitizing it once. |
| Naming.LastDot | main.py:138 | Gives the index of the last dot, or -1: the character there is a dot and no later character is. |
| Naming.OnlyDotsIff | main.py:138 | The recursive "only dots" test holds exactly when every character is a dot. |
| Naming.SplitExtShape | main.py:138 | `splitext` gives a stem and an extension that concatenate back to the name. A non-empty extension is one dot followed by no other dot, and its stem holds a character other than a dot. An empty extension means only dots precede the last dot. |
| Naming.SuffixedInjective | main.py:139 | Two different counters never give the same candidate `stem_k<ext>`. |
| Naming.CandidatesSize | main.py:137-140 | The candidates tried before counter n are n - 1 distinct names. |
| Naming.LeastFreeExists | main.py:198-201 | However many names are taken, some counter gives a free candidate, so each collision loop ends. |
| Naming.LeastFreeUnique | main.py:196-201 | The least free counter is unique. |
| Naming.FirstFreeName | main.py:135-140 | The shared counter loop returns a free name. The name is `first` (counter 0) exactly when `first` is free. Otherwise it is `stem_k<ext>` for the least k ≥ 1 whose candidate is free, and every smaller candidate is taken. |
| Naming.ResolveFolderName | main.py:193-201 | The folder chosen is never taken and never the base itself. It is the sanitized name when that name is free and non-empty. Otherwise it is `name_k` for the least free k ≥ 1, always appended to the original name and never chained. |
| Naming.ResolveAttachmentName | main.py:132-140 | The file chosen is not already in `attachments/`. It is the sanitized name when that name is free. Otherwise it is `stem_k<ext>` for the least free k ≥ 1, with the counter before the extension (`file_1.pdf`). A safe name stays safe. |
| Naming.SuffixedSafe | main.py:138-139 | Putting `_k` before the extension of a safe name keeps it safe. |
| Naming.AttachmentPathSafe | main.py:132-140 | The attachment collision loop started from a safe name ends on a safe name. |
| Naming.FolderPathClean | main.py:196-201 | The folder collision loop adds no forbidden character. |
| Mime.Walk | main.py:89 | The walk of a part is non-empty and starts with the part itself. |
| Mime.WalkContainsChild | main.py:89 | The walk is pre-order: a multipart part comes first, and each child's walk follows it, whole and in order. |
| Mime.HeaderFieldsShape | main.py:69-76 | The headers dictionary holds exactly From, To, Subject, Date, Cc and Message-ID, in that order. Each has the message's value, or `N/A` when the message lacks it. |
| Mime.HeadersFileHasEveryHeader | main.py:79-81 | For each of the six headers, `headers.txt` contains the line `Name: value`, with `N/A` as the value of a missing header. |
| Mime.ClassifyParts | main.py:88-107 | The loop over the walk returns the first plain candidate, the first HTML candidate and the named attachments in walk order. It is proved against `FirstBody` and `NamedAttachments`. |
| Mime.FirstBodyNoneIff | main.py:104-107 | No body of a type is found exactly when no walked part is a non-attachment part of that type. |
| Mime.FirstBodyIsFirstCandidate | main.py:104-107 | First occurrence wins: the body is the text of the first candidate, whatever later candidates hold. |
| Mime.NamedAttachmentsMembers | main.py:94-102 | An attachment is collected exactly when some walked part has `attachment` in its disposition and a non-empty file name. Content type plays no part. |
| Mime.SinglePartClassification | main.py:108-113 | A single-part message yields no attachment. Its content type alone decides which body it fills, even when its disposition says `attachment`. |
| Mime.MultipartClassification | main.py:88-107 | For a multipart message, each body is absent exactly when there is no candidate for it. The attachments are exactly the named attachment parts of the walk. |
| Batch.SaveAttachment | main.py:131-149 | One pass of the attachment loop writes the content under the name the collision loop picks for the sanitized name. A failed write is caught and leaves the directory unchanged. |
| Batch.SaveAttachments | main.py:129-149 | The attachment loop leaves the directory that `SavedDir` describes. |
| Batch.SavedDirStep | main.py:129-149 | One more pass of the attachment loop writes the next attachment under the name the collision loop picks for its sanitized name, or skips it when its write fails. |
| Batch.StoreOneGrows | main.py:131-149 | Writing one attachment keeps every existing file and adds exactly one file when the write succeeds, and that file has a safe name. |
| Batch.StoredUnderGrows | main.py:129-149 | The loop keeps every file already present and adds one file per successful write. Every new file has a safe name. |
| Batch.StoredUnderKeeps | main.py:129-149 | A file written by an earlier pass is never overwritten by a later one. |
| Batch.SavedDirGrows | main.py:125-149 | `attachments/` ends with its earlier files untouched, one new safe-named file per successful write, and nothing else. |
| Batch.AttachmentStored | main.py:142-145 | Every attachment whose write succeeds lies, with its own bytes, in a new file with a safe name. |
| Batch.PlacedNamesDistinct | main.py:132-140 | Two attachments never share a file, even when their declared names sanitize to the same name. |
| Batch.PlacedNameShape | main.py:131-140 | The file an attachment goes to is its sanitized name when that is free. Otherwise it is that name with the least free counter before the extension. |
| Batch.ExtractBodies | main.py:88-113 | Body extraction classifies a multipart message by its walk and a single-part message by its content type. |
| Batch.SaveContent | main.py:115-149 | The writes after `headers.txt` stop at the first one that raises, and the failure is reported. The folder ends as `ContentSaved` describes. |
| Batch.BatchProcessor.constructor | main.py:18-21 | A new processor has the given input and output folders and zero counters. |
| Batch.BatchProcessor.ExtractSingleEmail | main.py:58-156 | The result is the first failing step in the order the steps run, or the summary. The output base changes only at the folder passed in, which then holds what the steps up to the failure wrote. |
| Batch.BatchProcessor.ProcessFile | main.py:191-219 | One pass of the batch loop sanitizes the name, picks a fresh folder and extracts into it. A success adds one to `successful` and a caught exception adds one to `failed`; the output base becomes `PlaceFile` of the old one. |
| Batch.BatchProcessor.ProcessAll | main.py:158-224 | A missing input folder or an empty one changes nothing. Otherwise `total` is the number of files, `successful` grows by the number of successes, `failed` grows by the rest, and the output base ends as `Run` describes. |
| Batch.RunBatch | main.py:272-276 | From a fresh processor, `successful + failed == total`, and `total` is the number of `.eml` files found. |
| Batch.RunStep | main.py:186-219 | The run over i + 1 files is the run over i files followed by the i-th file. The same holds for the count of successes. |
| Batch.RunPlaced | main.py:186-204 | The batch loop places the folders of the files in order. |
| Batch.PlaceOneGrows | main.py:195-204 | Placing one message's folder keeps every existing entry and adds exactly one entry when the folder is created, with a non-empty name free of forbidden characters. |
| Batch.PlacedGrows | main.py:195-201 | Placing folders never touches an existing entry and adds exactly one entry per folder placed. Each new entry has a non-empty name without forbidden characters. |
| Batch.PlacedKeeps | main.py:195-204 | A folder placed earlier is never replaced by a later message. |
| Batch.PlacedCountIsFoldersCreated | main.py:204 | A folder is placed exactly for each file whose extraction gets as far as creating it. |
| Batch.RunGrows | main.py:186-221 | The batch never touches an entry already in the output base. It adds exactly one folder per file that gets as far as creating it, and each such folder has a non-empty, clean name. |
| Batch.FolderOfEachMessage | main.py:193-204 | Each message that creates its folder gets a fresh folder of its own, holding exactly what its extraction wrote. |
| Batch.FolderOfPlaced | main.py:193-201 | The folder of the i-th file is the one the collision loop picks for its sanitized name, given the folders placed for the files before it. |
| Batch.FoldersDistinct | main.py:195-201 | Two messages never share a folder, even when their file names sanitize to the same name. |
| Batch.SucceededCreatedFolders | main.py:204-215 | Every success created its folder, so there are at least as many new folders as successes. |
| Batch.AttachmentWriteFailuresAreCaught | main.py:143-149 | Which attachment writes fail changes neither the outcome of a message nor its summary. |
| Batch.HasPlainIffCandidate | main.py:153 | For a multipart message, `has_plain` holds exactly when some walked part is a non-attachment `text/plain` part, even an empty one. |
| Batch.SavedTextsShape | main.py:79-122 | The text files written without failure are `headers.txt` plus each non-empty body, each with its own content. |
| Batch.ContentSavedOnSuccess | main.py:115-149 | When no write after `headers.txt` fails, a fresh folder ends with `headers.txt` and each non-empty body. `attachments/` exists exactly when an attachment was collected, and it holds one file per successful write. |
| Batch.OutputOfSuccessfulExtraction | main.py:58-156 | After a successful extraction, the new folder has `headers.txt` with the header lines. A body file is there exactly when its body was found and is non-empty. `attachments/` is there exactly when `attachment_count > 0`, and it holds one file per successful write. |

## Left out

- `gui.py` is not part of this model. It holds the Tkinter front end, its worker thread and its progress queue. Its folder-collision loop is the same as the one in `main.py`.
- `build.py`, `build_linux.py`, `build_macos.py` and `build_windows.py` are not part of this model. They only package the program.
- The `email` library is not modelled. Parsing, `policy.default`, charset and transfer decoding, and `get_filename()` are inputs: the message is given as a part tree with its decoded text and bytes. A part whose content cannot be decoded is not represented.
- Real I/O is not modelled. A directory is a map, `exists()` is key membership, and the order of `glob("*.eml")` is the order of the given sequence. Which operations raise is an input (`Faults`), not computed.
- Batch.SaveAttachment: a write that fails leaves no file. Python's `open(..., "wb")` may already have created an empty or partial file before the write fails.
- Batch.SaveContent: a failed write of `body_plain.txt` or `body_html.html` leaves no file in the model. `open(..., "w")` (main.py:117, 121) has already created or truncated the file, so an empty or partial file may remain.
- Batch.BatchProcessor.ExtractSingleEmail: likewise, a failed write of `headers.txt` (main.py:79) or of a body file leaves no file in the model, while the real folder may hold an empty or partial one. Batch.ContentSaved and Batch.Extracted, which specify both, share this simplification.
- Batch.BatchProcessor.ProcessAll: the creation of the output base (main.py:183) is taken to succeed. If it raises, `process_all` stops with an exception before the loop.
- Batch.RunBatch: models only `main`'s construction and its `process_all` call. The argument handling, the usage text and `sys.exit` are left out.
- Every `print`, and `print_summary`, is left out. The model assumes that no `print` raises, that is, that standard output can encode every character printed (including ✓, ✗ and ⚠). Where it cannot, a `print` inside a `try` turns into a failure, and one outside every `try` (main.py:162, 169, 187, 218) ends `process_all` with an exception.
- Batch.AttachmentWriteFailuresAreCaught: relies on the assumption above. A `print` that raised inside the attachment `except` (main.py:147-149) would let the failure escape and fail the whole message.
- Batch.BatchProcessor.ProcessFile: relies on the assumption above. A `print` that raised after a successful extraction (main.py:207-213) would count that message as failed.
- Naming.HasEmlSuffix lower-cases ASCII only. For the four characters of `.eml`, this agrees with `str.lower`.
- Names are compared exactly. On a case-insensitive file system, two names that differ only in case would collide, and the model does not capture that.
- A `Multipart` part collected as an attachment has no decoded payload: `get_payload(decode=True)` gives `None` (main.py:100), so its write always raises and `open(..., "wb")` has already left an empty file. The model gives such a part arbitrary `data`; its position must be in `failingAttachments` for the model to match, and the empty file is not represented.
- Mime.HeaderFields: a header present several times is looked up as one value, as `message.get` returns one. Header values that contain line breaks are written unchanged, which the model also does, without treating their lines separately.
- File contents are the strings and bytes passed to `write()`. Text-mode newline translation is not modelled (`open(..., "w")` at main.py:79, 117 and 121 writes `"\r\n"` for `"\n"` on Windows), nor are Python strings that hold lone surrogates (such as undecodable POSIX file names), which a Dafny `char` cannot represent.
