# book-loader, modelled in Dafny

book-loader takes an Adobe ACSM ticket, or a book bought through Kobo
Desktop, and turns it into a DRM-free EPUB, optionally rendered as a PDF.
This project models the decision logic around the cryptographic and network
libraries that program calls:

- **Kobo library and decryptor** (`kobo_library.dfy`, `kobo_decryptor.dfy`).
  - The library builds its candidate user keys from MAC addresses, four fixed
    hash constants and the user ids of the database, in that nesting order.
  - It builds its book list from the `content_keys` and `content` tables and
    a listing of `kepub/`, sorts it by lower-cased title and memoises it.
  - It patches bytes 18 and 19 of the copied database.
  - `decrypt_book` tries the candidates one after another. Each pass decrypts
    every encrypted entry in two AES layers, unpads it and checks it. The
    first key that passes wins; a rejected key's output is deleted.
- **Adobe account** (`account.py` in its current form in `account.dfy`, the
  older form in `legacy_account.dfy`):
  - authorization as a predicate over the files of the authorization
    directory;
  - the account type read from `activation.xml`;
  - the device key;
  - `reset`.
- **DRM removal front end** (`drm_remover.dfy`): dispatch on the lower-cased
  suffix, the return codes 0/1/other, and the wrapping of exceptions.
- **The ACSM workflow** (`workflow.dfy`):
  - the calls `process_acsm` makes;
  - the files it creates and deletes;
  - the path it returns.
- **Configuration and engine choice** (`config.dfy`, `conversion.dfy`).
- **The two EPUB-to-PDF converters' text assembly** (`html_scan.dfy`,
  `epub_to_pdf.dfy`, `epub_to_pdf_improved.dfy`):
  - the regular expressions as explicit scanners, with lemmas tying each
    scanner to the language of its pattern;
  - HTML cleaning;
  - the page assembled from items or from the spine;
  - the image table, the resource selection and the stylesheet.

State the source changes in place is modelled in place:

- Kobo `Library` is a class with its memo fields.
- Account directories are `map` fields.
- The Kobo decryptor writes to a `Disk` object.
- The workflow updates a `FileSystem` object.

Each such method is proved equal to a specification function of the old
state. Lemmas about those functions state what the program promises.

Helper modules:

- `wrappers.dfy`: Option and Result.
- `errors.dfy`: the exception hierarchy.
- `text.dfy`: ASCII `lower`, `strip` and `join`.
- `paths.dfy`: `name`, `suffix` and `with_suffix`.
- `adept.dfy`: the parsed `activation.xml`.
- `epub.dfy`: the parts of an ebooklib book that are read.

Foreign code appears as function parameters of the operations that call it:

- AES-ECB decryption;
- SHA-256 (as an ASCII text to its hex digest);
- base64 decoding;
- UTF-8 decoding;
- XML parsing;
- the EPUB and PDF decryptors.

The data the program reads appears as parameters or fields:

- the MAC addresses;
- the SQLite tables, each in table order;
- zip archives as their entry lists;
- directory contents;
- the environment variable and the home directory.

## Model

| member | source | states |
|---|---|---|
| KoboDecryptor.Unpad | src/book_loader/core/kobo/decryptor.py:16-19 | fails (IndexError) exactly on empty input; the result is a prefix whose length is the input length less the last byte when that byte is between 1 and the length, and empty when it is 0 or too large |
| KoboDecryptor.UnpadPadding | src/book_loader/core/kobo/decryptor.py:16-19 | unpadding `d` followed by `n` copies of the byte `n` (1 <= n <= 255) gives back `d` |
| KoboDecryptor.FirstUnprintable | src/book_loader/core/kobo/decryptor.py:28-32 | the index returned is the first byte in the range outside 32..127; none is returned exactly when every byte of the range is printable |
| KoboDecryptor.CheckPassesIff | src/book_loader/core/kobo/decryptor.py:22-35 | an entry passes exactly when, for a markup name (.xhtml/.html/.htm, any case), its first min(5, len) bytes are printable ASCII, and, for a .jpg/.jpeg name of at least 3 bytes, it starts FF D8 FF; other names always pass |
| KoboDecryptor.CheckDecryptedContent | src/book_loader/core/kobo/decryptor.py:22-35 | the byte loop and suffix tests return the verdict of the check specification, including the position and value of the first bad byte |
| KoboDecryptor.Sanitize | src/book_loader/core/kobo/decryptor.py:38-40 | same length as the title; every character that is neither whitespace nor a word character becomes "_", and every other one is kept |
| KoboDecryptor.SafeFilenameShape | src/book_loader/core/kobo/decryptor.py:38-40 | the output name ends in ".epub", is at most 5 longer than the title, its stem holds only word characters and whitespace, and the stem neither starts nor ends with whitespace |
| KoboDecryptor.SafeTitleKept | src/book_loader/core/kobo/decryptor.py:38-40 | a title of word characters with no outer whitespace becomes exactly title + ".epub" |
| KoboDecryptor.ReadEntryIsLast | src/book_loader/core/kobo/decryptor.py:73 | `zin.read(name)` gives the data of the last archive entry of that name |
| KoboDecryptor.DecryptEntry | src/book_loader/core/kobo/decryptor.py:71-83 | an entry not in `encrypted_files` is kept as stored; an encrypted entry that is kept has passed the plausibility check |
| KoboDecryptor.WrittenMirrorsArchive | src/book_loader/core/kobo/decryptor.py:69-85 | a successful pass writes one entry per listed entry, same names in the same order; unencrypted entries carry exactly the bytes read, encrypted ones a checked plaintext |
| KoboDecryptor.TryKeysFirstMatch | src/book_loader/core/kobo/decryptor.py:69-91 | the key used is the first whose pass succeeds, with every earlier key rejected; no key is found exactly when every key is rejected |
| KoboDecryptor.DecryptBookFrame | src/book_loader/core/kobo/decryptor.py:46-95 | no file other than `output_dir/_safe_filename(title)` is created, deleted or changed |
| KoboDecryptor.SearchFilesFrame | src/book_loader/core/kobo/decryptor.py:69-91 | whatever the key search found, only the output file differs afterwards |
| KoboDecryptor.DecryptBookCopies | src/book_loader/core/kobo/decryptor.py:61-65 | a book without DRM is copied byte for byte to the output path in an existing output directory, which is returned |
| KoboDecryptor.DecryptBookNoOutputDir | src/book_loader/core/kobo/decryptor.py:61-71 | without the output directory, copying and opening the output for the first key both raise FileNotFoundError, which escapes the key loop, and no file changes |
| KoboDecryptor.DecryptBookNoKey | src/book_loader/core/kobo/decryptor.py:69-95 | when every candidate is rejected the result is KoboDecryptionError; with at least one candidate the output file does not exist; with none the file system is untouched, whether or not the output directory exists |
| KoboDecryptor.DecryptBook | src/book_loader/core/kobo/decryptor.py:46-95 | the result and the new contents of the disk are those of the `decrypt_book` specification of the old contents and the existing directories, including the FileNotFoundError for a missing output directory |
| KoboDecryptor.TryAllKeys | src/book_loader/core/kobo/decryptor.py:69-91 | the loop over the keys finds what the first-match search finds, and leaves the disk as that outcome says (a rejected key's output unlinked) |
| KoboDecryptor.WriteAttempt | src/book_loader/core/kobo/decryptor.py:71-85 | one pass writes the output archive entry by entry: all of it on success, the entries so far on a crash, and on rejection nothing else changes |
| KoboDecryptor.DecryptOne | src/book_loader/core/kobo/decryptor.py:72-83 | decrypting, unpadding and checking one entry gives the entry result of the specification |
| KoboLibrary.PatchHeader | src/book_loader/core/kobo/library.py:62-69 | for a source of at least 20 bytes the copy has the same length, bytes 18 and 19 are 0x01, and every other byte equals the source's; a shorter source keeps what the reads deliver |
| KoboLibrary.CopyPatched | src/book_loader/core/kobo/library.py:64-68 | the sequential reads and writes produce the patched header copy |
| KoboLibrary.Unhex | src/book_loader/core/kobo/library.py:203 | `a2b_hex`: half as many bytes, byte `i` being the value of the hex digits `2i` and `2i+1` |
| KoboLibrary.DeriveKey | src/book_loader/core/kobo/library.py:199-203 | every derived key is 16 bytes long |
| KoboLibrary.KeysForMacOrder | src/book_loader/core/kobo/library.py:194-204 | `_compute_userkeys` yields 4 * \|userids\| keys, the key of constant `h` and user id `u` at index `h * \|userids\| + u` |
| KoboLibrary.KeysForMacLength | src/book_loader/core/kobo/library.py:194-204 | `_compute_userkeys` yields 4 * \|userids\| keys |
| KoboLibrary.AllUserkeysBlocks | src/book_loader/core/kobo/library.py:162-165 | `userkeys` has \|macs\| * 4 * \|userids\| keys, and the block of MAC `m` is exactly that MAC's `_compute_userkeys` list |
| KoboLibrary.NoCandidates | src/book_loader/core/kobo/library.py:162-165 | no MAC address or no user id gives no candidate key |
| KoboLibrary.CandidatesAreKeys | src/book_loader/core/kobo/library.py:199-203 | every candidate key is 16 bytes long |
| KoboLibrary.ContentRowOf | src/book_loader/core/kobo/library.py:136-139 | `fetchone` returns a row with that content id from the table, and none only when no row has it |
| KoboLibrary.DrmRowsFrom | src/book_loader/core/kobo/library.py:97-100 | the outer query gives each volume once, only volumes of `content_keys`, none already seen, each with the title and attribution of its `content` row |
| KoboLibrary.DrmRowsComplete | src/book_loader/core/kobo/library.py:97-100 | every `content_keys` volume not yet seen that has a `content` row gets a row |
| KoboLibrary.DrmRowsExactly | src/book_loader/core/kobo/library.py:97-100 | the outer query has a row for a volume exactly when it occurs in `content_keys` and has a `content` row |
| KoboLibrary.ElementKeysDomain | src/book_loader/core/kobo/library.py:110-117 | `encrypted_files` has exactly the element ids of the volume's `content_keys` rows |
| KoboLibrary.ElementKeyIsLastRow | src/book_loader/core/kobo/library.py:110-117 | an element id maps to the decoded key of its last row |
| KoboLibrary.LexLeTotal | src/book_loader/core/kobo/library.py:153 | the string order is total |
| KoboLibrary.LexLeTransitive | src/book_loader/core/kobo/library.py:153 | the string order is transitive |
| KoboLibrary.SortByTitleSorts | src/book_loader/core/kobo/library.py:153 | the sort orders by lower-cased title and is a permutation |
| KoboLibrary.SortByTitleStable | src/book_loader/core/kobo/library.py:153 | the sort is stable: the books sharing a lower-cased title keep their order |
| KoboLibrary.SortKeepsDistinct | src/book_loader/core/kobo/library.py:153 | sorting keeps a list without repeated volumes without repeats |
| KoboLibrary.SortIds | src/book_loader/core/kobo/library.py:153 | sorting keeps the set of volumes |
| KoboLibrary.TitleOr | src/book_loader/core/kobo/library.py:122 | `title or fallback`: a non-empty title is kept, a NULL or empty one falls back |
| KoboLibrary.DrmBook | src/book_loader/core/kobo/library.py:105-128 | a DRM row becomes a book with DRM, the row's volume id, title-or-volume-id, attribution and `kobodir/kepub/<volumeid>` path; it fails exactly when a key of the volume does not decode |
| KoboLibrary.CollectDrmBooks | src/book_loader/core/kobo/library.py:105-129 | the loop keeps, in row order, the book of each row before the first failing one, and completes exactly when no row fails |
| KoboLibrary.FreeBooks | src/book_loader/core/kobo/library.py:131-151 | every DRM-free book comes from a listed file that is no volume seen so far and has a content row, and no volume appears twice |
| KoboLibrary.FreeBooksComplete | src/book_loader/core/kobo/library.py:131-151 | every listed file that is not yet seen and has a content row becomes a book |
| KoboLibrary.DrmAndFreeDistinct | src/book_loader/core/kobo/library.py:129-151 | the DRM books and the DRM-free ones together hold no volume twice |
| KoboLibrary.LoadBooksSorted | src/book_loader/core/kobo/library.py:88-154 | a successful first load is sorted by lower-cased title, holds no volume twice, and is what the memo keeps |
| KoboLibrary.LoadBooksFails | src/book_loader/core/kobo/library.py:93-129 | a load fails exactly when a DRM volume has an undecodable key, and the memo then holds the books of the volumes before it |
| KoboLibrary.LoadBooksCoversDrmVolumes | src/book_loader/core/kobo/library.py:97-129 | every volume of `content_keys` with a `content` row yields a book with DRM, titled (or named by its id) and attributed from that row, whose `encrypted_files` has exactly that volume's element ids |
| KoboLibrary.LoadBooksCoversFreeFiles | src/book_loader/core/kobo/library.py:131-151 | every listed file that is no DRM volume and has a content row yields a book without DRM |
| KoboLibrary.Library.constructor | src/book_loader/core/kobo/library.py:41-76 | the temporary database is the patched copy of the source, and both memos start empty |
| KoboLibrary.Library.ComputeUserkeys | src/book_loader/core/kobo/library.py:194-204 | the nested loops build the key list of the MAC: constants outermost, user ids innermost |
| KoboLibrary.Library.HashKeyKeys | src/book_loader/core/kobo/library.py:199-203 | the inner loop builds one key per user id for one device id |
| KoboLibrary.Library.Userkeys | src/book_loader/core/kobo/library.py:157-165 | the first access computes all candidate keys and memoises them; a later access returns the memo unchanged |
| KoboLibrary.Library.ElementKeysOf | src/book_loader/core/kobo/library.py:110-117 | the dict filled row by row is the `encrypted_files` of the specification, or the decoding failure |
| KoboLibrary.Library.MakeDrmBook | src/book_loader/core/kobo/library.py:106-128 | one iteration of the outer loop builds the book of the specification |
| KoboLibrary.Library.CollectDrmLoop | src/book_loader/core/kobo/library.py:105-129 | the outer loop appends the books of the specification and reports whether it completed |
| KoboLibrary.Library.CollectFreeBooks | src/book_loader/core/kobo/library.py:131-151 | the directory scan, updating the set of seen volumes, appends exactly the DRM-free books of the specification |
| KoboLibrary.Library.Books | src/book_loader/core/kobo/library.py:88-154 | the first access returns the loaded list and memoises it (the partial list on a decoding failure); a later access returns the memo unchanged |
| Account.AdobeAccount.constructor | src/book_loader/core/adobe/account.py:15-26 | an absent directory is created empty, an existing one is kept as it is |
| Account.AdobeAccount.AuthorizedNeedsAllThree | src/book_loader/core/adobe/account.py:28-41 | without activation.dat the account is authorized exactly when all three standard files exist; with activation.dat it always is |
| Account.AdobeAccount.UsernameMethod | src/book_loader/core/adobe/account.py:56-61 | a method is found exactly when the first `adept:username` has a non-empty `method` attribute |
| Account.AdobeAccount.GetAuthType | src/book_loader/core/adobe/account.py:43-65 | "none" when not authorized; "unknown" without activation.xml or when it does not parse; otherwise the username method, or "anonymous" without one |
| Account.AdobeAccount.AuthTypeNone | src/book_loader/core/adobe/account.py:43-65 | the type is "none" exactly when the account is not authorized or its username method is itself "none" |
| Account.AdobeAccount.GetDeviceKey | src/book_loader/core/adobe/account.py:115-143 | every failure is an AuthorizationError, the missing-file one with its fixed message; it succeeds exactly when activation.xml exists, parses, has a non-empty key element and its stripped text decodes, and then returns that decoding |
| Account.AdobeAccount.Reset | src/book_loader/core/adobe/account.py:145-149 | exactly the four credential files are gone, every other file is unchanged, the account is not authorized, and a directory without credential files is left as it is |
| LegacyAccount.AdobeAccount.constructor | core/adobe/account.py:15-25 | an absent directory is created empty, an existing one is kept as it is |
| LegacyAccount.AdobeAccount.GetAuthType | core/adobe/account.py:37-57 | "none" when not authorized; "unknown" when activation.xml does not parse; otherwise the `credentials` method attribute, defaulting to "anonymous", or "anonymous" without the element |
| LegacyAccount.AdobeAccount.EmptyMethodReported | core/adobe/account.py:51-54 | a present but empty `method` attribute is reported as the empty type |
| LegacyAccount.AdobeAccount.GetDeviceKey | core/adobe/account.py:107-135 | as in the current variant: AuthorizationError on every failure, otherwise the decoding of the stripped key text |
| LegacyAccount.AdobeAccount.Reset | core/adobe/account.py:137-141 | exactly the three standard files are gone, activation.dat and every other file are unchanged, the account is not authorized, and a directory without them is left as it is |
| LegacyAccount.AuthorizationCompared | core/adobe/account.py:27-35 | over the same directory, the older variant's authorization implies the current one's, and they differ exactly when activation.dat is present without all three standard files |
| DrmRemover.Classify | src/book_loader/core/drm/remover.py:52-58 | code 1 means success and a copy, code 0 success without one, any other code a DRMRemovalError carrying it; a raised exception is passed on |
| DrmRemover.Wrap | src/book_loader/core/drm/remover.py:39-42 | the result is always a DRMRemovalError: one is passed on unchanged, anything else is wrapped with its message |
| DrmRemover.FormatOf | src/book_loader/core/drm/remover.py:31-37 | ".epub" selects the EPUB decryptor and ".pdf" the PDF one, and nothing else selects either |
| DrmRemover.RemoveDrm | src/book_loader/core/drm/remover.py:12-74 | every exception is a DRMRemovalError; a missing input fails before dispatch; the decryptor called is the one of the lower-cased suffix, an unknown one failing; the copy happens exactly on code 1, success exactly on code 0 or 1, and a raised exception is wrapped |
| Workflow.PrepareCalls | src/book_loader/core/workflow.py:45-72 | authorization, fulfilment, key and DRM removal calls are made in that order, a prefix of the full sequence, and the whole sequence when they succeed, returning `output_dir/<downloaded name>` |
| Workflow.ConvertCalls | src/book_loader/core/workflow.py:82-100 | the conversion step always succeeds and adds at most one call: the conversion of the EPUB to its ".pdf" sibling, only with `to_pdf`, an ".epub" suffix and a known engine |
| Workflow.AuthorizeOnlyWhenNeeded | src/book_loader/core/workflow.py:46-49 | anonymous authorization is the first call exactly when the account is not authorized, and is never made at any other point |
| Workflow.WorkflowPaths | src/book_loader/core/workflow.py:53-61 | the fulfiller is given `output_dir/.temp`, and DRM removal reads the downloaded file there and writes `output_dir/<its name>` |
| Workflow.KeepEncryptedDeletesNothing | src/book_loader/core/workflow.py:66-72 | with `keep_encrypted` no file or directory is deleted; without it the downloaded file is gone after a successful run |
| Workflow.ConversionOnlyForEpub | src/book_loader/core/workflow.py:82-88 | a conversion call happens only with `to_pdf`, a known engine and a decrypted ".epub", and converts that file to its ".pdf" sibling |
| Workflow.ConversionOutcome | src/book_loader/core/workflow.py:74-100 | a run past DRM removal succeeds; it returns the PDF, which exists given that a converter which does not raise writes it, exactly when the conversion ran without raising, the EPUB then existing exactly with `keep_encrypted`; otherwise the EPUB is returned and kept |
| Workflow.PrepareSucceeds | src/book_loader/core/workflow.py:45-72 | when the ACSM file exists and no step fails, steps 1 to 3 return the decrypted EPUB, and `output_dir` exists; the EPUB is on disk given that a removal which does not raise writes its output |
| Workflow.FulfilOutcome | src/book_loader/core/adobe/fulfill.py:31-66 | a failed guard (not authorized, ACSM file missing) raises its message and creates nothing; past the guards the target directory and its parent exist whatever follows; every failure is an ACSMFulfillmentError; it succeeds exactly with a download, returning the new file inside the target directory |
| Workflow.FulfilmentFailureLeavesDirs | src/book_loader/core/workflow.py:53-54 | a fulfilment that fails after its guards ends the run with its ACSMFulfillmentError and leaves exactly `output_dir` and `output_dir/.temp` added; a refused one leaves the file system unchanged |
| Workflow.ConvertStepOutcome | src/book_loader/core/workflow.py:82-100 | the conversion step returns the PDF (EPUB deleted unless `keep_encrypted`) when the conversion ran without raising, and the EPUB, kept, otherwise |
| Workflow.OptimizeIgnored | src/book_loader/core/workflow.py:76-79 | `optimize` changes neither the result, the file system nor the calls |
| Workflow.ProcessAcsm | src/book_loader/core/workflow.py:22-100 | the result, the calls and the new file system are those of the run specification on the old file system, including the directories the fulfiller makes before it fails |
| Workflow.PrepareSteps | src/book_loader/core/workflow.py:45-72 | steps 1 to 3 and the clean-up change the file system as the specification says: nothing on a refused fulfilment, `output_dir` and `.temp` once the fulfiller is past its guards, then the download, the decrypted file and the clean-up |
| Workflow.ConvertSteps | src/book_loader/core/workflow.py:81-100 | the optional conversion changes the file system and `current_path` as the specification says |
| Config.GetAuthDir | src/book_loader/utils/config.py:20-35 | a truthy custom directory wins, else a non-empty BOOK_LOADER_AUTH_DIR, else the default below the home directory; only the default is created |
| Config.NewConfig | src/book_loader/utils/config.py:12-17 | `auth_dir` is the resolved directory, and the directory created is the one the resolution creates |
| Conversion.NewEngine | src/book_loader/core/conversion/__init__.py:13-25 | exactly "python" and "calibre" are accepted, "python" selecting the WeasyPrint converter and "calibre" Calibre; any other name is a ValueError naming it |
| Conversion.ConvertEpubToPdf | src/book_loader/core/conversion/__init__.py:27-37 | exactly one call, to the selected converter, with the same two paths |
| Paths.NameSuffix | src/book_loader/core/workflow.py:82 | the suffix is a dot-led ending of the name with no other dot, of length 2 or more and shorter than the name, or empty |
| Paths.WithSuffixSuffix | src/book_loader/core/workflow.py:84 | after `with_suffix(".pdf")` the suffix is ".pdf" |
| Text.StripSlice | src/book_loader/core/kobo/decryptor.py:40 | `strip()` returns a slice of its input, and everything it cuts off is whitespace |
| Text.StripEmptyIffAllSpace | src/book_loader/core/conversion/epub_to_pdf_improved.py:103 | a string strips to empty exactly when it is all whitespace |
| Text.JoinEndsWithLast | src/book_loader/core/conversion/epub_to_pdf.py:110 | the joined string ends with the last part |
| Text.JoinAppend | src/book_loader/core/conversion/epub_to_pdf.py:110 | joining a concatenation joins the two halves with one separator between |
| Adept.Find | src/book_loader/core/adobe/account.py:56 | `find(".//tag")` returns the first element with that tag, and none exactly when no element has it |
| Adept.KeyText | src/book_loader/core/adobe/account.py:130-134 | a key text is found exactly when the first `privateLicenseKey` element has non-empty text |
| Epub.ItemWithIdFirst | src/book_loader/core/conversion/epub_to_pdf_improved.py:95 | `get_item_with_id` returns the first item with that id |
| HtmlScan.XmlDeclEndSpec | src/book_loader/core/conversion/epub_to_pdf.py:118 | the scanner's match at a position is a string of `<\?xml[^>]*\?>`, and the only one starting there |
| HtmlScan.DoctypeEndSpec | src/book_loader/core/conversion/epub_to_pdf.py:120 | the scanner's match is a string of `<!DOCTYPE[^>]*>`, and the only one starting there |
| HtmlScan.HtmlTagEndSpec | src/book_loader/core/conversion/epub_to_pdf.py:126 | the scanner's match is a string of `</?html[^>]*>`, and the only one starting there |
| HtmlScan.BlockEndSpec | src/book_loader/core/conversion/epub_to_pdf.py:122-128 | the scanner's block match is a string of the pattern and the shortest starting there (lazy `.*?`) |
| HtmlScan.MatchEndSpec | src/book_loader/core/conversion/epub_to_pdf.py:118-128 | for every pattern the engine's match is a string of its language, the shortest one starting there, and none exists exactly when the language has none there |
| HtmlScan.MatchesSomewhereLanguage | src/book_loader/core/conversion/epub_to_pdf.py:118-128 | the scanner finds a match from a position on exactly when a string of the pattern occurs there |
| HtmlScan.SubAllIdentity | src/book_loader/core/conversion/epub_to_pdf.py:118-128 | `re.sub(p, "", s)` changes the text exactly when the pattern occurs in it |
| HtmlScan.SubAllShrinks | src/book_loader/core/conversion/epub_to_pdf.py:118-128 | where the pattern occurs the text gets strictly shorter |
| HtmlScan.SubAllLeftmost | src/book_loader/core/conversion/epub_to_pdf.py:118 | the leftmost match is the first removed: the text before it is kept and the scan goes on after it |
| HtmlScan.DeclarationCanReappear | src/book_loader/core/conversion/epub_to_pdf.py:118 | one pass of the substitution can leave a declaration: `<?x<?xml?>ml?>` becomes `<?xml?>` |
| HtmlScan.SearchLeftmost | src/book_loader/core/conversion/epub_to_pdf.py:122 | `re.search` finds the leftmost match: none starts before it |
| HtmlScan.SearchNone | src/book_loader/core/conversion/epub_to_pdf.py:122-123 | the search finds nothing exactly when the pattern occurs nowhere |
| HtmlScan.BodyContentFound | src/book_loader/core/conversion/epub_to_pdf.py:122-123 | no body is found exactly when `<body[^>]*>.*?</body>` occurs nowhere |
| HtmlScan.BodyContentInner | src/book_loader/core/conversion/epub_to_pdf.py:122-124 | group 1 is the text from the end of the leftmost opening `<body…>` that has a `</body>` after it to the first such `</body>`, and holds no `</body>` |
| HtmlScan.BlockContentInner | src/book_loader/core/conversion/epub_to_pdf.py:122-124 | the same for any block pattern |
| HtmlScan.BlockEndShape | src/book_loader/core/conversion/epub_to_pdf.py:122 | a block match runs from its opening tag to the first closing tag after the opening tag's `>` |
| EpubToPdf.CleanHtmlWithBody | src/book_loader/core/conversion/epub_to_pdf.py:112-130 | with a body, only the body's inner text survives, with html tags and head blocks removed from it too |
| EpubToPdf.CleanHtmlWithoutBody | src/book_loader/core/conversion/epub_to_pdf.py:112-130 | without a body, the declaration-free text is kept less its html tags and head blocks |
| EpubToPdf.CleanHtmlPlain | src/book_loader/core/conversion/epub_to_pdf.py:112-130 | a fragment in which no pattern occurs passes through unchanged |
| EpubToPdf.ExtractContent | src/book_loader/core/conversion/epub_to_pdf.py:52-110 | the page is the "\n"-join of the header, title lines, documents and closing tags of the specification |
| EpubToPdf.Documents | src/book_loader/core/conversion/epub_to_pdf.py:98-106 | the item loop emits the cleaned text of each decodable document, in item order |
| EpubToPdf.ContentOrder | src/book_loader/core/conversion/epub_to_pdf.py:57-95 | after the header, the `<h1>` title line appears only with title metadata, then the author line only with creator metadata, then the rule |
| EpubToPdf.ContentTail | src/book_loader/core/conversion/epub_to_pdf.py:95-110 | after the rule come exactly the documents, and the closing tags last |
| EpubToPdf.ContentBounds | src/book_loader/core/conversion/epub_to_pdf.py:108-110 | the page text starts with the header and ends with "</body></html>" |
| EpubToPdf.UndecodableSkipped | src/book_loader/core/conversion/epub_to_pdf.py:100-106 | an undecodable document adds nothing, and the documents around it are still emitted in order |
| EpubToPdf.DecodedEmitted | src/book_loader/core/conversion/epub_to_pdf.py:99-104 | a decodable document adds exactly its cleaned text at its place in item order |
| EpubToPdf.ExtractImages | src/book_loader/core/conversion/epub_to_pdf.py:132-140 | the loop fills the name-to-content table of the specification |
| EpubToPdf.ImagesKeys | src/book_loader/core/conversion/epub_to_pdf.py:136-138 | the names in the table are exactly those of the type-6 items |
| EpubToPdf.ImagesLastWins | src/book_loader/core/conversion/epub_to_pdf.py:136-138 | a name maps to the content of its last type-6 item |
| EpubToPdfImproved.BodyReturnedAsIs | src/book_loader/core/conversion/epub_to_pdf_improved.py:117-125 | with a body, its inner text is returned with nothing further stripped |
| EpubToPdfImproved.CleanersCompared | src/book_loader/core/conversion/epub_to_pdf_improved.py:112-133 | without a body both converters' cleaners agree; with one, the first converter's result is this one's with html tags and head blocks removed |
| EpubToPdfImproved.TitlePageShape | src/book_loader/core/conversion/epub_to_pdf_improved.py:83-90 | the title page exists exactly with title metadata and has the author line exactly with creator metadata as well |
| EpubToPdfImproved.SpineBounds | src/book_loader/core/conversion/epub_to_pdf_improved.py:71-110 | the page starts with the head and ends with "</body></html>" |
| EpubToPdfImproved.SpineEntrySkipped | src/book_loader/core/conversion/epub_to_pdf_improved.py:93-104 | a spine id with no item, a non-document, undecodable bytes or blank text adds nothing, and the others keep spine order |
| EpubToPdfImproved.ChapterSkipped | src/book_loader/core/conversion/epub_to_pdf_improved.py:93-104 | such a spine id yields no chapter |
| EpubToPdfImproved.SpineEntryKept | src/book_loader/core/conversion/epub_to_pdf_improved.py:93-104 | a spine id naming a document with non-blank text becomes one chapter div with that id, at its place in spine order |
| EpubToPdfImproved.ChapterKept | src/book_loader/core/conversion/epub_to_pdf_improved.py:100-104 | such a spine id yields exactly `<div class="chapter" id="…">` around the extracted text |
| EpubToPdfImproved.ExtractContentWithSpine | src/book_loader/core/conversion/epub_to_pdf_improved.py:62-110 | the page is the "\n"-join of the head, the title page, the chapters and the closing tags of the specification |
| EpubToPdfImproved.SpineChapters | src/book_loader/core/conversion/epub_to_pdf_improved.py:93-106 | the spine loop emits the chapters of the specification, in spine order |
| EpubToPdfImproved.ChapterFor | src/book_loader/core/conversion/epub_to_pdf_improved.py:94-104 | one turn of the spine loop yields the chapter of the specification, at most one |
| EpubToPdfImproved.ResourcesExactly | src/book_loader/core/conversion/epub_to_pdf_improved.py:56-57 | exactly the items of type 6, 7 or 8 are selected |
| EpubToPdfImproved.ExtractCss | src/book_loader/core/conversion/epub_to_pdf_improved.py:135-252 | the stylesheet is the "\n"-join of the base sheet and the book's parts of the specification |
| EpubToPdfImproved.CssStartsWithBase | src/book_loader/core/conversion/epub_to_pdf_improved.py:139-252 | the base sheet comes first, and a book without decodable type-8 items gets the base sheet alone |
| EpubToPdfImproved.CssItemEmitted | src/book_loader/core/conversion/epub_to_pdf_improved.py:244-250 | a decodable type-8 item adds its text under `/* From <name> */`, once, at its place in item order |

## Left out

- Network authorization (`authorize_anonymous`, `authorize_adobe_id`), the network part of ACSM fulfilment and the Adobe and inept libraries are foreign code. Their outcome in one run is a parameter: whether authorization raises, whether `fulfill` finds the account unauthorized, and whether fulfilment and download fail (with the message) or give a file name. The rest of `fulfill` is modelled: the missing-ACSM guard against the file system, and the `mkdir` of the target directory before the network calls.
- `Workflow.ProcessAcsm`: the account queries are parameters too. `Env.authorized` stands for `account.is_authorized()` (workflow.py:46) and `Env.deviceKey` for `account.get_device_key()` (workflow.py:60). Neither is `Account.AdobeAccount.IsAuthorized` or `GetDeviceKey` applied to the authorization directory.
- `Workflow.ProcessAcsm`: the effects of the DRM decryptors and the PDF converters on the disk are assumed, not derived, because that code is foreign. DRM removal is one step whose only parameter is the exception it raises, if any (`Env.removalError`); the workflow does not go through `DrmRemover.RemoveDrm`. A removal that does not raise is taken to create `output_dir/<name>`. A conversion that does not raise is taken to create the `.pdf`. A removal or conversion that raises is taken to leave no partial output. The source checks neither file after the call (workflow.py:61 and :88). So "on disk" in `Workflow.PrepareSucceeds` and "the PDF exists" in `Workflow.ConversionOutcome` and `Workflow.ConvertStepOutcome` rest on this assumption.
- `Workflow.Fulfil`: `mkdir(parents=True)` is modelled as adding the target directory and its parent `output_dir`. Ancestors above `output_dir` are not recorded, because a path keeps its parent as text. A FileExistsError from an existing non-directory is not modelled.
- `KoboLibrary.DrmRowsFrom`: `content.ContentID` is taken to be the table's key, as in Kobo's schema. `Database` does not enforce it. `SELECT DISTINCT` gives one row per volume only under that key.
- `KoboLibrary.DeriveKey`: user ids are taken to be non-NULL ASCII text. A NULL `UserID` (TypeError on `deviceid + userid`) or a non-ASCII one (UnicodeEncodeError from `.encode("ascii")`) is not modelled as an exception; the total SHA-256 parameter turns it into a key.
- `cli.py`, `calibre_wrapper.py` and the `convert` methods of both converters are left out. They are user interface, subprocesses, ebooklib parsing and WeasyPrint rendering.
- `_get_mac_addrs` runs `ifconfig`, so the MAC list is a parameter. `_get_user_ids` is the `userIds` table in table order.
- `Library.close` and the Kobo database-not-found check are file-system and connection management.
- SQLite has no row order. The queries are functions over the tables in table order.
- AES-ECB, SHA-256, base64, UTF-8 and XML parsing are function parameters. Their internals are not modelled.
- A zip archive is its list of entries. Compression and zip-level errors are not modelled, except for a file that is not an archive at all.
- Exceptions from foreign libraries are `Foreign` errors with placeholder messages ("binascii.Error", "IndexError", "FileNotFoundError", "zipfile.BadZipFile"). An XML parse failure carries the parser's message.
- `lower()`, `strip()`, `\s`, `\w` and `re.IGNORECASE` are modelled for ASCII only. Every non-ASCII character counts as a word character.
- Item types are the integer codes the source tests: 9 for documents, 6 for images, 6, 7 and 8 for resources, 8 for stylesheets. The source's comments name them image, font and style. In ebooklib's own numbering 6, 7 and 8 are fonts, video and audio. The model follows the codes, not the comments.
- `_extract_resources` is modelled as the selection of items it writes. The writes into the temporary directory are not modelled.
- Console output (`print`) is omitted everywhere.
- `DrmRemover.RemoveDrm`: the copy made for code 1 is reported in the result, not performed on a file system.
- `KoboDecryptor.DecryptBook`: an IndexError from unpadding an empty plaintext escapes the key loop. The partial output file is left behind, as in the source, and no later key is tried.
- `HtmlScan.SubAllLeftmost`: states what one `re.sub` pass removes, not that no declaration remains. A declaration can reappear once another is cut out of it (`HtmlScan.DeclarationCanReappear`). So `_clean_html` only promises that the declarations present in its input are removed.
- `Account.AdobeAccount.AuthTypeNone`: "none" does not mean "not authorized" in both directions. An activation.xml whose username method is literally "none" also yields it.
- `KoboLibrary.Library.Books`: the DRM-free scan lists `kepub/` in the order given. The order of `iterdir` is the operating system's.
