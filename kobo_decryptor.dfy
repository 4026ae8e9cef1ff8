/** The KEPUB decryption engine (kobo/decryptor.py): PKCS#7 unpadding, the
    plausibility check of a decrypted entry, the output file name, and
    `decrypt_book`, which tries the candidate user keys in order.

    AES-ECB is a function parameter: `aes(key, data)` is the decryption of
    `data` under `key`, or None where PyCryptodome raises ValueError (a key
    that is not 16, 24 or 32 bytes long, data that is not a whole number of
    blocks). The file system is a map from paths to file contents, and a
    zip archive is the sequence of its entries. */
module KoboDecryptor {
  import opened Wrappers
  import opened Text
  import opened Paths
  import opened Errors
  import opened KoboLibrary

  // ---------------------------------------------------------------------
  // Unpadding

  /** `_unpad`: drop as many trailing bytes as the last byte says. Python's
      `data[:-p]` is empty when `p` is 0 or at least `len(data)`; an empty
      input fails with IndexError (None). */
  function Unpad(data: seq<byte>): (r: Option<seq<byte>>)
    ensures r.None? <==> data == []
    ensures r.Some? ==> r.value <= data
    ensures r.Some? && 0 < data[|data| - 1] <= |data| ==> |r.value| == |data| - data[|data| - 1]
    ensures r.Some? && (data[|data| - 1] == 0 || data[|data| - 1] > |data|) ==> r.value == []
  {
    if data == [] then None
    else
      var p := data[|data| - 1];
      if 0 < p <= |data| then Some(data[..|data| - p]) else Some([])
  }

  /** `n` copies of the byte `n`: PKCS#7 padding of length `n`. */
  function Padding(n: byte): (pad: seq<byte>)
    ensures |pad| == n && forall i :: 0 <= i < n ==> pad[i] == n
  {
    seq(n, _ => n)
  }

  /** Unpadding undoes padding. */
  lemma UnpadPadding(data: seq<byte>, n: byte)
    requires 1 <= n
    ensures Unpad(data + Padding(n)) == Some(data)
  {
    var padded := data + Padding(n);
    assert padded[|padded| - 1] == n;
    assert padded[..|padded| - n] == data;
  }

  // ---------------------------------------------------------------------
  // Plausibility check

  /** Why a decrypted entry is rejected, if it is. */
  datatype Verdict = Valid | NonAscii(position: nat, value: byte) | BadJpegMagic

  predicate IsMarkupName(lower: string) {
    EndsWith(lower, ".xhtml") || EndsWith(lower, ".html") || EndsWith(lower, ".htm")
  }

  predicate IsJpegName(lower: string) {
    EndsWith(lower, ".jpg") || EndsWith(lower, ".jpeg")
  }

  predicate Printable(b: byte) {
    32 <= b <= 127
  }

  const JPEG_MAGIC: seq<byte> := [0xff, 0xd8, 0xff]

  /** The first byte among `contents[from..bound]` outside 32..127. */
  function FirstUnprintable(contents: seq<byte>, from: nat, bound: nat): (r: Option<nat>)
    requires from <= bound <= |contents|
    ensures r.Some? ==> from <= r.value < bound && !Printable(contents[r.value])
    ensures r.Some? ==> forall k :: from <= k < r.value ==> Printable(contents[k])
    ensures r.None? ==> forall k :: from <= k < bound ==> Printable(contents[k])
    decreases bound - from
  {
    if from == bound then None
    else if !Printable(contents[from]) then Some(from)
    else FirstUnprintable(contents, from + 1, bound)
  }

  function Min(a: int, b: int): int {
    if a < b then a else b
  }

  /** What `_check_decrypted_content` decides: markup must start with up to
      five printable bytes; a JPEG of three bytes or more must start with
      FF D8 FF; anything else passes. */
  function Check(filename: string, contents: seq<byte>): Verdict {
    var lower := Lower(filename);
    if IsMarkupName(lower) then
      match FirstUnprintable(contents, 0, Min(5, |contents|))
      case None => Valid
      case Some(i) => NonAscii(i, contents[i])
    else if IsJpegName(lower) && |contents| >= 3 && contents[..3] != JPEG_MAGIC then BadJpegMagic
    else Valid
  }

  /** An entry passes exactly when its type's condition holds. */
  lemma CheckPassesIff(filename: string, contents: seq<byte>)
    ensures Check(filename, contents).Valid? <==>
              && (IsMarkupName(Lower(filename)) ==> forall k :: 0 <= k < 5 && k < |contents| ==> Printable(contents[k]))
              && (!IsMarkupName(Lower(filename)) && IsJpegName(Lower(filename)) && |contents| >= 3 ==>
                    contents[..3] == JPEG_MAGIC)
  {
    if IsMarkupName(Lower(filename)) {
      var f := FirstUnprintable(contents, 0, Min(5, |contents|));
      if f.Some? {
        assert !Printable(contents[f.value]);
      }
    }
  }

  /** `_check_decrypted_content`: the loop over the first bytes of markup,
      then the magic-number test; a rejection is the ValueError raised. */
  method CheckDecryptedContent(filename: string, contents: seq<byte>) returns (v: Verdict)
    ensures v == Check(filename, contents)
  {
    var lower := Lower(filename);
    if IsMarkupName(lower) {
      var n := Min(5, |contents|);
      for i := 0 to n
        invariant FirstUnprintable(contents, 0, n) == FirstUnprintable(contents, i, n)
      {
        if !Printable(contents[i]) {
          return NonAscii(i, contents[i]);
        }
      }
      return Valid;
    } else if IsJpegName(lower) {
      if |contents| >= 3 && contents[..3] != JPEG_MAGIC {
        return BadJpegMagic;
      }
    }
    return Valid;
  }

  // ---------------------------------------------------------------------
  // Output file name

  /** `\w` and `\s`; outside ASCII every character counts as a word
      character. */
  predicate IsWordChar(c: char) {
    ('a' <= c <= 'z') || ('A' <= c <= 'Z') || ('0' <= c <= '9') || c == '_' || c as int >= 128
  }

  predicate IsKept(c: char) {
    IsWordChar(c) || IsSpace(c)
  }

  /** `re.sub(r"[^\s\w]", "_", title)`. */
  function Sanitize(title: string): (r: string)
    ensures |r| == |title|
    ensures forall i :: 0 <= i < |title| ==> r[i] == if IsKept(title[i]) then title[i] else '_'
  {
    seq(|title|, i requires 0 <= i < |title| => if IsKept(title[i]) then title[i] else '_')
  }

  /** `_safe_filename`: the sanitized title, stripped, plus ".epub". */
  function SafeFilename(title: string): string {
    Strip(Sanitize(title)) + ".epub"
  }

  /** The output name ends in ".epub" and its stem holds only word
      characters and inner whitespace. */
  lemma SafeFilenameShape(title: string)
    ensures var n := SafeFilename(title);
            && EndsWith(n, ".epub")
            && |n| <= |title| + 5
            && (forall i :: 0 <= i < |n| - 5 ==> IsKept(n[i]))
            && (|n| > 5 ==> !IsSpace(n[0]) && !IsSpace(n[|n| - 6]))
  {
    var stem := Strip(Sanitize(title));
    StripKept(Sanitize(title));
    var n := stem + ".epub";
    assert n[|n| - 5..] == ".epub";
  }

  /** Stripping a string of kept characters leaves kept characters. */
  lemma StripKept(s: string)
    requires forall k :: 0 <= k < |s| ==> IsKept(s[k])
    ensures |Strip(s)| <= |s| && forall k :: 0 <= k < |Strip(s)| ==> IsKept(Strip(s)[k])
  {
    var i := |s| - |LStrip(s)|;
    StripRest(s, i, LStrip(s));
    forall k | 0 <= k < |Strip(s)| ensures IsKept(Strip(s)[k]) {
      assert Strip(s)[k] == s[i + k];
    }
  }

  /** A title made only of word characters and inner spaces is kept as it is. */
  lemma SafeTitleKept(title: string)
    requires forall i :: 0 <= i < |title| ==> IsKept(title[i])
    requires title == [] || (!IsSpace(title[0]) && !IsSpace(title[|title| - 1]))
    ensures SafeFilename(title) == title + ".epub"
  {
    assert Sanitize(title) == title;
    assert LStrip(title) == title;
    assert RStrip(title) == title;
  }

  // ---------------------------------------------------------------------
  // Archives and the file system

  /** An archive entry as `namelist()` lists it, with its stored bytes. */
  datatype Entry = Entry(name: string, data: seq<byte>)

  /** A file: plain bytes, or a zip archive. */
  datatype FileData = Blob(bytes: seq<byte>) | Zip(entries: seq<Entry>)

  function Names(es: seq<Entry>): (ns: seq<string>)
    ensures |ns| == |es| && forall i :: 0 <= i < |es| ==> ns[i] == es[i].name
  {
    seq(|es|, i requires 0 <= i < |es| => es[i].name)
  }

  /** `zin.read(name)`: the data of the last entry with that name. */
  function ReadEntry(es: seq<Entry>, name: string): (data: seq<byte>)
    requires exists i :: 0 <= i < |es| && es[i].name == name
    decreases |es|
  {
    if es[|es| - 1].name == name then es[|es| - 1].data
    else
      var i :| 0 <= i < |es| && es[i].name == name;
      assert es[..|es| - 1][i] == es[i];
      ReadEntry(es[..|es| - 1], name)
  }

  /** The entry read is the last one of its name. */
  lemma {:induction false} ReadEntryIsLast(es: seq<Entry>, i: nat)
    requires i < |es|
    requires forall k :: i < k < |es| ==> es[k].name != es[i].name
    ensures ReadEntry(es, es[i].name) == es[i].data
    decreases |es|
  {
    if i < |es| - 1 {
      var before := es[..|es| - 1];
      assert before[i] == es[i];
      ReadEntryIsLast(before, i);
    }
  }

  // ---------------------------------------------------------------------
  // Decrypting with one key

  /** One entry under one user key: kept as stored when it is not
      encrypted; otherwise the page key is decrypted with the user key and
      the entry with the page key, then unpadded and checked. A ValueError
      rejects the key; an IndexError from unpadding escapes. */
  datatype EntryResult = Plain(data: seq<byte>) | Rejected | Crashed

  function DecryptEntry(book: KoboBook, userkey: seq<byte>, contents: seq<byte>, name: string,
                        aes: (seq<byte>, seq<byte>) -> Option<seq<byte>>): (r: EntryResult)
    ensures name !in book.encryptedFiles ==> r == Plain(contents)
    ensures r.Plain? && name in book.encryptedFiles ==> Check(name, r.data).Valid?
  {
    if name !in book.encryptedFiles then Plain(contents)
    else match aes(userkey, book.encryptedFiles[name])
      case None => Rejected
      case Some(pageKey) =>
        match aes(pageKey, contents)
        case None => Rejected
        case Some(padded) =>
          match Unpad(padded)
          case None => Crashed
          case Some(plain) => if Check(name, plain).Valid? then Plain(plain) else Rejected
  }

  /** One pass over the archive with one key: every entry written, the key
      rejected, or an escaping error after the entries written so far. */
  datatype Attempt = Written(entries: seq<Entry>) | Failed | Aborted(partial: seq<Entry>)

  /** The pass from entry `j` on; reading goes to the whole archive `zin`. */
  function AttemptFrom(book: KoboBook, userkey: seq<byte>, zin: seq<Entry>, j: nat,
                       aes: (seq<byte>, seq<byte>) -> Option<seq<byte>>): Attempt
    requires j <= |zin|
    decreases |zin| - j
  {
    if j == |zin| then Written([])
    else
      var name := zin[j].name;
      match DecryptEntry(book, userkey, ReadEntry(zin, name), name, aes)
      case Rejected => Failed
      case Crashed => Aborted([])
      case Plain(data) => Prepend(Entry(name, data), AttemptFrom(book, userkey, zin, j + 1, aes))
  }

  function Prepend(e: Entry, a: Attempt): Attempt {
    match a
    case Written(es) => Written([e] + es)
    case Failed => Failed
    case Aborted(es) => Aborted([e] + es)
  }

  /** A successful pass writes one entry per listed entry, under the same
      name and in the same order; an unencrypted entry gets the bytes
      `read` returns, an encrypted one its checked plaintext. */
  lemma {:induction false} WrittenMirrorsArchive(book: KoboBook, userkey: seq<byte>, zin: seq<Entry>, j: nat,
                                                 aes: (seq<byte>, seq<byte>) -> Option<seq<byte>>)
    requires j <= |zin|
    requires AttemptFrom(book, userkey, zin, j, aes).Written?
    ensures var w := AttemptFrom(book, userkey, zin, j, aes).entries;
            && |w| == |zin| - j
            && (forall k :: 0 <= k < |w| ==> w[k].name == zin[j + k].name)
            && (forall k :: 0 <= k < |w| && w[k].name !in book.encryptedFiles ==> w[k].data == ReadEntry(zin, w[k].name))
            && (forall k :: 0 <= k < |w| && w[k].name in book.encryptedFiles ==> Check(w[k].name, w[k].data).Valid?)
    decreases |zin| - j
  {
    if j < |zin| {
      WrittenMirrorsArchive(book, userkey, zin, j + 1, aes);
      var w := AttemptFrom(book, userkey, zin, j, aes).entries;
      var rest := AttemptFrom(book, userkey, zin, j + 1, aes).entries;
      assert w[1..] == rest;
      forall k | 1 <= k < |w| ensures w[k] == rest[k - 1] { }
    }
  }

  // ---------------------------------------------------------------------
  // Trying the keys

  datatype Search = Decrypted(keyIndex: nat, entries: seq<Entry>) | NoKey | Crash(partial: seq<Entry>)

  /** The loop over the user keys from index `i` on: the first key whose
      pass succeeds, or the first escaping error. */
  function TryKeys(book: KoboBook, keys: seq<seq<byte>>, zin: seq<Entry>, i: nat,
                   aes: (seq<byte>, seq<byte>) -> Option<seq<byte>>): Search
    requires i <= |keys|
    decreases |keys| - i
  {
    if i == |keys| then NoKey
    else match AttemptFrom(book, keys[i], zin, 0, aes)
      case Written(es) => Decrypted(i, es)
      case Aborted(es) => Crash(es)
      case Failed => TryKeys(book, keys, zin, i + 1, aes)
  }

  /** The key used is the first one that works: every earlier key fails. */
  lemma {:induction false} TryKeysFirstMatch(book: KoboBook, keys: seq<seq<byte>>, zin: seq<Entry>, i: nat,
                                             aes: (seq<byte>, seq<byte>) -> Option<seq<byte>>)
    requires i <= |keys|
    ensures var s := TryKeys(book, keys, zin, i, aes);
            && (s.Decrypted? ==> i <= s.keyIndex < |keys|
                                 && AttemptFrom(book, keys[s.keyIndex], zin, 0, aes) == Written(s.entries))
            && (s.Decrypted? ==> forall k :: i <= k < s.keyIndex ==> AttemptFrom(book, keys[k], zin, 0, aes).Failed?)
            && (s.NoKey? <==> forall k :: i <= k < |keys| ==> AttemptFrom(book, keys[k], zin, 0, aes).Failed?)
    decreases |keys| - i
  {
    if i < |keys| && AttemptFrom(book, keys[i], zin, 0, aes).Failed? {
      TryKeysFirstMatch(book, keys, zin, i + 1, aes);
    }
  }

  // ---------------------------------------------------------------------
  // decrypt_book

  /** `output_dir / _safe_filename(book.title)`. */
  function OutputPath(book: KoboBook, outputDir: Path): Path {
    Child(outputDir, SafeFilename(book.title))
  }

  function NoKeyMessage(title: string): string {
    "Failed to decrypt '" + title + "' — no valid key found. "
    + "Make sure you are logged in to Kobo Desktop with the account that purchased the book."
  }

  /** `decrypt_book` as a function of the file system before the call (its
      files and its directories): the result and the files after it. Opening
      the output in a missing `output_dir` raises FileNotFoundError, for the
      copy and for the first key alike; that error is no ValueError, so it
      leaves the key loop at once. */
  function DecryptBookSpec(files: map<Path, FileData>, dirs: set<Path>, book: KoboBook, keys: seq<seq<byte>>,
                           outputDir: Path, aes: (seq<byte>, seq<byte>) -> Option<seq<byte>>)
    : (Result<Path, Error>, map<Path, FileData>)
  {
    var out := OutputPath(book, outputDir);
    if book.filename !in files then (Failure(Foreign("FileNotFoundError")), files)
    else if !book.hasDrm then
      if outputDir !in dirs then (Failure(Foreign("FileNotFoundError")), files)
      else (Success(out), files[out := files[book.filename]])
    else match files[book.filename]
      case Blob(_) => (Failure(Foreign("zipfile.BadZipFile")), files)
      case Zip(zin) =>
        if keys != [] && outputDir !in dirs then (Failure(Foreign("FileNotFoundError")), files)
        else
        var s := TryKeys(book, keys, zin, 0, aes);
        (SearchResult(book, out, s), SearchFiles(files, keys, out, s))
  }

  /** What `decrypt_book` returns after the key search. */
  function SearchResult(book: KoboBook, out: Path, s: Search): Result<Path, Error> {
    match s
    case Decrypted(_, _) => Success(out)
    case Crash(_) => Failure(Foreign("IndexError"))
    case NoKey => Failure(KoboDecryptionError(NoKeyMessage(book.title)))
  }

  /** The file system the key search leaves: the archive written so far,
      or no output file once a key has been tried and rejected. */
  function SearchFiles(files: map<Path, FileData>, keys: seq<seq<byte>>, out: Path, s: Search): map<Path, FileData> {
    match s
    case Decrypted(_, es) => files[out := Zip(es)]
    case Crash(es) => files[out := Zip(es)]
    case NoKey => if keys == [] then files else files - {out}
  }

  /** Only the output file changes. */
  lemma DecryptBookFrame(files: map<Path, FileData>, dirs: set<Path>, book: KoboBook, keys: seq<seq<byte>>, outputDir: Path,
                         aes: (seq<byte>, seq<byte>) -> Option<seq<byte>>, p: Path)
    requires p != OutputPath(book, outputDir)
    ensures var files' := DecryptBookSpec(files, dirs, book, keys, outputDir, aes).1;
            (p in files' <==> p in files) && (p in files ==> files'[p] == files[p])
  {
    if book.filename in files && book.hasDrm && files[book.filename].Zip? && (keys == [] || outputDir in dirs) {
      var s := TryKeys(book, keys, files[book.filename].entries, 0, aes);
      SearchFilesFrame(files, keys, OutputPath(book, outputDir), s, p);
    }
  }

  /** Whatever the key search found, only the output file changes. */
  lemma SearchFilesFrame(files: map<Path, FileData>, keys: seq<seq<byte>>, out: Path, s: Search, p: Path)
    requires p != out
    ensures var files' := SearchFiles(files, keys, out, s);
            (p in files' <==> p in files) && (p in files ==> files'[p] == files[p])
  {
  }

  /** A book without DRM is copied byte for byte into an existing output
      directory. */
  lemma DecryptBookCopies(files: map<Path, FileData>, dirs: set<Path>, book: KoboBook, keys: seq<seq<byte>>, outputDir: Path,
                          aes: (seq<byte>, seq<byte>) -> Option<seq<byte>>)
    requires book.filename in files && !book.hasDrm && outputDir in dirs
    ensures var (r, files') := DecryptBookSpec(files, dirs, book, keys, outputDir, aes);
            r == Success(OutputPath(book, outputDir)) && files'[OutputPath(book, outputDir)] == files[book.filename]
  {
  }

  /** When every key is rejected the error is KoboDecryptionError and the
      output file is gone (it was never created when there was no key, and
      then the output directory is never needed). */
  lemma DecryptBookNoKey(files: map<Path, FileData>, dirs: set<Path>, book: KoboBook, keys: seq<seq<byte>>, outputDir: Path,
                         aes: (seq<byte>, seq<byte>) -> Option<seq<byte>>)
    requires book.filename in files && book.hasDrm && files[book.filename].Zip?
    requires keys == [] || outputDir in dirs
    requires forall k :: 0 <= k < |keys| ==> AttemptFrom(book, keys[k], files[book.filename].entries, 0, aes).Failed?
    ensures var (r, files') := DecryptBookSpec(files, dirs, book, keys, outputDir, aes);
            && r.Failure? && r.error.KoboDecryptionError?
            && (keys != [] ==> OutputPath(book, outputDir) !in files')
            && (keys == [] ==> files' == files)
  {
    var zin := files[book.filename].entries;
    TryKeysFirstMatch(book, keys, zin, 0, aes);
    DecryptBookSearches(files, dirs, book, keys, outputDir, aes);
  }

  /** With an archive to read and, when there are keys, a directory to write
      into, `decrypt_book` is the key search. */
  lemma DecryptBookSearches(files: map<Path, FileData>, dirs: set<Path>, book: KoboBook, keys: seq<seq<byte>>,
                            outputDir: Path, aes: (seq<byte>, seq<byte>) -> Option<seq<byte>>)
    requires book.filename in files && book.hasDrm && files[book.filename].Zip?
    requires keys == [] || outputDir in dirs
    ensures var s := TryKeys(book, keys, files[book.filename].entries, 0, aes);
            var out := OutputPath(book, outputDir);
            DecryptBookSpec(files, dirs, book, keys, outputDir, aes) == (SearchResult(book, out, s), SearchFiles(files, keys, out, s))
  {
  }

  /** Without the output directory nothing is written: the copy fails, and
      so does opening the output archive for the first key. */
  lemma DecryptBookNoOutputDir(files: map<Path, FileData>, dirs: set<Path>, book: KoboBook, keys: seq<seq<byte>>,
                               outputDir: Path, aes: (seq<byte>, seq<byte>) -> Option<seq<byte>>)
    requires book.filename in files && outputDir !in dirs
    requires !book.hasDrm || (files[book.filename].Zip? && keys != [])
    ensures DecryptBookSpec(files, dirs, book, keys, outputDir, aes) == (Failure(Foreign("FileNotFoundError")), files)
  {
  }

  /** A file system whose files are updated in place; its directories stay
      as they are. */
  class Disk {
    var files: map<Path, FileData>
    const dirs: set<Path>

    constructor (files: map<Path, FileData>, dirs: set<Path>)
      ensures this.files == files && this.dirs == dirs
    {
      this.files := files;
      this.dirs := dirs;
    }
  }

  /** `KoboDecryptor.decrypt_book`. */
  method DecryptBook(disk: Disk, book: KoboBook, userkeys: seq<seq<byte>>, outputDir: Path,
                     aes: (seq<byte>, seq<byte>) -> Option<seq<byte>>) returns (r: Result<Path, Error>)
    modifies disk
    ensures (r, disk.files) == DecryptBookSpec(old(disk.files), disk.dirs, book, userkeys, outputDir, aes)
  {
    var outputPath := Child(outputDir, SafeFilename(book.title));
    if book.filename !in disk.files {
      return Failure(Foreign("FileNotFoundError"));
    }
    if !book.hasDrm {
      if outputDir !in disk.dirs {
        return Failure(Foreign("FileNotFoundError"));
      }
      disk.files := disk.files[outputPath := disk.files[book.filename]];
      return Success(outputPath);
    }
    if disk.files[book.filename].Blob? {
      return Failure(Foreign("zipfile.BadZipFile"));
    }
    if userkeys != [] && outputDir !in disk.dirs {
      return Failure(Foreign("FileNotFoundError"));
    }
    var zin := disk.files[book.filename].entries;
    var s := TryAllKeys(disk, book, userkeys, zin, outputPath, aes);
    r := SearchResult(book, outputPath, s);
  }

  /** The loop over the user keys; a rejected key's output is unlinked. */
  method TryAllKeys(disk: Disk, book: KoboBook, userkeys: seq<seq<byte>>, zin: seq<Entry>, outputPath: Path,
                    aes: (seq<byte>, seq<byte>) -> Option<seq<byte>>) returns (s: Search)
    modifies disk
    ensures s == TryKeys(book, userkeys, zin, 0, aes)
    ensures disk.files == SearchFiles(old(disk.files), userkeys, outputPath, s)
  {
    for u := 0 to |userkeys|
      invariant TryKeys(book, userkeys, zin, 0, aes) == TryKeys(book, userkeys, zin, u, aes)
      invariant disk.files == if u == 0 then old(disk.files) else old(disk.files) - {outputPath}
    {
      var attempt := WriteAttempt(disk, book, userkeys[u], zin, outputPath, aes);
      if attempt.Written? {
        assert (old(disk.files) - {outputPath})[outputPath := Zip(attempt.entries)]
            == old(disk.files)[outputPath := Zip(attempt.entries)];
        return Decrypted(u, attempt.entries);
      }
      if attempt.Aborted? {
        assert (old(disk.files) - {outputPath})[outputPath := Zip(attempt.partial)]
            == old(disk.files)[outputPath := Zip(attempt.partial)];
        return Crash(attempt.partial);
      }
      disk.files := disk.files - {outputPath};
    }
    return NoKey;
  }

  /** The body of the `try` for one user key: the output archive is opened
      (empty) and each entry written to it as it is produced. */
  method WriteAttempt(disk: Disk, book: KoboBook, userkey: seq<byte>, zin: seq<Entry>, outputPath: Path,
                      aes: (seq<byte>, seq<byte>) -> Option<seq<byte>>) returns (a: Attempt)
    modifies disk
    ensures a == AttemptFrom(book, userkey, zin, 0, aes)
    ensures a.Written? ==> disk.files == old(disk.files)[outputPath := Zip(a.entries)]
    ensures a.Aborted? ==> disk.files == old(disk.files)[outputPath := Zip(a.partial)]
    ensures a.Failed? ==> outputPath in disk.files && disk.files - {outputPath} == old(disk.files) - {outputPath}
  {
    var written: seq<Entry> := [];
    disk.files := disk.files[outputPath := Zip(written)];
    for j := 0 to |zin|
      invariant disk.files == old(disk.files)[outputPath := Zip(written)]
      invariant AttemptFrom(book, userkey, zin, 0, aes) == PrependAll(written, AttemptFrom(book, userkey, zin, j, aes))
    {
      var name := zin[j].name;
      var contents := ReadEntry(zin, name);
      var e := DecryptOne(book, userkey, contents, name, aes);
      if e.Rejected? {
        return Failed;
      }
      if e.Crashed? {
        return Aborted(written);
      }
      PrependAllStep(written, Entry(name, e.data), AttemptFrom(book, userkey, zin, j + 1, aes));
      written := written + [Entry(name, e.data)];
      disk.files := disk.files[outputPath := Zip(written)];
    }
    return Written(written);
  }

  /** One entry of the pass: decrypt, unpad, check. */
  method DecryptOne(book: KoboBook, userkey: seq<byte>, contents: seq<byte>, name: string,
                    aes: (seq<byte>, seq<byte>) -> Option<seq<byte>>) returns (r: EntryResult)
    ensures r == DecryptEntry(book, userkey, contents, name, aes)
  {
    if name !in book.encryptedFiles {
      return Plain(contents);
    }
    var pageKey := aes(userkey, book.encryptedFiles[name]);
    if pageKey.None? {
      return Rejected;
    }
    var padded := aes(pageKey.value, contents);
    if padded.None? {
      return Rejected;
    }
    if padded.value == [] {
      return Crashed;
    }
    var plain := Unpad(padded.value).value;
    var verdict := CheckDecryptedContent(name, plain);
    if verdict.Valid? {
      return Plain(plain);
    }
    return Rejected;
  }

  /** The entries written so far in front of the outcome of the rest. */
  function PrependAll(pre: seq<Entry>, a: Attempt): Attempt {
    match a
    case Written(es) => Written(pre + es)
    case Failed => Failed
    case Aborted(es) => Aborted(pre + es)
  }

  lemma PrependAllStep(pre: seq<Entry>, e: Entry, a: Attempt)
    ensures PrependAll(pre, Prepend(e, a)) == PrependAll(pre + [e], a)
  {
    match a
    case Written(es) => assert pre + ([e] + es) == (pre + [e]) + es;
    case Failed =>
    case Aborted(es) => assert pre + ([e] + es) == (pre + [e]) + es;
  }
}
