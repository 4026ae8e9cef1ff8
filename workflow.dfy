/** The end-to-end ACSM workflow (workflow.py, `BookLoader.process_acsm`):
    authorize if needed, fulfil into `output_dir/.temp`, remove the DRM into
    `output_dir`, clean up, and optionally convert to PDF.

    The collaborators (the Adobe account, the fulfiller, the DRM remover and
    the converters) are given by how they behave in one run; the model records
    which of them were called, in order, and what the run does to the file
    system. */
module Workflow {
  import opened Wrappers
  import opened Paths
  import opened Errors
  import opened Conversion

  /** A call to a collaborator. */
  datatype Call =
    | Authorize
    | Fulfill(acsmPath: Path, outputDir: Path)
    | GetDeviceKey
    | RemoveDrm(encryptedPath: Path, outputPath: Path)
    | Convert(call: ConvertCall)

  /** What `ACSMFulfiller.fulfill` meets in this run, apart from the
      existence of the ACSM file, which the file system decides: the account
      found unauthorized (before anything is created), a failure once the
      directory has been made (the reason of the ACSMFulfillmentError every
      later exception becomes), or the name of the downloaded file. */
  datatype Fulfilment =
    | NotAuthorized
    | Failed(reason: string)
    | Downloaded(name: string)

  /** How the collaborators behave in this run: whether the account is
      authorized, the exception (if any) each step raises, and what the
      fulfiller does. */
  datatype Env = Env(
    authorized: bool,
    authorizeError: Option<Error>,
    fulfilment: Fulfilment,
    deviceKey: Result<seq<byte>, Error>,
    removalError: Option<Error>,
    conversionError: Option<Error>)

  datatype Options = Options(optimize: bool, toPdf: bool, convertEngine: string, keepEncrypted: bool)

  /** The files and directories that exist. */
  datatype Fs = Fs(files: set<Path>, dirs: set<Path>)

  /** A run: the returned path or the escaping exception, the file system
      afterwards, and the calls made. */
  datatype Run = Run(result: Result<Path, Error>, fs: Fs, calls: seq<Call>)

  predicate IsEmptyDir(fs: Fs, dir: Path) {
    && (forall p :: p in fs.files ==> p.parent != ToString(dir))
    && (forall d :: d in fs.dirs ==> d.parent != ToString(dir))
  }

  /** `dir.rmdir()` with OSError ignored: only an existing empty directory
      goes. */
  function Rmdir(fs: Fs, dir: Path): (r: Fs)
    ensures r.files == fs.files
    ensures r.dirs == if dir in fs.dirs && IsEmptyDir(fs, dir) then fs.dirs - {dir} else fs.dirs
  {
    if dir in fs.dirs && IsEmptyDir(fs, dir) then Fs(fs.files, fs.dirs - {dir}) else fs
  }

  function TempDir(outputDir: Path): Path {
    Child(outputDir, ".temp")
  }

  /** `fulfill(acsm_path, dir)` on the file system `fs`: its two guards, then
      `dir.mkdir(parents=True, exist_ok=True)`, which also makes `dir`'s
      parent, then the fulfilment and the download into `dir`. The result is
      the downloaded file or the ACSMFulfillmentError raised. */
  function Fulfil(fs: Fs, acsmPath: Path, dir: Path, parent: Path, f: Fulfilment): (Result<Path, Error>, Fs) {
    if f.NotAuthorized? then (Failure(ACSMFulfillmentError("Not authorized, please authorize first")), fs)
    else if acsmPath !in fs.files then (Failure(ACSMFulfillmentError("ACSM file not found: " + ToString(acsmPath))), fs)
    else
      var made := Fs(fs.files, fs.dirs + {parent, dir});
      match f
      case Failed(reason) => (Failure(ACSMFulfillmentError(reason)), made)
      case Downloaded(name) => (Success(Child(dir, name)), Fs(made.files + {Child(dir, name)}, made.dirs))
  }

  /** The name of the file downloaded in this run, if the fulfiller gets
      that far. */
  function DownloadedName(fs: Fs, acsmPath: Path, env: Env): Option<string> {
    if env.fulfilment.Downloaded? && acsmPath in fs.files then Some(env.fulfilment.name) else None
  }

  /** The fulfiller creates nothing when a guard fails; once both guards pass
      it has made `dir` and its parent, whether or not it then fails, and
      every failure is an ACSMFulfillmentError. On success it returns the
      downloaded file inside `dir`, which then exists. */
  lemma FulfilOutcome(fs: Fs, acsmPath: Path, dir: Path, parent: Path, f: Fulfilment)
    ensures var (r, fs') := Fulfil(fs, acsmPath, dir, parent, f);
            && (r.Failure? ==> r.error.ACSMFulfillmentError?)
            && (f.NotAuthorized? ==>
                  fs' == fs && r == Failure(ACSMFulfillmentError("Not authorized, please authorize first")))
            && (!f.NotAuthorized? && acsmPath !in fs.files ==>
                  fs' == fs && r == Failure(ACSMFulfillmentError("ACSM file not found: " + ToString(acsmPath))))
            && (!f.NotAuthorized? && acsmPath in fs.files ==> fs'.dirs == fs.dirs + {parent, dir})
            && (f.Failed? && acsmPath in fs.files ==>
                  r == Failure(ACSMFulfillmentError(f.reason)) && fs'.files == fs.files)
            && (r.Success? <==> f.Downloaded? && acsmPath in fs.files)
            && (r.Success? ==> r.value == Child(dir, f.name) && fs'.files == fs.files + {r.value})
  {
  }

  /** `process_acsm` as a function of the file system before the run. */
  function Process(fs: Fs, acsmPath: Path, outputDir: Path, opts: Options, env: Env): Run {
    var r := Prepare(fs, acsmPath, outputDir, opts, env);
    if r.result.Failure? then r else ConvertStep(r.fs, r.result.value, opts, env, r.calls)
  }

  /** Steps 1 to 3 and the clean-up: the decrypted path, or the exception
      that escapes. */
  function Prepare(fs: Fs, acsmPath: Path, outputDir: Path, opts: Options, env: Env): Run {
    var pre := if env.authorized then [] else [Authorize];
    if !env.authorized && env.authorizeError.Some? then Run(Failure(env.authorizeError.value), fs, pre)
    else
      var tempDir := TempDir(outputDir);
      var calls := pre + [Fulfill(acsmPath, tempDir)];
      var (fetched, fs1) := Fulfil(fs, acsmPath, tempDir, outputDir, env.fulfilment);
      if fetched.Failure? then Run(Failure(fetched.error), fs1, calls)
      else
        var encrypted := fetched.value;
        var decrypted := Child(outputDir, encrypted.name);
        match env.deviceKey
        case Failure(e) => Run(Failure(e), fs1, calls + [GetDeviceKey])
        case Success(_) =>
          var calls2 := calls + [GetDeviceKey, RemoveDrm(encrypted, decrypted)];
          if env.removalError.Some? then Run(Failure(env.removalError.value), fs1, calls2)
          else
            var fs2 := Fs(fs1.files + {decrypted}, fs1.dirs);
            var fs3 := if opts.keepEncrypted then fs2 else Rmdir(Fs(fs2.files - {encrypted}, fs2.dirs), tempDir);
            Run(Success(decrypted), fs3, calls2)
  }

  /** The optional conversion of the decrypted file; every exception of the
      step is caught and the EPUB kept. */
  function ConvertStep(fs: Fs, current: Path, opts: Options, env: Env, calls: seq<Call>): Run {
    if !(opts.toPdf && Suffix(current) == ".epub") then Run(Success(current), fs, calls)
    else
      var pdf := WithSuffix(current, ".pdf");
      match NewEngine(opts.convertEngine)
      case Failure(_) => Run(Success(current), fs, calls)
      case Success(engine) =>
        var calls' := calls + [Convert(ConvertEpubToPdf(engine, current, pdf)[0])];
        if env.conversionError.Some? then Run(Success(current), fs, calls')
        else
          var fs' := Fs(fs.files + {pdf}, fs.dirs);
          Run(Success(pdf), if opts.keepEncrypted then fs' else Fs(fs'.files - {current}, fs'.dirs), calls')
  }

  /** The calls of a run that gets through DRM removal, in order. */
  function Script(fs: Fs, acsmPath: Path, outputDir: Path, env: Env): seq<Call> {
    var name := DownloadedName(fs, acsmPath, env);
    (if env.authorized then [] else [Authorize])
    + [Fulfill(acsmPath, TempDir(outputDir))]
    + (if name.Some? then
         [GetDeviceKey, RemoveDrm(Child(TempDir(outputDir), name.value), Child(outputDir, name.value))]
       else [])
  }

  /** Steps 1 to 3 make a prefix of the script's calls, the whole script
      when they succeed. */
  lemma PrepareCalls(fs: Fs, acsmPath: Path, outputDir: Path, opts: Options, env: Env)
    ensures var p := Prepare(fs, acsmPath, outputDir, opts, env);
            && p.calls != []
            && p.calls <= Script(fs, acsmPath, outputDir, env)
            && (p.result.Success? ==> DownloadedName(fs, acsmPath, env).Some? && p.calls == Script(fs, acsmPath, outputDir, env)
                                      && p.result.value == Child(outputDir, DownloadedName(fs, acsmPath, env).value))
  {
  }

  /** The conversion step adds at most one call, a conversion. */
  lemma ConvertCalls(fs: Fs, current: Path, opts: Options, env: Env, calls: seq<Call>)
    ensures var r := ConvertStep(fs, current, opts, env, calls);
            && r.result.Success?
            && (r.calls == calls
                || (&& opts.toPdf && Suffix(current) == ".epub" && NewEngine(opts.convertEngine).Success?
                    && r.calls == calls + [Convert(ConvertCall(NewEngine(opts.convertEngine).value.converter, current,
                                                               WithSuffix(current, ".pdf")))]))
  {
  }

  /** Anonymous authorization is the first call exactly when the account is
      not authorized, and is never made otherwise. */
  lemma AuthorizeOnlyWhenNeeded(fs: Fs, acsmPath: Path, outputDir: Path, opts: Options, env: Env)
    ensures var r := Process(fs, acsmPath, outputDir, opts, env);
            && (!env.authorized ==> r.calls != [] && r.calls[0] == Authorize)
            && (forall i :: 0 < i < |r.calls| ==> r.calls[i] != Authorize)
            && (env.authorized ==> Authorize !in r.calls)
  {
    var p := Prepare(fs, acsmPath, outputDir, opts, env);
    PrepareCalls(fs, acsmPath, outputDir, opts, env);
    var script := Script(fs, acsmPath, outputDir, env);
    assert forall i :: 0 <= i < |script| && (i > 0 || env.authorized) ==> script[i] != Authorize;
    if p.result.Success? {
      ConvertCalls(p.fs, p.result.value, opts, env, p.calls);
    }
  }

  /** The fulfiller writes into `output_dir/.temp`, and the DRM remover reads
      the downloaded file there and writes `output_dir/<its name>`. */
  lemma WorkflowPaths(fs: Fs, acsmPath: Path, outputDir: Path, opts: Options, env: Env, c: Call)
    requires c in Process(fs, acsmPath, outputDir, opts, env).calls
    ensures c.Fulfill? ==> c == Fulfill(acsmPath, TempDir(outputDir))
    ensures c.RemoveDrm? ==> DownloadedName(fs, acsmPath, env).Some?
                             && c == RemoveDrm(Child(TempDir(outputDir), DownloadedName(fs, acsmPath, env).value),
                                               Child(outputDir, DownloadedName(fs, acsmPath, env).value))
  {
    var p := Prepare(fs, acsmPath, outputDir, opts, env);
    PrepareCalls(fs, acsmPath, outputDir, opts, env);
    var script := Script(fs, acsmPath, outputDir, env);
    if c in p.calls {
      var i :| 0 <= i < |p.calls| && p.calls[i] == c;
      assert script[i] == c;
    } else {
      ConvertCalls(p.fs, p.result.value, opts, env, p.calls);
    }
  }

  /** With `keep_encrypted` nothing that existed or was created is deleted;
      without it the downloaded file is gone after a successful run. */
  lemma KeepEncryptedDeletesNothing(fs: Fs, acsmPath: Path, outputDir: Path, opts: Options, env: Env)
    ensures var r := Process(fs, acsmPath, outputDir, opts, env);
            && (opts.keepEncrypted ==> fs.files <= r.fs.files && fs.dirs <= r.fs.dirs)
            && (!opts.keepEncrypted && r.result.Success? ==>
                  DownloadedName(fs, acsmPath, env).Some?
                  && Child(TempDir(outputDir), DownloadedName(fs, acsmPath, env).value) !in r.fs.files)
  {
  }

  /** Conversion is attempted only for a decrypted ".epub" with `to_pdf`
      and a known engine, and is then attempted with the decrypted file and
      its ".pdf" sibling. */
  lemma ConversionOnlyForEpub(fs: Fs, acsmPath: Path, outputDir: Path, opts: Options, env: Env, c: Call)
    requires c in Process(fs, acsmPath, outputDir, opts, env).calls && c.Convert?
    ensures opts.toPdf && NewEngine(opts.convertEngine).Success?
    ensures DownloadedName(fs, acsmPath, env).Some?
            && c.call.epubPath == Child(outputDir, DownloadedName(fs, acsmPath, env).value)
    ensures Suffix(c.call.epubPath) == ".epub" && c.call.pdfPath == WithSuffix(c.call.epubPath, ".pdf")
  {
    var p := Prepare(fs, acsmPath, outputDir, opts, env);
    PrepareCalls(fs, acsmPath, outputDir, opts, env);
    var script := Script(fs, acsmPath, outputDir, env);
    assert forall i :: 0 <= i < |p.calls| ==> p.calls[i] == script[i] && !script[i].Convert?;
    if p.result.Success? {
      ConvertCalls(p.fs, p.result.value, opts, env, p.calls);
    }
  }

  /** A run that gets past DRM removal succeeds. It returns the PDF exactly
      when a conversion was attempted and did not raise; the EPUB is then
      deleted unless `keep_encrypted`. Otherwise the EPUB is returned and
      kept. */
  lemma ConversionOutcome(fs: Fs, acsmPath: Path, outputDir: Path, opts: Options, env: Env)
    requires env.authorized || env.authorizeError.None?
    requires env.fulfilment.Downloaded? && acsmPath in fs.files
    requires env.deviceKey.Success? && env.removalError.None?
    ensures var r := Process(fs, acsmPath, outputDir, opts, env);
            var epub := Child(outputDir, env.fulfilment.name);
            var converts := opts.toPdf && Suffix(epub) == ".epub" && NewEngine(opts.convertEngine).Success?
                            && env.conversionError.None?;
            && r.result.Success?
            && (converts ==> r.result.value == WithSuffix(epub, ".pdf") && r.result.value in r.fs.files
                             && (epub in r.fs.files <==> opts.keepEncrypted))
            && (!converts ==> r.result.value == epub && epub in r.fs.files)
  {
    PrepareSucceeds(fs, acsmPath, outputDir, opts, env);
    var r := Prepare(fs, acsmPath, outputDir, opts, env);
    ConvertStepOutcome(r.fs, r.result.value, opts, env, r.calls);
  }

  /** Steps 1 to 3 succeed when no step fails, and the decrypted EPUB is
      then on disk, whether or not the encrypted copy is kept. */
  lemma PrepareSucceeds(fs: Fs, acsmPath: Path, outputDir: Path, opts: Options, env: Env)
    requires env.authorized || env.authorizeError.None?
    requires env.fulfilment.Downloaded? && acsmPath in fs.files
    requires env.deviceKey.Success? && env.removalError.None?
    ensures var r := Prepare(fs, acsmPath, outputDir, opts, env);
            && r.result == Success(Child(outputDir, env.fulfilment.name)) && r.result.value in r.fs.files
            && outputDir in r.fs.dirs
  {
    var epub := Child(outputDir, env.fulfilment.name);
    var enc := Child(TempDir(outputDir), env.fulfilment.name);
    assert epub != enc by {
      assert enc.parent == ToString(TempDir(outputDir));
      assert ToString(TempDir(outputDir)) == ToString(outputDir) + "/" + ".temp";
      assert |enc.parent| > |epub.parent|;
    }
    assert outputDir != TempDir(outputDir) by {
      assert |TempDir(outputDir).parent| > |outputDir.parent|;
    }
  }

  /** A fulfilment that fails after its guards have passed leaves
      `output_dir` and `output_dir/.temp` behind and nothing else; one
      refused by a guard leaves the file system as it was. Either way the
      run ends with that ACSMFulfillmentError. */
  lemma FulfilmentFailureLeavesDirs(fs: Fs, acsmPath: Path, outputDir: Path, opts: Options, env: Env)
    requires env.authorized || env.authorizeError.None?
    requires !env.fulfilment.Downloaded? || acsmPath !in fs.files
    ensures var r := Process(fs, acsmPath, outputDir, opts, env);
            && r.result.Failure? && r.result.error.ACSMFulfillmentError?
            && (env.fulfilment.Failed? && acsmPath in fs.files ==>
                  r.result.error.reason == env.fulfilment.reason
                  && r.fs == Fs(fs.files, fs.dirs + {outputDir, TempDir(outputDir)}))
            && (env.fulfilment.NotAuthorized? || acsmPath !in fs.files ==> r.fs == fs)
  {
    FulfilOutcome(fs, acsmPath, TempDir(outputDir), outputDir, env.fulfilment);
  }

  /** The conversion step always succeeds: with the PDF when a conversion
      was attempted and did not raise (the EPUB then deleted unless
      `keep_encrypted`), with the EPUB, kept, otherwise. */
  lemma ConvertStepOutcome(fs: Fs, current: Path, opts: Options, env: Env, calls: seq<Call>)
    requires current in fs.files
    ensures var r := ConvertStep(fs, current, opts, env, calls);
            var converts := opts.toPdf && Suffix(current) == ".epub" && NewEngine(opts.convertEngine).Success?
                            && env.conversionError.None?;
            && r.result.Success?
            && (converts ==> r.result.value == WithSuffix(current, ".pdf") && r.result.value in r.fs.files
                             && (current in r.fs.files <==> opts.keepEncrypted))
            && (!converts ==> r.result.value == current && current in r.fs.files)
  {
    if opts.toPdf && Suffix(current) == ".epub" {
      WithSuffixSuffix(current, ".pdf");
    }
  }

  /** `optimize` changes nothing. */
  lemma OptimizeIgnored(fs: Fs, acsmPath: Path, outputDir: Path, opts: Options, env: Env)
    ensures Process(fs, acsmPath, outputDir, opts.(optimize := true), env)
            == Process(fs, acsmPath, outputDir, opts.(optimize := false), env)
  {
    assert Prepare(fs, acsmPath, outputDir, opts.(optimize := true), env)
        == Prepare(fs, acsmPath, outputDir, opts.(optimize := false), env);
  }

  /** The file system, changed in place by the run. */
  class FileSystem {
    var files: set<Path>
    var dirs: set<Path>

    constructor (files: set<Path>, dirs: set<Path>)
      ensures this.files == files && this.dirs == dirs
    {
      this.files := files;
      this.dirs := dirs;
    }
  }

  /** `BookLoader.process_acsm`. */
  method ProcessAcsm(fs: FileSystem, acsmPath: Path, outputDir: Path, opts: Options, env: Env)
    returns (r: Result<Path, Error>, calls: seq<Call>)
    modifies fs
    ensures Run(r, Fs(fs.files, fs.dirs), calls) == Process(old(Fs(fs.files, fs.dirs)), acsmPath, outputDir, opts, env)
  {
    r, calls := PrepareSteps(fs, acsmPath, outputDir, opts, env);
    if r.Success? {
      r, calls := ConvertSteps(fs, r.value, opts, env, calls);
    }
  }

  /** Steps 1 to 3: authorization, fulfilment, DRM removal, clean-up. */
  method PrepareSteps(fs: FileSystem, acsmPath: Path, outputDir: Path, opts: Options, env: Env)
    returns (r: Result<Path, Error>, calls: seq<Call>)
    modifies fs
    ensures Run(r, Fs(fs.files, fs.dirs), calls) == Prepare(old(Fs(fs.files, fs.dirs)), acsmPath, outputDir, opts, env)
  {
    calls := [];
    if !env.authorized {
      calls := calls + [Authorize];
      if env.authorizeError.Some? {
        return Failure(env.authorizeError.value), calls;
      }
    }
    var tempDir := Child(outputDir, ".temp");
    calls := calls + [Fulfill(acsmPath, tempDir)];
    if env.fulfilment.NotAuthorized? {
      return Failure(ACSMFulfillmentError("Not authorized, please authorize first")), calls;
    }
    if acsmPath !in fs.files {
      return Failure(ACSMFulfillmentError("ACSM file not found: " + ToString(acsmPath))), calls;
    }
    fs.dirs := fs.dirs + {outputDir, tempDir};
    if env.fulfilment.Failed? {
      return Failure(ACSMFulfillmentError(env.fulfilment.reason)), calls;
    }
    var encryptedPath := Child(tempDir, env.fulfilment.name);
    fs.files := fs.files + {encryptedPath};
    var decryptedPath := Child(outputDir, encryptedPath.name);
    calls := calls + [GetDeviceKey];
    if env.deviceKey.Failure? {
      return Failure(env.deviceKey.error), calls;
    }
    calls := calls + [RemoveDrm(encryptedPath, decryptedPath)];
    if env.removalError.Some? {
      return Failure(env.removalError.value), calls;
    }
    fs.files := fs.files + {decryptedPath};
    if !opts.keepEncrypted {
      fs.files := fs.files - {encryptedPath};
      if tempDir in fs.dirs && IsEmptyDir(Fs(fs.files, fs.dirs), tempDir) {
        fs.dirs := fs.dirs - {tempDir};
      }
    }
    return Success(decryptedPath), calls;
  }

  /** Step 5: the optional conversion; `current_path` is reassigned on
      success. */
  method ConvertSteps(fs: FileSystem, decryptedPath: Path, opts: Options, env: Env, callsBefore: seq<Call>)
    returns (r: Result<Path, Error>, calls: seq<Call>)
    modifies fs
    ensures Run(r, Fs(fs.files, fs.dirs), calls) == ConvertStep(old(Fs(fs.files, fs.dirs)), decryptedPath, opts, env, callsBefore)
  {
    calls := callsBefore;
    var currentPath := decryptedPath;
    if opts.toPdf && Suffix(currentPath) == ".epub" {
      var pdfPath := WithSuffix(currentPath, ".pdf");
      var engine := NewEngine(opts.convertEngine);
      if engine.Success? {
        calls := calls + [Convert(ConvertEpubToPdf(engine.value, currentPath, pdfPath)[0])];
        if env.conversionError.None? {
          fs.files := fs.files + {pdfPath};
          if !opts.keepEncrypted {
            fs.files := fs.files - {currentPath};
          }
          currentPath := pdfPath;
        }
      }
    }
    return Success(currentPath), calls;
  }
}
