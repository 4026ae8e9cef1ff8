/** The unified DRM removal front end (drm/remover.py): dispatch on the
    lower-cased suffix, the three-way reading of the decryptor's return
    code, and the wrapping of foreign exceptions. The EPUB and PDF
    decryptors are a function parameter; the copy made for a file without
    DRM is reported, not performed. */
module DrmRemover {
  import opened Wrappers
  import opened Text
  import opened Paths
  import opened Errors

  datatype Format = Epub | Pdf

  /** What a decryptor did: returned a code, or raised. */
  datatype DecryptorOutcome = Returned(code: int) | Raised(error: Error)

  /** What `remove_drm` did: the decryptor it called, whether it copied the
      input to the output, and the exception it raised. */
  datatype Removal = Removal(called: Option<Format>, copied: bool, error: Option<Error>)

  function Label(f: Format): string {
    match f
    case Epub => "EPUB"
    case Pdf => "PDF"
  }

  /** `_decrypt_epub` / `_decrypt_pdf` after the decryptor returned or
      raised: 1 means no DRM and a copy, 0 success, anything else an error
      carrying the code. */
  function Classify(f: Format, outcome: DecryptorOutcome): (r: (bool, Option<Error>))
    ensures outcome.Returned? ==> (r == (true, None) <==> outcome.code == 1)
    ensures outcome.Returned? ==> (r == (false, None) <==> outcome.code == 0)
    ensures outcome.Returned? && outcome.code != 0 && outcome.code != 1 ==>
              r == (false, Some(DRMRemovalError(Label(f) + " decryption failed, error code: " + IntToString(outcome.code))))
    ensures outcome.Raised? ==> r == (false, Some(outcome.error))
  {
    match outcome
    case Raised(e) => (false, Some(e))
    case Returned(code) =>
      if code == 1 then (true, None)
      else if code != 0 then (false, Some(DRMRemovalError(Label(f) + " decryption failed, error code: " + IntToString(code))))
      else (false, None)
  }

  /** `except DRMRemovalError: raise` / `except Exception as e: raise
      DRMRemovalError(...)`. */
  function Wrap(e: Error): (w: Error)
    ensures w.DRMRemovalError?
    ensures e.DRMRemovalError? ==> w == e
    ensures !e.DRMRemovalError? ==> w.reason == "DRM removal failed: " + e.reason
  {
    if e.DRMRemovalError? then e else DRMRemovalError("DRM removal failed: " + e.reason)
  }

  /** The decryptor a lower-cased suffix selects. */
  function FormatOf(suffix: string): (f: Option<Format>)
    ensures f == Some(Epub) <==> suffix == ".epub"
    ensures f == Some(Pdf) <==> suffix == ".pdf"
  {
    if suffix == ".epub" then Some(Epub) else if suffix == ".pdf" then Some(Pdf) else None
  }

  /** `DRMRemover.remove_drm`; `present` is `encrypted_path.exists()`. */
  function RemoveDrm(present: bool, encryptedPath: Path, outputPath: Path, userKey: seq<byte>,
                     decrypt: (Format, seq<byte>, Path, Path) -> DecryptorOutcome): (r: Removal)
    ensures r.error.Some? ==> r.error.value.DRMRemovalError?
    ensures !present ==> r == Removal(None, false, Some(DRMRemovalError("Encrypted file not found: " + ToString(encryptedPath))))
    ensures present ==> r.called == FormatOf(Lower(Suffix(encryptedPath)))
    ensures present && r.called.None? ==>
              r.error == Some(DRMRemovalError("Unsupported file format: " + Lower(Suffix(encryptedPath))))
    ensures r.called.Some? ==>
              var outcome := decrypt(r.called.value, userKey, encryptedPath, outputPath);
              && (r.copied <==> outcome == Returned(1))
              && (r.error.None? <==> outcome == Returned(0) || outcome == Returned(1))
              && (outcome.Raised? ==> r.error == Some(Wrap(outcome.error)))
  {
    if !present then Removal(None, false, Some(DRMRemovalError("Encrypted file not found: " + ToString(encryptedPath))))
    else
      var suffix := Lower(Suffix(encryptedPath));
      match FormatOf(suffix)
      case None => Removal(None, false, Some(DRMRemovalError("Unsupported file format: " + suffix)))
      case Some(f) =>
        var (copied, err) := Classify(f, decrypt(f, userKey, encryptedPath, outputPath));
        Removal(Some(f), copied, if err.Some? then Some(Wrap(err.value)) else None)
  }
}
