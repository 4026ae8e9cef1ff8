/** Adobe authorization state (adobe/account.py): which credential files
    exist in the authorization directory, what `activation.xml` says about
    the account, and `reset`. The directory is a map from file name to
    content; the XML parser and base64 are function parameters. Network
    authorization is not part of this model. */
module Account {
  import opened Wrappers
  import opened Text
  import opened Errors
  import opened Adept

  const ACTIVATION_XML: string := "activation.xml"
  /** the Adobe Digital Editions format */
  const ACTIVATION_DAT: string := "activation.dat"
  const DEVICE_XML: string := "device.xml"
  const DEVICESALT: string := "devicesalt"

  /** The files `reset` deletes, in its order. */
  const CREDENTIAL_FILES: seq<string> := [ACTIVATION_XML, ACTIVATION_DAT, DEVICE_XML, DEVICESALT]

  class AdobeAccount {
    /** the contents of `auth_dir` */
    var files: map<string, string>

    /** `mkdir(parents=True, exist_ok=True)`: an absent directory is
        created empty, an existing one is left as it is. */
    constructor (existing: Option<map<string, string>>)
      ensures files == if existing.Some? then existing.value else map[]
    {
      files := if existing.Some? then existing.value else map[];
    }

    /** `is_authorized`: the three standard files, or activation.dat alone. */
    predicate IsAuthorized()
      reads this
    {
      (ACTIVATION_XML in files && DEVICE_XML in files && DEVICESALT in files) || ACTIVATION_DAT in files
    }

    /** Without activation.dat, two of the three standard files are not
        enough; activation.dat alone is. */
    lemma AuthorizedNeedsAllThree()
      ensures ACTIVATION_DAT !in files ==>
                (IsAuthorized() <==> ACTIVATION_XML in files && DEVICE_XML in files && DEVICESALT in files)
      ensures ACTIVATION_DAT in files ==> IsAuthorized()
    {
    }

    /** The `method` attribute of the first `adept:username` element, when
        present and not empty. */
    function UsernameMethod(doc: Document): (m: Option<string>)
      ensures m.Some? ==> m.value != []
      ensures m.Some? <==> Find(doc, ADEPT_NS + "username").Some?
                           && "method" in Find(doc, ADEPT_NS + "username").value.attrs
                           && Find(doc, ADEPT_NS + "username").value.attrs["method"] != []
    {
      match Find(doc, ADEPT_NS + "username")
      case None => None
      case Some(e) => if "method" in e.attrs && e.attrs["method"] != [] then Some(e.attrs["method"]) else None
    }

    /** `get_auth_type`: "none" when not authorized; otherwise the username's
        method, "anonymous" when there is none, "unknown" when activation.xml
        cannot be read or parsed (an activation.dat-only directory). */
    function GetAuthType(parse: string -> Result<Document, string>): (t: string)
      reads this
      ensures !IsAuthorized() ==> t == "none"
      ensures IsAuthorized() && ACTIVATION_XML !in files ==> t == "unknown"
      ensures IsAuthorized() && ACTIVATION_XML in files && parse(files[ACTIVATION_XML]).Failure? ==> t == "unknown"
      ensures IsAuthorized() && ACTIVATION_XML in files && parse(files[ACTIVATION_XML]).Success? ==>
                t == match UsernameMethod(parse(files[ACTIVATION_XML]).value)
                     case Some(m) => m
                     case None => "anonymous"
    {
      if !IsAuthorized() then "none"
      else if ACTIVATION_XML !in files then "unknown"
      else match parse(files[ACTIVATION_XML])
        case Failure(_) => "unknown"
        case Success(doc) =>
          match UsernameMethod(doc)
          case Some(m) => m
          case None => "anonymous"
    }

    /** "none" means not authorized, except for an account whose username
        method is itself "none". */
    lemma AuthTypeNone(parse: string -> Result<Document, string>)
      ensures GetAuthType(parse) == "none" <==>
                || !IsAuthorized()
                || (ACTIVATION_XML in files && parse(files[ACTIVATION_XML]).Success?
                    && UsernameMethod(parse(files[ACTIVATION_XML]).value) == Some("none"))
    {
    }

    /** `get_device_key`: the base64 decoding of the stripped text of the
        first `adept:privateLicenseKey`. Every failure is an
        AuthorizationError; those inside the `try` carry the wrapped
        message. */
    function GetDeviceKey(parse: string -> Result<Document, string>, b64decode: string -> Option<seq<byte>>)
      : (r: Result<seq<byte>, Error>)
      reads this
      ensures r.Failure? ==> r.error.AuthorizationError?
      ensures ACTIVATION_XML !in files ==>
                r == Failure(AuthorizationError("Authorization file not found, please authorize first"))
      ensures r.Success? <==>
                && ACTIVATION_XML in files
                && parse(files[ACTIVATION_XML]).Success?
                && KeyText(parse(files[ACTIVATION_XML]).value).Some?
                && b64decode(Strip(KeyText(parse(files[ACTIVATION_XML]).value).value)).Some?
      ensures r.Success? ==> r.value == b64decode(Strip(KeyText(parse(files[ACTIVATION_XML]).value).value)).value
    {
      if ACTIVATION_XML !in files then Failure(AuthorizationError("Authorization file not found, please authorize first"))
      else match parse(files[ACTIVATION_XML])
        case Failure(msg) => Failure(AuthorizationError("Failed to extract private key: " + msg))
        case Success(doc) =>
          match KeyText(doc)
          case None =>
            Failure(AuthorizationError("Failed to extract private key: Cannot extract private key from authorization file"))
          case Some(text) =>
            match b64decode(Strip(text))
            case None => Failure(AuthorizationError("Failed to extract private key: binascii.Error"))
            case Some(key) => Success(key)
    }

    /** `reset`: each credential file that exists is unlinked; nothing else
        in the directory changes, and afterwards the account is not
        authorized. */
    method Reset()
      modifies this
      ensures files == old(files) - set i | 0 <= i < |CREDENTIAL_FILES| :: CREDENTIAL_FILES[i]
      ensures !IsAuthorized()
      ensures (forall i :: 0 <= i < |CREDENTIAL_FILES| ==> CREDENTIAL_FILES[i] !in old(files)) ==> files == old(files)
    {
      for i := 0 to |CREDENTIAL_FILES|
        invariant files == old(files) - set k | 0 <= k < i :: CREDENTIAL_FILES[k]
      {
        if CREDENTIAL_FILES[i] in files {
          files := files - {CREDENTIAL_FILES[i]};
        }
        assert (set k | 0 <= k < i + 1 :: CREDENTIAL_FILES[k]) == (set k | 0 <= k < i :: CREDENTIAL_FILES[k]) + {CREDENTIAL_FILES[i]};
      }
      assert CREDENTIAL_FILES[0] == ACTIVATION_XML && CREDENTIAL_FILES[1] == ACTIVATION_DAT;
    }
  }
}
