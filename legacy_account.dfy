/** The older Adobe account variant (core/adobe/account.py): only the three
    standard credential files count, and the account type is read from the
    `credentials` element. */
module LegacyAccount {
  import opened Wrappers
  import opened Text
  import opened Errors
  import opened Adept
  import Account

  const ACTIVATION_XML: string := "activation.xml"
  const DEVICE_XML: string := "device.xml"
  const DEVICESALT: string := "devicesalt"

  /** The files `reset` deletes, in its order. */
  const CREDENTIAL_FILES: seq<string> := [ACTIVATION_XML, DEVICE_XML, DEVICESALT]

  class AdobeAccount {
    /** the contents of `auth_dir` */
    var files: map<string, string>

    constructor (existing: Option<map<string, string>>)
      ensures files == if existing.Some? then existing.value else map[]
    {
      files := if existing.Some? then existing.value else map[];
    }

    /** `is_authorized`: all three files; activation.dat plays no part. */
    predicate IsAuthorized()
      reads this
    {
      ACTIVATION_XML in files && DEVICE_XML in files && DEVICESALT in files
    }

    /** `get_auth_type`: "none" when not authorized; otherwise the `method`
        attribute of the first `adept:credentials` element with default
        "anonymous" (so an empty attribute gives ""), "anonymous" without
        such an element, "unknown" when the file cannot be parsed. */
    function GetAuthType(parse: string -> Result<Document, string>): (t: string)
      reads this
      ensures !IsAuthorized() ==> t == "none"
      ensures IsAuthorized() && parse(files[ACTIVATION_XML]).Failure? ==> t == "unknown"
      ensures IsAuthorized() && parse(files[ACTIVATION_XML]).Success? ==>
                var c := Find(parse(files[ACTIVATION_XML]).value, ADEPT_NS + "credentials");
                && (c.None? ==> t == "anonymous")
                && (c.Some? && "method" !in c.value.attrs ==> t == "anonymous")
                && (c.Some? && "method" in c.value.attrs ==> t == c.value.attrs["method"])
    {
      if !IsAuthorized() then "none"
      else match parse(files[ACTIVATION_XML])
        case Failure(_) => "unknown"
        case Success(doc) =>
          match Find(doc, ADEPT_NS + "credentials")
          case None => "anonymous"
          case Some(c) => Get(c, "method", "anonymous")
    }

    /** An authorized account whose credentials carry `method=""` reports
        the empty type. */
    lemma EmptyMethodReported(parse: string -> Result<Document, string>)
      requires IsAuthorized() && parse(files[ACTIVATION_XML]).Success?
      requires var c := Find(parse(files[ACTIVATION_XML]).value, ADEPT_NS + "credentials");
               c.Some? && "method" in c.value.attrs && c.value.attrs["method"] == []
      ensures GetAuthType(parse) == []
    {
    }

    /** `get_device_key`, as in the current variant. */
    function GetDeviceKey(parse: string -> Result<Document, string>, b64decode: string -> Option<seq<byte>>)
      : (r: Result<seq<byte>, Error>)
      reads this
      ensures r.Failure? ==> r.error.AuthorizationError?
      ensures ACTIVATION_XML !in files ==> r == Failure(AuthorizationError("授權檔案不存在，請先執行授權"))
      ensures r.Success? <==>
                && ACTIVATION_XML in files
                && parse(files[ACTIVATION_XML]).Success?
                && KeyText(parse(files[ACTIVATION_XML]).value).Some?
                && b64decode(Strip(KeyText(parse(files[ACTIVATION_XML]).value).value)).Some?
      ensures r.Success? ==> r.value == b64decode(Strip(KeyText(parse(files[ACTIVATION_XML]).value).value)).value
    {
      if ACTIVATION_XML !in files then Failure(AuthorizationError("授權檔案不存在，請先執行授權"))
      else match parse(files[ACTIVATION_XML])
        case Failure(msg) => Failure(AuthorizationError("提取私鑰失敗: " + msg))
        case Success(doc) =>
          match KeyText(doc)
          case None => Failure(AuthorizationError("提取私鑰失敗: 無法從授權檔案中提取私鑰"))
          case Some(text) =>
            match b64decode(Strip(text))
            case None => Failure(AuthorizationError("提取私鑰失敗: binascii.Error"))
            case Some(key) => Success(key)
    }

    /** `reset`: the three standard files go; activation.dat and everything
        else stay. */
    method Reset()
      modifies this
      ensures files == old(files) - set i | 0 <= i < |CREDENTIAL_FILES| :: CREDENTIAL_FILES[i]
      ensures !IsAuthorized()
      ensures (forall i :: 0 <= i < |CREDENTIAL_FILES| ==> CREDENTIAL_FILES[i] !in old(files)) ==> files == old(files)
    {
      for i := 0 to |CREDENTIAL_FILES|
        invariant files == old(files) - set k | 0 <= k < i :: CREDENTIAL_FILES[k]
      {
        if CREDENTIAL_FILES[i] in files {
          files := files - {CREDENTIAL_FILES[i]};
        }
        assert (set k | 0 <= k < i + 1 :: CREDENTIAL_FILES[k]) == (set k | 0 <= k < i :: CREDENTIAL_FILES[k]) + {CREDENTIAL_FILES[i]};
      }
      assert CREDENTIAL_FILES[0] == ACTIVATION_XML;
    }
  }

  /** The two variants agree on every directory except one holding
      activation.dat without all three standard files: only the current
      variant calls that authorized. */
  lemma AuthorizationCompared(current: Account.AdobeAccount, legacy: AdobeAccount)
    requires current.files == legacy.files
    ensures legacy.IsAuthorized() ==> current.IsAuthorized()
    ensures current.IsAuthorized() && !legacy.IsAuthorized() <==>
              Account.ACTIVATION_DAT in legacy.files && !legacy.IsAuthorized()
  {
  }
}
