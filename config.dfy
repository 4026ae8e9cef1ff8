/** Where the Adobe credentials live (utils/config.py). Paths are kept as
    the text `Path(...)` is built from; the one directory the resolution may
    create is reported with the result. */
module Config {
  import opened Wrappers

  /** The resolved directory, and the directory created on the way. */
  datatype AuthDir = AuthDir(path: string, created: Option<string>)

  /** Python truthiness of an optional string argument. */
  predicate Truthy(s: Option<string>) {
    s.Some? && s.value != []
  }

  /** `~/.config/book-loader/.adobe` below the home directory. */
  function DefaultAuthDir(home: string): string {
    home + "/.config/book-loader/.adobe"
  }

  /** `_get_auth_dir(custom_dir)`: a truthy argument, else a non-empty
      `BOOK_LOADER_AUTH_DIR`, else the default directory, which alone is
      created. */
  function GetAuthDir(customDir: Option<string>, envDir: Option<string>, home: string): (r: AuthDir)
    ensures Truthy(customDir) ==> r == AuthDir(customDir.value, None)
    ensures !Truthy(customDir) && Truthy(envDir) ==> r == AuthDir(envDir.value, None)
    ensures !Truthy(customDir) && !Truthy(envDir) ==> r.path == DefaultAuthDir(home)
    ensures r.created.Some? <==> !Truthy(customDir) && !Truthy(envDir)
    ensures r.created.Some? ==> r.created.value == r.path
  {
    if Truthy(customDir) then AuthDir(customDir.value, None)
    else if Truthy(envDir) then AuthDir(envDir.value, None)
    else
      var d := DefaultAuthDir(home);
      AuthDir(d, Some(d))
  }

  /** `Config(auth_dir)`. */
  datatype Config = Config(authDir: string)

  function NewConfig(customDir: Option<string>, envDir: Option<string>, home: string): (r: (Config, Option<string>))
    ensures r.0.authDir == GetAuthDir(customDir, envDir, home).path
    ensures r.1 == GetAuthDir(customDir, envDir, home).created
  {
    var d := GetAuthDir(customDir, envDir, home);
    (Config(d.path), d.created)
  }
}
