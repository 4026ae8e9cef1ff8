/** The parts of `pathlib.PurePosixPath` the core uses. A path is kept as its
    parent directory and its final component, so `.name` needs no parsing:
    `dir / name`, `.name`, `.suffix`, `.with_suffix`. */
module Paths {
  import opened Text

  datatype Path = Path(parent: string, name: string)

  /** The path written out with "/" separators. */
  function ToString(p: Path): string {
    p.parent + "/" + p.name
  }

  /** `dir / name` for a single path component `name`. */
  function Child(dir: Path, name: string): (p: Path)
    ensures p.name == name
  {
    Path(ToString(dir), name)
  }

  /** Index of the last occurrence of `c` in `s`, or -1 (`str.rfind`). */
  function RFind(s: string, c: char): (i: int)
    ensures -1 <= i < |s|
    ensures i >= 0 ==> s[i] == c
    ensures forall k :: i < k < |s| ==> s[k] != c
  {
    if s == [] then -1
    else if s[|s| - 1] == c then |s| - 1
    else RFind(s[..|s| - 1], c)
  }

  /** `name`'s suffix: from its last "." on, unless that dot opens or closes
      the name (so ".bashrc" and "a." have none). */
  function NameSuffix(name: string): (s: string)
    ensures EndsWith(name, s)
    ensures s == [] || (s[0] == '.' && 2 <= |s| < |name|)
    ensures s != [] ==> forall k :: 1 <= k < |s| ==> s[k] != '.'
  {
    var i := RFind(name, '.');
    if 0 < i < |name| - 1 then name[i..] else []
  }

  /** `p.suffix`. */
  function Suffix(p: Path): string {
    NameSuffix(p.name)
  }

  /** `p.with_suffix(s)`: the old suffix of the name, if any, replaced by `s`. */
  function WithSuffix(p: Path, s: string): (r: Path)
    ensures r.parent == p.parent
    ensures EndsWith(r.name, s)
  {
    var old_ := NameSuffix(p.name);
    Path(p.parent, p.name[..|p.name| - |old_|] + s)
  }

  /** After `with_suffix(".pdf")` on a file with a name, the suffix is ".pdf"
      and the stem is unchanged. */
  lemma {:induction false} WithSuffixSuffix(p: Path, s: string)
    requires p.name != [] && |s| >= 2 && s[0] == '.'
    requires forall k :: 1 <= k < |s| ==> s[k] != '.'
    ensures Suffix(WithSuffix(p, s)) == s
  {
    var old_ := NameSuffix(p.name);
    var stem := p.name[..|p.name| - |old_|];
    var n := stem + s;
    assert WithSuffix(p, s).name == n;
    assert n[|stem|] == '.';
    forall k | |stem| < k < |n| ensures n[k] != '.' {
      assert n[k] == s[k - |stem|];
    }
    assert RFind(n, '.') == |stem|;
    assert 0 < |stem|;
    assert n[|stem|..] == s;
  }
}
