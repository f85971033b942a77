/** `Path::file_name` and `Path::extension` from Rust's standard library, on
    `/`-separated paths: the server takes the MIME type from the extension
    of the requested path. */
module RustPath {

  import opened Wrappers
  import opened Bytes

  /** The position of the last `b` in `s`. */
  function LastIndex(s: Str, b: Byte): (r: Option<nat>)
    ensures r.Some? ==> r.value < |s| && s[r.value] == b
    ensures r.Some? ==> forall j | r.value < j < |s| :: s[j] != b
    ensures r.None? ==> forall j | 0 <= j < |s| :: s[j] != b
  {
    if |s| == 0 then None
    else if s[|s| - 1] == b then Some(|s| - 1)
    else LastIndex(s[..|s| - 1], b)
  }

  lemma LastIndexAt(s: Str, b: Byte, k: nat)
    requires k < |s| && s[k] == b
    requires forall j | k < j < |s| :: s[j] != b
    ensures LastIndex(s, b) == Some(k)
  {
  }

  /** The last component of `p` starts at `k`: right after a `/` (or at
      the start), with no `/` from there on. */
  predicate LastComponentAt(p: Str, k: nat) {
    k <= |p| && (k == 0 || p[k - 1] == SLASH) && forall j | k <= j < |p| :: p[j] != SLASH
  }

  /** `Path::file_name`: the last component, where empty components (from
      repeated or trailing separators) and `.` components do not count; a
      path ending in `..`, the root and the empty path have none. A last
      component that is a normal name is the file name. */
  function FileName(p: Str): (r: Option<Str>)
    decreases |p|
    ensures r.Some? ==> 0 < |r.value| && r.value != [DOT] && r.value != [DOT, DOT]
    ensures r.Some? ==> forall j | 0 <= j < |r.value| :: r.value[j] != SLASH
    ensures forall k: nat {:trigger LastComponentAt(p, k)} |
              LastComponentAt(p, k) && p[k..] != [] && p[k..] != [DOT] && p[k..] != [DOT, DOT] :: r == Some(p[k..])
  {
    var k := match LastIndex(p, SLASH) case None => 0 case Some(i) => i + 1;
    assert forall k': nat | LastComponentAt(p, k') :: k' == k by {
      forall k': nat | LastComponentAt(p, k') ensures k' == k {
        if k' > 0 { LastIndexAt(p, SLASH, k' - 1); }
      }
    }
    var last := p[k..];
    if last == [] || last == [DOT] then
      (if k == 0 then None else FileName(p[..k - 1]))
    else if last == [DOT, DOT] then None
    else Some(last)
  }

  /** The name has a `.` somewhere after its first byte. */
  predicate DotAfterStart(name: Str) {
    exists i | 0 < i < |name| :: name[i] == DOT
  }

  /** `Path::extension`: what follows the last `.` of the file name, unless
      there is no `.` or the only one opens the name (`.bashrc`). */
  function Extension(p: Str): (r: Option<Str>)
    ensures r.Some? ==> FileName(p).Some?
    ensures r.Some? ==> exists stem :: 0 < |stem| && FileName(p).value == stem + [DOT] + r.value
    ensures r.Some? ==> forall j | 0 <= j < |r.value| :: r.value[j] != DOT && r.value[j] != SLASH
    ensures FileName(p).Some? && DotAfterStart(FileName(p).value) ==> r.Some?
  {
    match FileName(p)
    case None => None
    case Some(name) =>
      match LastIndex(name, DOT)
      case None => None
      case Some(i) =>
        if i == 0 then None
        else
          assert name == name[..i] + [DOT] + name[i + 1..];
          Some(name[i + 1..])
  }

  /** "lib.rs", "inner/other.txt" and ".bashrc", as bytes. */
  const LIB_RS: Str := [108, 105, 98, 46, 114, 115]
  const OTHER_TXT: Str := [105, 110, 110, 101, 114, 47, 111, 116, 104, 101, 114, 46, 116, 120, 116]
  const BASHRC: Str := [46, 98, 97, 115, 104, 114, 99]

  /** `lib.rs` has extension `rs`. */
  lemma LibRsExtension()
    ensures Extension(LIB_RS) == Some([114, 115])
  {
    assert LastIndex(LIB_RS, SLASH) == None;
    LastIndexAt(LIB_RS, DOT, 3);
  }

  /** `inner/other.txt` has extension `txt`. */
  lemma OtherTxtExtension()
    ensures Extension(OTHER_TXT) == Some([116, 120, 116])
  {
    LastIndexAt(OTHER_TXT, SLASH, 5);
    assert OTHER_TXT[6..] == [111, 116, 104, 101, 114, 46, 116, 120, 116];
    LastIndexAt(OTHER_TXT[6..], DOT, 5);
  }

  /** A hidden file like `.bashrc` has no extension. */
  lemma HiddenFileHasNoExtension()
    ensures Extension(BASHRC) == None
  {
    assert LastIndex(BASHRC, SLASH) == None;
    LastIndexAt(BASHRC, DOT, 0);
  }

  /** A path ending in `..` has no file name, so no extension. */
  lemma ParentHasNoExtension()
    ensures Extension([105, 47, 46, 46]) == None
  {
    LastIndexAt([105, 47, 46, 46], SLASH, 1);
  }
}
