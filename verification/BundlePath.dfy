/** Bundle paths: what a shipped path may look like, and its case-folded form. */
module BundlePath {
  import opened Text

  // A directory entry's name.  The file system itself keeps out empty names and separators.
  type Name = s: string | s != "" && '/' !in s witness "a"

  // Where an entry is below the bundle root: the names on the way to it.
  type Position = seq<Name>

  const UNSAFE := "<>:\"/\\|?*"

  predicate IsControl(c: char) {
    c < ' ' || '\U{7f}' <= c <= '\U{9f}'
  }

  predicate IsReservedDeviceNumber(suffix: string) {
    suffix in {"1", "2", "3", "4", "5", "6", "7", "8", "9", "\U{b9}", "\U{b2}", "\U{b3}"}
  }

  predicate IsReservedDevice(stem: string) {
    || stem in {"CON", "PRN", "AUX", "NUL"}
    || ("COM" <= stem && IsReservedDeviceNumber(stem[3..]))
    || ("LPT" <= stem && IsReservedDeviceNumber(stem[3..]))
  }

  predicate ValidComponent(component: string) {
    && component !in {"", ".", ".."}
    && component[|component| - 1] !in {'.', ' '}
    && (forall c :: c in component ==> !IsControl(c) && c !in UNSAFE)
    && !IsReservedDevice(ToAsciiUppercase(Split(component, '.')[0]))
    && forall c :: c in component ==> c < '\U{80}'
  }

  predicate ValidRelativePath(path: string) {
    && path != ""
    && path[0] != '/' && path[|path| - 1] != '/' && '\\' !in path
    && forall component :: component in Split(path, '/') ==> ValidComponent(component)
  }

  predicate ValidPosition(position: Position) {
    forall name :: name in position ==> ValidComponent(name)
  }

  function PathOf(position: Position): string {
    Join(position, '/')
  }

  function FoldPath(path: string): string {
    ToAsciiLowercase(path)
  }

  function Fold(position: Position): string {
    FoldPath(PathOf(position))
  }

  /** A path says where its entry is: positions and joined paths correspond one to one. */
  lemma PathInjective(position: Position)
    requires position != []
    ensures Split(PathOf(position), '/') == position
  {
    SplitJoin(position, '/');
  }

  lemma {:induction false} PathEnds(position: Position)
    requires position != []
    ensures PathOf(position) != ""
    ensures PathOf(position)[0] == position[0][0]
    ensures var last := position[|position| - 1]; PathOf(position)[|PathOf(position)| - 1] == last[|last| - 1]
  {
    if |position| > 1 {
      PathEnds(position[1..]);
    }
  }

  lemma {:induction false} PathCharacters(position: Position, c: char)
    requires c in PathOf(position) && c != '/'
    ensures exists name :: name in position && c in name
  {
    if |position| > 1 && c !in position[0] {
      PathCharacters(position[1..], c);
    }
  }

  /** Validating every name is enough: the joined path then passes the whole-path check. */
  lemma JoinedPathValid(position: Position)
    requires position != [] && ValidPosition(position)
    ensures ValidRelativePath(PathOf(position))
  {
    PathInjective(position);
    PathEnds(position);
    if '\\' in PathOf(position) {
      PathCharacters(position, '\\');
    }
  }

  // ---- folded paths and directories ---------------------------------------------------

  lemma {:induction false} PathPrefix(position: Position, n: nat) returns (k: nat)
    requires n < |PathOf(position)| && PathOf(position)[n] == '/'
    ensures 0 < k < |position| && PathOf(position[..k]) == PathOf(position)[..n]
  {
    var first := position[0];
    assert PathOf(position)[..|first|] == first;
    assert forall i :: 0 <= i < |first| ==> PathOf(position)[i] == first[i] && first[i] in first;
    if n == |first| {
      k := 1;
      assert position[..1] == [first];
    } else {
      var rest := position[1..];
      assert PathOf(rest)[n - |first| - 1] == '/';
      var j := PathPrefix(rest, n - |first| - 1);
      k := j + 1;
      assert position[..k][1..] == rest[..j];
    }
  }

  /** A folded path that continues another folded path as a component prefix passes through a
      directory with that same folded path. */
  lemma FoldedPrefixIsAncestor(p: Position, q: Position) returns (k: nat)
    requires q != [] && Fold(p) + "/" <= Fold(q)
    ensures 0 < k < |q| && Fold(q[..k]) == Fold(p)
  {
    var n := |PathOf(p)|;
    assert Fold(q)[n] == '/';
    assert AsciiLower(PathOf(q)[n]) == '/';
    k := PathPrefix(q, n);
    assert Fold(q[..k]) == Fold(q)[..n] == Fold(p);
  }
}
