/** The portable path grammar (rust/src/directory.rs) and lexical symlink containment. */
module Paths {
  import opened Wire
  import Utf8

  const SLASH: byte := 0x2f
  const BACKSLASH: byte := 0x5c
  const COLON: byte := 0x3a
  const DOT: byte := 0x2e
  const MAX_ENTRIES: nat := 1_000_000
  const MAX_PATH_BYTES: nat := 4096

  datatype DirError =
    | EmptyPath | InvalidUtf8 | AbsolutePath | BackslashSeparator | NulByte | InvalidComponent
    | DrivePrefix | PathsNotSorted | DuplicatePath | MissingParent | ParentNotDirectory
    | InvalidMode | InvalidEntryData | SymlinkEscapesRoot | TooManyEntries | PathTooLong
    | InvalidHardlinkRelation | InvalidSparseExtent

  predicate IsAlphabetic(b: byte) {
    0x41 <= b <= 0x5a || 0x61 <= b <= 0x7a
  }

  predicate DrivePrefixed(s: bytes) {
    |s| >= 2 && IsAlphabetic(s[0]) && s[1] == COLON
  }

  /* ---------- Components ---------- */

  /** The pieces between separators; there is always at least one. */
  function Split(s: bytes): (parts: seq<bytes>)
    ensures |parts| >= 1
  {
    if s == [] then [[]]
    else
      var rest := Split(s[1..]);
      if s[0] == SLASH then [[]] + rest else [[s[0]] + rest[0]] + rest[1..]
  }

  function Join(parts: seq<bytes>): (s: bytes)
    requires |parts| >= 1
  {
    if |parts| == 1 then parts[0] else parts[0] + [SLASH] + Join(parts[1..])
  }

  function Slashes(s: bytes): (n: nat)
  {
    if s == [] then 0 else (if s[0] == SLASH then 1 else 0) + Slashes(s[1..])
  }

  lemma JoinCons(parts: seq<bytes>)
    requires |parts| > 1
    ensures Join(parts) == parts[0] + [SLASH] + Join(parts[1..])
  {
  }

  lemma Regroup(a: bytes, b: bytes, c: bytes, d: bytes)
    ensures a + b + c + d == a + (b + c + d)
  {
  }

  lemma JoinPrepend(b: byte, parts: seq<bytes>)
    requires |parts| >= 1
    ensures Join([[b] + parts[0]] + parts[1..]) == [b] + Join(parts)
  {
    var grown := [[b] + parts[0]] + parts[1..];
    assert grown[0] == [b] + parts[0] && grown[1..] == parts[1..];
    if |parts| > 1 {
      JoinCons(grown);
      JoinCons(parts);
      Regroup([b], parts[0], [SLASH], Join(parts[1..]));
    }
  }

  /** Splitting is exactly undone by joining, and no piece contains a separator. */
  lemma {:induction false} JoinOfSplit(s: bytes)
    ensures Join(Split(s)) == s
    ensures forall part :: part in Split(s) ==> SLASH !in part
    ensures |Split(s)| == Slashes(s) + 1
  {
    if s != [] {
      var rest := Split(s[1..]);
      JoinOfSplit(s[1..]);
      if s[0] == SLASH {
        assert Split(s)[1..] == rest;
      } else {
        JoinPrepend(s[0], rest);
        assert rest[0] in rest;
      }
      assert s == [s[0]] + s[1..];
    }
  }

  lemma {:induction false} SplitWhole(s: bytes)
    requires SLASH !in s
    ensures Split(s) == [s]
  {
    if s != [] {
      SplitWhole(s[1..]);
      assert s == [s[0]] + s[1..];
    }
  }

  lemma {:induction false} SplitFirst(a: bytes, b: bytes)
    requires SLASH !in a
    ensures Split(a + [SLASH] + b) == [a] + Split(b)
  {
    var s := a + [SLASH] + b;
    if a == [] {
      assert s[1..] == b;
    } else {
      assert s[1..] == a[1..] + [SLASH] + b;
      SplitFirst(a[1..], b);
      assert a == [a[0]] + a[1..];
    }
  }

  /** What follows the last separator is the last piece. */
  lemma {:induction false} LastPiece(s: bytes, i: nat)
    requires i < |s| && s[i] == SLASH && SLASH !in s[i + 1..]
    ensures |Split(s)| >= 2 && Split(s)[|Split(s)| - 1] == s[i + 1..]
  {
    if i == 0 {
      SplitWhole(s[1..]);
    } else {
      assert s[1..][i..] == s[i + 1..];
      LastPiece(s[1..], i - 1);
    }
  }

  predicate IsDot(part: bytes) { part == [DOT] }

  predicate IsDotDot(part: bytes) { part == [DOT, DOT] }

  predicate BadComponent(part: bytes) {
    part == [] || IsDot(part) || IsDotDot(part)
  }

  /* ---------- Grammar ---------- */

  /** The checks shared by paths and symlink targets, in order of precedence. */
  function TextFault(s: bytes): (fault: Option<DirError>)
  {
    if !Utf8.Valid(s) then Some(InvalidUtf8)
    else if s != [] && s[0] == SLASH then Some(AbsolutePath)
    else if BACKSLASH in s then Some(BackslashSeparator)
    else if 0 in s then Some(NulByte)
    else if DrivePrefixed(s) then Some(DrivePrefix)
    else None
  }

  function PathFault(path: bytes): (fault: Option<DirError>)
  {
    if path == [] then Some(EmptyPath)
    else if |path| > MAX_PATH_BYTES then Some(PathTooLong)
    else if TextFault(path).Some? then TextFault(path)
    else if exists part :: part in Split(path) && BadComponent(part) then Some(InvalidComponent)
    else None
  }

  predicate ValidPath(path: bytes) {
    PathFault(path).None?
  }

  lemma {:induction false} SplitOfJoin(parts: seq<bytes>)
    requires |parts| >= 1 && forall part :: part in parts ==> SLASH !in part
    ensures Split(Join(parts)) == parts
  {
    if |parts| == 1 {
      assert parts[0] in parts;
      SplitWhole(parts[0]);
    } else {
      assert parts[0] in parts;
      SplitOfJoin(parts[1..]);
      SplitFirst(parts[0], Join(parts[1..]));
      assert parts == [parts[0]] + parts[1..];
    }
  }

  /** A name a path may consist of: not empty, not a dot or two, and without separators or NUL. */
  predicate ComponentOk(part: bytes) {
    part != [] && part != [0x2e] && part != [0x2e, 0x2e] && 0x2f !in part && 0x5c !in part && 0 !in part
  }

  /** Valid paths are exactly the UTF-8 joins of such names, up to 4096 bytes, not starting like a drive. */
  lemma PathsAreComponents(path: bytes)
    ensures ValidPath(path) <==>
            && |path| <= 4096 && Utf8.Valid(path) && !(|path| >= 2 && IsAlphabetic(path[0]) && path[1] == 0x3a)
            && exists parts :: |parts| >= 1 && path == Join(parts) && forall part :: part in parts ==> ComponentOk(part)
  {
    hide Utf8.Valid, Split, Join;
    JoinOfSplit(path);
    if ValidPath(path) {
      forall part | part in Split(path) ensures ComponentOk(part) {
        PartOfJoin(Split(path), part);
      }
    }
    if parts :| |parts| >= 1 && path == Join(parts) && forall part :: part in parts ==> ComponentOk(part) {
      SplitOfJoin(parts);
      JoinBytes(parts);
    }
  }

  /** A part's bytes are among those of the whole. */
  lemma {:induction false} PartOfJoin(parts: seq<bytes>, part: bytes)
    requires part in parts
    ensures forall b :: b in part ==> b in Join(parts)
  {
    if |parts| > 1 {
      JoinCons(parts);
      if part != parts[0] {
        assert part in parts[1..];
        PartOfJoin(parts[1..], part);
      }
    }
  }

  lemma {:induction false} JoinBytes(parts: seq<bytes>)
    requires |parts| >= 1 && forall part :: part in parts ==> ComponentOk(part)
    ensures var s := Join(parts); s != [] && s[0] != SLASH && BACKSLASH !in s && 0 !in s
  {
    var first := parts[0];
    assert first in parts && first[0] in first;
    if |parts| > 1 {
      JoinCons(parts);
      JoinBytes(parts[1..]);
    }
  }

  /* ---------- Symlink targets ---------- */

  /** What the depth counter reports for the remaining components. */
  function DepthFault(depth: nat, parts: seq<bytes>): (fault: Option<DirError>)
    ensures fault.Some? ==> fault.value == InvalidComponent || fault.value == SymlinkEscapesRoot
    decreases |parts|
  {
    if parts == [] then None
    else if parts[0] == [] then Some(InvalidComponent)
    else if IsDot(parts[0]) then DepthFault(depth, parts[1..])
    else if IsDotDot(parts[0]) then
      if depth == 0 then Some(SymlinkEscapesRoot) else DepthFault(depth - 1, parts[1..])
    else DepthFault(depth + 1, parts[1..])
  }

  function SymlinkFault(link: bytes, target: bytes): (fault: Option<DirError>)
  {
    if PathFault(link).Some? then PathFault(link)
    else if target == [] then Some(InvalidEntryData)
    else if TextFault(target).Some? then TextFault(target)
    else DepthFault(Slashes(link), Split(target))
  }

  /** The counter after a run of components, or nothing once it would go below zero. */
  function Counter(depth: nat, parts: seq<bytes>): (r: Option<nat>)
  {
    if parts == [] then Some(depth)
    else
      var before :- Counter(depth, parts[..|parts| - 1]);
      var part := parts[|parts| - 1];
      if IsDot(part) then Some(before)
      else if IsDotDot(part) then if before == 0 then None else Some(before - 1)
      else Some(before + 1)
  }

  /** The counting loop as the program runs it. */
  method ValidateSymlinkTarget(link: bytes, target: bytes) returns (fault: Option<DirError>)
    ensures fault == SymlinkFault(link, target)
  {
    fault := PathFault(link);
    if fault.Some? {
      return;
    }
    if target == [] {
      return Some(InvalidEntryData);
    }
    fault := TextFault(target);
    if fault.Some? {
      return;
    }
    var depth := Slashes(link);
    var parts := Split(target);
    for i := 0 to |parts|
      invariant SymlinkFault(link, target) == DepthFault(depth, parts[i..])
      invariant Counter(Slashes(link), parts[..i]) == Some(depth)
    {
      assert parts[..i + 1][..i] == parts[..i];
      assert parts[i..][1..] == parts[i + 1..];
      if parts[i] == [] {
        return Some(InvalidComponent);
      } else if IsDot(parts[i]) {
      } else if IsDotDot(parts[i]) {
        if depth == 0 {
          return Some(SymlinkEscapesRoot);
        }
        depth := depth - 1;
      } else {
        depth := depth + 1;
      }
    }
    fault := None;
  }

  /** Reference semantics: walk the components over a stack of directory names. */
  function Resolve(stack: seq<bytes>, parts: seq<bytes>): (r: Option<seq<bytes>>)
  {
    if parts == [] then Some(stack)
    else
      var before :- Resolve(stack, parts[..|parts| - 1]);
      var part := parts[|parts| - 1];
      if IsDot(part) then Some(before)
      else if IsDotDot(part) then
        if before == [] then None else Some(before[..|before| - 1])
      else Some(before + [part])
  }

  /** The directory that holds the link, as a stack of names below the root. */
  function ParentStack(link: bytes): (stack: seq<bytes>)
    ensures |stack| == Slashes(link)
  {
    JoinOfSplit(link);
    Split(link)[..Slashes(link)]
  }

  lemma {:induction false} ResolveCons(stack: seq<bytes>, parts: seq<bytes>)
    requires parts != []
    ensures Resolve(stack, parts) ==
            match Resolve(stack, [parts[0]])
            case None => None
            case Some(next) => Resolve(next, parts[1..])
  {
    var init := parts[..|parts| - 1];
    if init == [] {
      assert parts == [parts[0]];
    } else {
      ResolveCons(stack, init);
      assert init[1..] == parts[1..][..|parts| - 2];
    }
  }

  lemma ResolveOne(stack: seq<bytes>, part: bytes)
    ensures Resolve(stack, [part]) ==
            if IsDot(part) then Some(stack)
            else if IsDotDot(part) then if stack == [] then None else Some(stack[..|stack| - 1])
            else Some(stack + [part])
  {
    assert Resolve(stack, []) == Some(stack);
    assert [part][..0] == [];
  }

  /** After every prefix of the components the counter is the height of the stack. */
  lemma {:induction false} CounterIsStackHeight(stack: seq<bytes>, parts: seq<bytes>)
    ensures Counter(|stack|, parts) == match Resolve(stack, parts)
                                       case None => None
                                       case Some(st) => Some(|st|)
    decreases |parts|
  {
    if parts != [] {
      CounterIsStackHeight(stack, parts[..|parts| - 1]);
    }
  }

  /** The counter runs out exactly when some pop would find the stack empty. */
  lemma {:induction false} DepthIsStackHeight(stack: seq<bytes>, parts: seq<bytes>)
    requires [] !in parts
    ensures DepthFault(|stack|, parts).None? <==> Resolve(stack, parts).Some?
    ensures DepthFault(|stack|, parts).Some? ==> DepthFault(|stack|, parts).value == SymlinkEscapesRoot
    decreases |parts|
  {
    if parts != [] {
      ResolveCons(stack, parts);
      ResolveOne(stack, parts[0]);
      if IsDot(parts[0]) {
        DepthIsStackHeight(stack, parts[1..]);
      } else if IsDotDot(parts[0]) {
        if stack != [] {
          DepthIsStackHeight(stack[..|stack| - 1], parts[1..]);
        }
      } else {
        DepthIsStackHeight(stack + [parts[0]], parts[1..]);
      }
    }
  }

  lemma {:induction false} ResolvePrefix(stack: seq<bytes>, parts: seq<bytes>, k: nat)
    requires k <= |parts| && Resolve(stack, parts).Some?
    ensures Resolve(stack, parts[..k]).Some?
    decreases |parts| - k
  {
    if k == |parts| {
      assert parts[..k] == parts;
    } else {
      ResolvePrefix(stack, parts, k + 1);
      assert parts[..k + 1][..k] == parts[..k];
    }
  }

  lemma {:induction false} EmptyComponentFaults(depth: nat, parts: seq<bytes>)
    requires [] in parts
    ensures DepthFault(depth, parts).Some?
    decreases |parts|
  {
    if parts[0] != [] {
      assert [] in parts[1..];
      if IsDot(parts[0]) {
        EmptyComponentFaults(depth, parts[1..]);
      } else if IsDotDot(parts[0]) {
        if depth > 0 {
          EmptyComponentFaults(depth - 1, parts[1..]);
        }
      } else {
        EmptyComponentFaults(depth + 1, parts[1..]);
      }
    }
  }

  /**
   A target is accepted exactly when the link path is valid, the text is acceptable, no
   component is empty, and resolving every prefix of it from the link's directory stays at or
   below the root.
   */
  lemma SymlinkContainment(link: bytes, target: bytes)
    ensures SymlinkFault(link, target).None? <==>
            && ValidPath(link) && target != [] && TextFault(target).None?
            && [] !in Split(target)
            && (forall k :: 0 <= k <= |Split(target)| ==> Resolve(ParentStack(link), Split(target)[..k]).Some?)
  {
    var parts := Split(target);
    var stack := ParentStack(link);
    assert parts[..|parts|] == parts;
    if [] in parts {
      EmptyComponentFaults(|stack|, parts);
    } else {
      DepthIsStackHeight(stack, parts);
      if Resolve(stack, parts).Some? {
        forall k | 0 <= k <= |parts| ensures Resolve(stack, parts[..k]).Some? {
          ResolvePrefix(stack, parts, k);
        }
      } else {
        assert Resolve(stack, parts[..|parts|]).None?;
      }
    }
  }
}
