/** Lexical path validation (crates/teleport-core/src/path.rs), with Unix
    `std::path` semantics: '/' separates components, a leading '/' is the root,
    repeated separators and interior "." are dropped, a leading "." is `CurDir`.
    A path buffer is the sequence of its component names. */
module Paths {
  import opened Wrappers
  import opened Types
  import Errors

  datatype Component = Normal(name: string) | ParentDir | CurDir | RootDir | Prefix(p: string)

  /** The pieces of `s` between '/' separators (always at least one). */
  function Split(s: string): (parts: seq<string>)
    ensures |parts| >= 1
    ensures forall k :: 0 <= k < |parts| ==> '/' !in parts[k]
  {
    if s == [] then [[]]
    else if s[0] == '/' then [[]] + Split(s[1..])
    else var r := Split(s[1..]); [[s[0]] + r[0]] + r[1..]
  }

  /** A piece after the first: empty pieces and "." vanish. */
  function PieceComponent(piece: string): seq<Component> {
    if piece == [] || piece == "." then []
    else if piece == ".." then [ParentDir]
    else [Normal(piece)]
  }

  function PiecesComponents(pieces: seq<string>): (cs: seq<Component>)
    ensures forall k :: 0 <= k < |cs| ==> cs[k].Normal? || cs[k].ParentDir?
  {
    if pieces == [] then []
    else PieceComponent(pieces[0]) + PiecesComponents(pieces[1..])
  }

  /** `Path::is_absolute` on Unix. */
  predicate IsAbsolute(s: string) {
    |s| > 0 && s[0] == '/'
  }

  /** `Path::components` on Unix; `Prefix` never occurs there. */
  function Components(s: string): seq<Component> {
    var pieces := Split(s);
    if IsAbsolute(s) then [RootDir] + PiecesComponents(pieces[1..])
    else if pieces[0] == "." then [CurDir] + PiecesComponents(pieces[1..])
    else PieceComponent(pieces[0]) + PiecesComponents(pieces[1..])
  }

  /** Every component of a relative path is `Normal`, `ParentDir` or `CurDir`,
      and names never contain '/', are never empty, "." or "..". */
  lemma RelativeComponents(s: string)
    requires !IsAbsolute(s)
    ensures forall k :: 0 <= k < |Components(s)| ==>
      !Components(s)[k].RootDir? && !Components(s)[k].Prefix?
  {
  }

  /** The number of bytes `c` takes in UTF-8: `str::len` counts these. */
  function Utf8Width(c: char): (w: nat)
    ensures 1 <= w <= 4
    ensures w == 1 <==> (c as int) < 0x80
  {
    if (c as int) < 0x80 then 1
    else if (c as int) < 0x800 then 2
    else if (c as int) < 0x1_0000 then 3
    else 4
  }

  /** The length in bytes of the UTF-8 encoding of `s`. */
  function Utf8Len(s: string): nat {
    if s == [] then 0 else Utf8Width(s[0]) + Utf8Len(s[1..])
  }

  /** The byte length lies between the character count and four times it,
      and equals the character count exactly for ASCII text. */
  lemma {:induction false} Utf8LenBounds(s: string)
    ensures |s| <= Utf8Len(s) <= 4 * |s|
    ensures (forall k :: 0 <= k < |s| ==> (s[k] as int) < 0x80) <==> Utf8Len(s) == |s|
  {
    if s != [] {
      Utf8LenBounds(s[1..]);
      assert forall k :: 1 <= k < |s| ==> s[k] == s[1..][k - 1];
    }
  }

  /** Byte lengths add up over concatenation. */
  lemma {:induction false} Utf8Concat(a: string, b: string)
    ensures Utf8Len(a + b) == Utf8Len(a) + Utf8Len(b)
  {
    if a != [] {
      assert (a + b)[0] == a[0] && (a + b)[1..] == a[1..] + b;
      Utf8Concat(a[1..], b);
    } else {
      assert a + b == b;
    }
  }

  /** A run of `n` two-byte characters (such as U+00E9) is `2 * n` bytes long. */
  lemma {:induction false} TwoByteRun(c: char, n: nat)
    requires 0x80 <= (c as int) < 0x800
    ensures Utf8Len(seq(n, _ => c)) == 2 * n
  {
    if n > 0 {
      assert seq(n, _ => c)[1..] == seq(n - 1, _ => c);
      TwoByteRun(c, n - 1);
    }
  }

  /** A name of 200 copies of U+00E9 has only 200 characters but 400 bytes,
      so the byte limit refuses it. */
  lemma WideNameRefused()
    ensures |seq(200, _ => '\U{E9}')| <= MAX_FILENAME_LEN
    ensures ValidateFilename(seq(200, _ => '\U{E9}')) == Err(AsProtocolError(FilenameTooLong))
  {
    var name := seq(200, _ => '\U{E9}');
    TwoByteRun('\U{E9}', 200);
    assert name[0] == '\U{E9}' && '\0' !in name;
  }

  /** Why a path was refused; each becomes `Errors.ProtocolError::PathTraversal`. */
  datatype PathRefusal =
    | NullByte | NameNullByte | PathTooLong | AbsolutePath | FilenameTooLong | ParentNotAllowed
    | PrefixNotAllowed | RootNotAllowed | EscapesBase | EmptyFilename
    | SpecialName | SeparatorInName

  function AsProtocolError(r: PathRefusal): Errors.ProtocolError {
    Errors.PathTraversal(match r
      case NullByte => "path contains null byte"
      case NameNullByte => "filename contains null byte"
      case PathTooLong => "path too long"
      case AbsolutePath => "absolute paths not allowed"
      case FilenameTooLong => "filename too long"
      case ParentNotAllowed => "parent directory (..) not allowed"
      case PrefixNotAllowed => "path prefixes not allowed"
      case RootNotAllowed => "root directory not allowed in relative path"
      case EscapesBase => "path escapes base directory"
      case EmptyFilename => "empty filename"
      case SpecialName => "special directory names not allowed"
      case SeparatorInName => "filename contains path separator")
  }

  /** The refusal, if any, of the component walk of `safe_path` and `is_safe_path`. */
  function WalkRefusal(cs: seq<Component>): Option<PathRefusal> {
    if cs == [] then None
    else match cs[0]
      case Normal(name) => if Utf8Len(name) > MAX_FILENAME_LEN then Some(FilenameTooLong) else WalkRefusal(cs[1..])
      case ParentDir => Some(ParentNotAllowed)
      case CurDir => WalkRefusal(cs[1..])
      case Prefix(_) => Some(PrefixNotAllowed)
      case RootDir => Some(RootNotAllowed)
  }

  /** The names a successful walk pushes, in order ("." is skipped). */
  function NormalNames(cs: seq<Component>): seq<string> {
    if cs == [] then []
    else (if cs[0].Normal? then [cs[0].name] else []) + NormalNames(cs[1..])
  }

  /** The checks `safe_path` makes, in the order it makes them. */
  function Refusal(relative: string): Option<PathRefusal> {
    if '\0' in relative then Some(NullByte)
    else if Utf8Len(relative) > MAX_PATH_LEN then Some(PathTooLong)
    else if IsAbsolute(relative) then Some(AbsolutePath)
    else WalkRefusal(Components(relative))
  }

  /** One step of the walk at position `i`. */
  lemma WalkAt(cs: seq<Component>, i: nat)
    requires i < |cs|
    ensures NormalNames(cs[i..]) == (if cs[i].Normal? then [cs[i].name] else []) + NormalNames(cs[i + 1..])
    ensures cs[i].Normal? && Utf8Len(cs[i].name) > MAX_FILENAME_LEN ==> WalkRefusal(cs[i..]) == Some(FilenameTooLong)
    ensures (cs[i].Normal? && Utf8Len(cs[i].name) <= MAX_FILENAME_LEN) || cs[i].CurDir? ==>
      WalkRefusal(cs[i..]) == WalkRefusal(cs[i + 1..])
    ensures cs[i].ParentDir? ==> WalkRefusal(cs[i..]) == Some(ParentNotAllowed)
    ensures cs[i].Prefix? ==> WalkRefusal(cs[i..]) == Some(PrefixNotAllowed)
    ensures cs[i].RootDir? ==> WalkRefusal(cs[i..]) == Some(RootNotAllowed)
  {
    assert cs[i..][0] == cs[i] && cs[i..][1..] == cs[i + 1..];
  }

  /** `safe_path`: resolve `relative` under `base` without touching the filesystem. */
  method SafePath(base: seq<string>, relative: string) returns (r: Result<seq<string>, Errors.ProtocolError>)
    ensures r.Ok? <==> Refusal(relative) == None
    ensures r.Err? ==> r.error == AsProtocolError(Refusal(relative).value)
    ensures r.Ok? ==> r.value == base + NormalNames(Components(relative))
    ensures r.Ok? ==> r.value[..|base|] == base
  {
    if '\0' in relative {
      return Err(AsProtocolError(NullByte));
    }
    if Utf8Len(relative) > MAX_PATH_LEN {
      return Err(AsProtocolError(PathTooLong));
    }
    if IsAbsolute(relative) {
      return Err(AsProtocolError(AbsolutePath));
    }
    var cs := Components(relative);
    assert Refusal(relative) == WalkRefusal(cs);
    var result := base;
    for i := 0 to |cs|
      invariant WalkRefusal(cs) == WalkRefusal(cs[i..])
      invariant result + NormalNames(cs[i..]) == base + NormalNames(cs)
    {
      WalkAt(cs, i);
      match cs[i]
      case Normal(name) =>
        if Utf8Len(name) > MAX_FILENAME_LEN {
          return Err(AsProtocolError(FilenameTooLong));
        }
        assert result + NormalNames(cs[i..]) == (result + [name]) + NormalNames(cs[i + 1..]);
        result := result + [name];
      case ParentDir =>
        return Err(AsProtocolError(ParentNotAllowed));
      case CurDir =>
        assert NormalNames(cs[i..]) == NormalNames(cs[i + 1..]);
      case Prefix(_) =>
        return Err(AsProtocolError(PrefixNotAllowed));
      case RootDir =>
        return Err(AsProtocolError(RootNotAllowed));
    }
    // The source ends with a `starts_with(base)` check that returns
    // `EscapesBase`; it cannot fail, since only names were appended to `base`.
    assert cs[|cs|..] == [];
    assert result == base + NormalNames(cs);
    assert result[..|base|] == base;
    return Ok(result);
  }

  /** `is_safe_path`: the same checks, with early returns and no result. */
  method IsSafePath(relative: string) returns (ok: bool)
    ensures ok <==> Refusal(relative) == None
  {
    if '\0' in relative || Utf8Len(relative) > MAX_PATH_LEN {
      return false;
    }
    if IsAbsolute(relative) {
      return false;
    }
    var cs := Components(relative);
    for i := 0 to |cs|
      invariant WalkRefusal(cs) == WalkRefusal(cs[i..])
    {
      WalkAt(cs, i);
      match cs[i]
      case Normal(name) =>
        if Utf8Len(name) > MAX_FILENAME_LEN {
          return false;
        }
      case ParentDir =>
        return false;
      case Prefix(_) =>
        return false;
      case RootDir =>
        return false;
      case CurDir =>
    }
    return true;
  }

  /** `validate_filename`: a single component, checked guard by guard. */
  function ValidateFilename(name: string): (r: Result<(), Errors.ProtocolError>)
    ensures r.Ok? <==>
      && name != []
      && '\0' !in name
      && Utf8Len(name) <= MAX_FILENAME_LEN
      && name != "." && name != ".."
      && '/' !in name && '\\' !in name
    ensures r.Err? ==> r.error.PathTraversal?
  {
    if name == [] then Err(AsProtocolError(EmptyFilename))
    else if '\0' in name then Err(AsProtocolError(NameNullByte))
    else if Utf8Len(name) > MAX_FILENAME_LEN then Err(AsProtocolError(FilenameTooLong))
    else if name == "." || name == ".." then Err(AsProtocolError(SpecialName))
    else if '/' in name || '\\' in name then Err(AsProtocolError(SeparatorInName))
    else Ok(())
  }

  /** A ".." anywhere in a relative path makes it unsafe, unless an earlier
      component was refused first. */
  lemma {:induction false} ParentAlwaysRefused(cs: seq<Component>, k: nat)
    requires k < |cs| && cs[k] == ParentDir
    ensures WalkRefusal(cs).Some?
  {
    if k > 0 && !cs[0].ParentDir? && !cs[0].Prefix? && !cs[0].RootDir? {
      if !(cs[0].Normal? && Utf8Len(cs[0].name) > MAX_FILENAME_LEN) {
        ParentAlwaysRefused(cs[1..], k - 1);
      }
    }
  }

  /** Pieces of a split: a ".." piece yields a `ParentDir` component. */
  lemma {:induction false} ParentPieceHasComponent(pieces: seq<string>, k: nat)
    requires k < |pieces| && pieces[k] == ".."
    ensures ParentDir in PiecesComponents(pieces)
  {
    if k > 0 {
      ParentPieceHasComponent(pieces[1..], k - 1);
    }
  }

  /** A successful walk never saw a name longer than `MAX_FILENAME_LEN`, and
      every name it pushed is a valid file name once NUL is excluded. */
  lemma {:induction false} WalkedNamesAreFilenames(cs: seq<Component>, k: nat)
    requires WalkRefusal(cs) == None
    requires forall j :: 0 <= j < |cs| && cs[j].Normal? ==>
      cs[j].name != [] && '/' !in cs[j].name && cs[j].name != "." && cs[j].name != ".."
    requires k < |NormalNames(cs)|
    ensures Utf8Len(NormalNames(cs)[k]) <= MAX_FILENAME_LEN
    ensures NormalNames(cs)[k] != [] && '/' !in NormalNames(cs)[k]
    ensures NormalNames(cs)[k] != "." && NormalNames(cs)[k] != ".."
  {
    var head := if cs[0].Normal? then [cs[0].name] else [];
    assert NormalNames(cs) == head + NormalNames(cs[1..]);
    if k >= |head| {
      WalkedNamesAreFilenames(cs[1..], k - |head|);
    }
  }

  /** Any ".." piece in the text makes `safe_path` and `is_safe_path` refuse it. */
  lemma DotDotRefused(relative: string, k: nat)
    requires k < |Split(relative)| && Split(relative)[k] == ".."
    ensures Refusal(relative).Some?
  {
    if '\0' !in relative && Utf8Len(relative) <= MAX_PATH_LEN && !IsAbsolute(relative) {
      assert Refusal(relative) == WalkRefusal(Components(relative));
      if k == 0 {
        LeadingDotDot(relative);
      } else {
        LaterDotDot(relative, k);
      }
    }
  }

  lemma LeadingDotDot(relative: string)
    requires !IsAbsolute(relative) && Split(relative)[0] == ".."
    ensures WalkRefusal(Components(relative)).Some?
  {
    var cs := Components(relative);
    assert cs[0] == ParentDir;
    ParentAlwaysRefused(cs, 0);
  }

  lemma LaterDotDot(relative: string, k: nat)
    requires !IsAbsolute(relative) && 0 < k < |Split(relative)| && Split(relative)[k] == ".."
    ensures WalkRefusal(Components(relative)).Some?
  {
    var pieces := Split(relative);
    var head := if pieces[0] == "." then [CurDir] else PieceComponent(pieces[0]);
    var tail := PiecesComponents(pieces[1..]);
    assert ParentDir in tail by {
      ParentPieceHasComponent(pieces[1..], k - 1);
    }
    assert Components(relative) == head + tail;
    ParentInTail(head, tail);
  }

  lemma ParentInTail(head: seq<Component>, tail: seq<Component>)
    requires ParentDir in tail
    ensures WalkRefusal(head + tail).Some?
  {
    var j :| 0 <= j < |tail| && tail[j] == ParentDir;
    ConcatIndex(head, tail, j);
    ParentAlwaysRefused(head + tail, |head| + j);
  }

  lemma ConcatIndex<T>(a: seq<T>, b: seq<T>, j: nat)
    requires j < |b|
    ensures (a + b)[|a| + j] == b[j]
  {
  }

  /** A piece of text that `Path::components` turns into one `Normal` name. */
  predicate PlainName(a: string) {
    a != [] && '/' !in a && a != "." && a != ".."
  }

  /** Text without a separator is a single piece. */
  lemma {:induction false} SplitName(a: string)
    requires '/' !in a
    ensures Split(a) == [a]
  {
    if a != [] {
      SplitName(a[1..]);
      assert [a[0]] + a[1..] == a;
    }
  }

  /** The first separator ends the first piece. */
  lemma {:induction false} SplitThen(a: string, rest: string)
    requires '/' !in a
    ensures Split(a + "/" + rest) == [a] + Split(rest)
  {
    var s := a + "/" + rest;
    if a == [] {
      assert s[0] == '/' && s[1..] == rest;
    } else {
      assert s[0] == a[0] && s[1..] == a[1..] + "/" + rest;
      SplitThen(a[1..], rest);
      assert [a[0]] + a[1..] == a;
    }
  }

  /** "dir/./file.txt" splits into the name, the ".", and the file name. */
  lemma DotSplit(a: string, b: string)
    requires '/' !in a && '/' !in b
    ensures Split(a + "/./" + b) == [a, ".", b]
  {
    assert a + "/./" + b == a + "/" + ("." + "/" + b);
    SplitThen(a, "." + "/" + b);
    SplitThen(".", b);
    SplitName(b);
  }

  /** ... and resolves like "dir/file.txt": the "." is dropped. */
  lemma DotSkipped(a: string, b: string)
    requires PlainName(a) && PlainName(b)
    ensures Components(a + "/./" + b) == [Normal(a), Normal(b)]
    ensures NormalNames(Components(a + "/./" + b)) == [a, b]
  {
    var s := a + "/./" + b;
    DotSplit(a, b);
    assert !IsAbsolute(s) by { assert s[0] == a[0]; }
    assert PiecesComponents([b]) == [Normal(b)];
    assert PiecesComponents([".", b]) == [Normal(b)];
    var cs := [Normal(a), Normal(b)];
    assert cs[1..] == [Normal(b)] && cs[1..][1..] == [];
    assert NormalNames(cs[1..]) == [b];
  }

  /** Such a path is safe when its two names are within the limits. */
  lemma DotPathSafe(a: string, b: string)
    requires PlainName(a) && PlainName(b)
    requires '\0' !in a && '\0' !in b
    requires Utf8Len(a) <= MAX_FILENAME_LEN && Utf8Len(b) <= MAX_FILENAME_LEN
    requires Utf8Len(a) + Utf8Len(b) + 3 <= MAX_PATH_LEN
    ensures Refusal(a + "/./" + b) == None
  {
    var s := a + "/./" + b;
    DotSkipped(a, b);
    Utf8Concat(a, "/./");
    Utf8Concat(a + "/./", b);
    assert Utf8Len("/./") == 3;
    assert '\0' !in s && !IsAbsolute(s) by { assert s[0] == a[0]; }
    var cs := [Normal(a), Normal(b)];
    assert cs[1..] == [Normal(b)] && cs[1..][1..] == [];
    assert WalkRefusal(cs[1..]) == None;
  }

  /** "./file.txt" resolves to the one name after the leading ".". */
  lemma LeadingDotSkipped(b: string)
    requires PlainName(b)
    ensures Components("./" + b) == [CurDir, Normal(b)]
    ensures NormalNames(Components("./" + b)) == [b]
  {
    assert "./" + b == "." + "/" + b;
    SplitThen(".", b);
    SplitName(b);
    var cs := [CurDir, Normal(b)];
    assert PiecesComponents([b]) == [Normal(b)];
    assert cs[1..] == [Normal(b)] && cs[1..][1..] == [];
    assert NormalNames(cs[1..]) == [b];
  }

  /** "../etc/passwd" and every other text starting with "../" is refused. */
  lemma LeadingParentRefused(rest: string)
    ensures Refusal("../" + rest).Some?
  {
    assert "../" + rest == ".." + "/" + rest;
    SplitThen("..", rest);
    DotDotRefused("../" + rest, 0);
  }
}
