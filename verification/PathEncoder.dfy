/** The textual encoding of node paths (chasm/path_encoder.go).

    A Go string is modelled by the code points that ranging over it yields; bytes that
    are not UTF-8 show up there as U+FFFD.  Byte order of UTF-8 text is code-point order
    (section 1 of RFC 3629), so keys are compared by `Less` below. */
module PathEncoder {
  import opened Basics

  type Path = seq<string>

  const NAME_SEPARATOR: char := '$'
  const COLLECTION_SEPARATOR: char := '#'
  const ESCAPE_CHAR: char := '\\'
  const RUNE_ERROR: char := '\U{FFFD}'

  predicate IsSeparator(r: char) {
    r == NAME_SEPARATOR || r == COLLECTION_SEPARATOR
  }

  predicate NeedsEscape(r: char) {
    r == ESCAPE_CHAR || r == NAME_SEPARATOR || r <= COLLECTION_SEPARATOR
  }

  // ----- What encoding and decoding mean

  function EscapeRune(r: char): string {
    if NeedsEscape(r) then [ESCAPE_CHAR, r] else [r]
  }

  function Escape(name: string): string {
    if name == "" then "" else EscapeRune(name[0]) + Escape(name[1..])
  }

  /** The escaped names joined by separators; only the last separator depends on whether
      the node is a direct child of a collection. */
  function Join(path: Path, last: char): string {
    if path == [] then ""
    else if |path| == 1 then Escape(path[0])
    else Escape(path[0]) + [if |path| == 2 then last else NAME_SEPARATOR] + Join(path[1..], last)
  }

  predicate ValidName(name: string) {
    name != "" && RUNE_ERROR !in name
  }

  predicate ValidPath(path: Path) {
    forall name | name in path :: ValidName(name)
  }

  function NameError(name: string): Error {
    if name == "" then Internal else InvalidArgument
  }

  function PathError(path: Path): Error
    requires !ValidPath(path)
  {
    if ValidName(path[0]) then PathError(path[1..]) else NameError(path[0])
  }

  function Separator(inCollection: bool): char {
    if inCollection then COLLECTION_SEPARATOR else NAME_SEPARATOR
  }

  function Encoded(path: Path, inCollection: bool): Result<string> {
    if ValidPath(path) then Ok(Join(path, Separator(inCollection))) else Err(PathError(path))
  }

  function Prepend(name: string, rest: Result<Path>): Result<Path> {
    match rest
    case Ok(path) => Ok([name] + path)
    case Err(e) => Err(e)
  }

  /** Splits `s` at its unescaped separators; `name` is what precedes `s` in its segment. */
  function Split(s: string, name: string): Result<Path> {
    if s == "" then Ok([name])
    else if s[0] == ESCAPE_CHAR then
      if |s| == 1 then Err(Internal) else Split(s[2..], name + [s[1]])
    else if IsSeparator(s[0]) then Prepend(name, Split(s[1..], ""))
    else Split(s[1..], name + [s[0]])
  }

  function Decoded(s: string): Result<Path> {
    if s == "" then Ok([])
    else if RUNE_ERROR in s then Err(InvalidArgument)
    else Split(s, "")
  }

  // ----- The code

  /** The inner loop of Encode: appends the escaped name to `b`. */
  method WriteName(b: string, name: string) returns (r: Result<string>)
    ensures r == if ValidName(name) then Ok(b + Escape(name)) else Err(NameError(name))
  {
    if name == "" {
      return Err(Internal);
    }
    var out := b;
    var j := 0;
    while j < |name|
      invariant 0 <= j <= |name|
      invariant RUNE_ERROR !in name[..j]
      invariant out + Escape(name[j..]) == b + Escape(name)
    {
      var c := name[j];
      if c == RUNE_ERROR {
        assert c in name;
        return Err(InvalidArgument);
      }
      assert name[j..][0] == c && name[j..][1..] == name[j + 1..];
      if c == ESCAPE_CHAR || c == NAME_SEPARATOR || c <= COLLECTION_SEPARATOR {
        out := out + [ESCAPE_CHAR];
      }
      out := out + [c];
      j := j + 1;
    }
    assert name[..j] == name && out + "" == out;
    r := Ok(out);
  }

  /** Encode, for a node whose parent is (`inCollection`) or is not a collection. */
  method Encode(inCollection: bool, path: Path) returns (r: Result<string>)
    ensures r == Encoded(path, inCollection)
  {
    if |path| == 0 {
      return Ok("");
    }
    ghost var last := Separator(inCollection);
    var b := "";
    var lastIdx := |path| - 1;
    var i := 0;
    while i < |path|
      invariant 0 <= i <= |path|
      invariant ValidPath(path[..i])
      invariant b + Remaining(path, last, i) == Join(path, last)
    {
      RemainingStep(path, last, i, b);
      if i > 0 {
        if i == lastIdx && inCollection {
          b := b + [COLLECTION_SEPARATOR];
        } else {
          b := b + [NAME_SEPARATOR];
        }
      }
      var named := WriteName(b, path[i]);
      if named.Err? {
        PathErrorAt(path, i);
        return named;
      }
      b := named.value;
      i := i + 1;
      assert path[..i] == path[..i - 1] + [path[i - 1]];
    }
    assert path[..i] == path && b + "" == b;
    r := Ok(b);
  }

  /** What Encode still has to write when it is about to handle `path[i]`. */
  ghost function Remaining(path: Path, last: char, i: nat): string
    requires i <= |path|
  {
    if i == |path| then ""
    else if i == 0 then Join(path, last)
    else [if i == |path| - 1 then last else NAME_SEPARATOR] + Join(path[i..], last)
  }

  method Decode(encodedPath: string) returns (r: Result<Path>)
    ensures r == Decoded(encodedPath)
  {
    if encodedPath == "" {
      return Ok([]);
    }
    var path: Path := [];
    var b := "";
    var escaped := false;
    var i := 0;
    assert encodedPath[0..] == encodedPath;
    PrependAllNone(Split(encodedPath, ""));
    while i < |encodedPath|
      invariant 0 <= i <= |encodedPath|
      invariant RUNE_ERROR !in encodedPath[..i]
      invariant Split(encodedPath, "") == PrependAll(path, Split(Unread(escaped, encodedPath[i..]), b))
    {
      var c := encodedPath[i];
      ghost var unread := Unread(escaped, encodedPath[i..]);
      if c == RUNE_ERROR {
        return Err(InvalidArgument);
      }
      i := i + 1;
      if escaped {
        assert unread[1] == c && unread[2..] == encodedPath[i..];
        b := b + [c];
        escaped := false;
        continue;
      }
      assert unread[0] == c && unread[1..] == encodedPath[i..];
      if c == ESCAPE_CHAR {
        assert unread == Unread(true, encodedPath[i..]);
        escaped := true;
        continue;
      }
      if c == '$' || c == '#' {
        PrependAllAppend(path, b, Split(encodedPath[i..], ""));
        path := path + [b];
        b := "";
        continue;
      }
      b := b + [c];
    }
    assert encodedPath[..i] == encodedPath;
    if escaped {
      return Err(Internal);
    }
    path := path + [b];
    r := Ok(path);
  }

  /** The text still to be split, with a pending escape character put back in front. */
  function Unread(escaped: bool, s: string): string {
    if escaped then [ESCAPE_CHAR] + s else s
  }

  function PrependAll(path: Path, rest: Result<Path>): Result<Path> {
    match rest
    case Ok(p) => Ok(path + p)
    case Err(e) => Err(e)
  }

  lemma RemainingStep(path: Path, last: char, i: nat, b: string)
    requires i < |path|
    ensures b + Remaining(path, last, i) ==
            b + (if i == 0 then "" else [if i == |path| - 1 then last else NAME_SEPARATOR]) + Escape(path[i]) +
            Remaining(path, last, i + 1)
  {
    JoinStep(path, last, i);
    assert path[0..] == path;
    var sep := if i == 0 then "" else [if i == |path| - 1 then last else NAME_SEPARATOR];
    assert Remaining(path, last, i) == sep + Join(path[i..], last);
    Associate(b, sep, Escape(path[i]), Remaining(path, last, i + 1));
  }

  lemma Associate(a: string, b: string, c: string, d: string)
    ensures a + (b + (c + d)) == a + b + c + d
  {
  }

  lemma JoinStep(path: Path, last: char, i: nat)
    requires i < |path|
    ensures Join(path[i..], last) == Escape(path[i]) + Remaining(path, last, i + 1)
  {
    var rest := path[i..];
    assert rest[0] == path[i];
    if i + 1 < |path| {
      var sep := [if |rest| == 2 then last else NAME_SEPARATOR];
      assert rest[1..] == path[i + 1..];
      Associate("", Escape(path[i]), sep, Join(path[i + 1..], last));
    } else {
      assert Escape(path[i]) + "" == Escape(path[i]);
    }
  }

  lemma PrependAllNone(rest: Result<Path>)
    ensures PrependAll([], rest) == rest
  {
    if rest.Ok? {
      assert [] + rest.value == rest.value;
    }
  }

  lemma PrependAllAppend(path: Path, name: string, rest: Result<Path>)
    ensures PrependAll(path, Prepend(name, rest)) == PrependAll(path + [name], rest)
  {
    if rest.Ok? {
      assert path + ([name] + rest.value) == path + [name] + rest.value;
    }
  }

  lemma {:induction false} PathErrorAt(path: Path, i: nat)
    requires i < |path| && ValidPath(path[..i]) && !ValidName(path[i])
    ensures !ValidPath(path) && PathError(path) == NameError(path[i])
  {
    assert path[i] in path;
    if i > 0 {
      assert path[0] == path[..i][0] && path[..i][1..] == path[1..][..i - 1];
      PathErrorAt(path[1..], i - 1);
    }
  }
}
