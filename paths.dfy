/**
  Paths as pathlib sees them: a path is the sequence of its components,
  counted from the working directory. Parsing a string splits it on '/'
  and drops empty components and "." components, as `pathlib.PurePosixPath`
  does; the string "./modules/x/" therefore denotes ["modules", "x"].
*/
module Paths {

  import opened Wrappers

  type Path = seq<string>

  /** A component pathlib keeps after parsing. */
  predicate IsComponent(c: string) {
    c != "" && c != "." && '/' !in c
  }

  predicate WellFormed(p: Path) {
    forall i :: 0 <= i < |p| ==> IsComponent(p[i])
  }

  /** A path that names a location below the working directory without "..". */
  predicate Plain(p: Path) {
    WellFormed(p) && ".." !in p
  }

  /** The component collected so far, if pathlib keeps it. */
  function Emit(c: string): (p: Path)
    requires '/' !in c
    ensures WellFormed(p)
  {
    if c == "" || c == "." then [] else [c]
  }

  /** Split `s` on '/', `cur` being the part of the current component already read. */
  function Components(s: string, cur: string): (p: Path)
    requires '/' !in cur
    ensures WellFormed(p)
    decreases |s|
  {
    if s == [] then Emit(cur)
    else if s[0] == '/' then Emit(cur) + Components(s[1..], "")
    else Components(s[1..], cur + [s[0]])
  }

  /** The components of a path string. */
  function Parse(s: string): (p: Path)
    ensures WellFormed(p)
  {
    Components(s, "")
  }

  /** A string that pathlib joins below its left operand: not absolute, no "..". */
  predicate Relative(s: string) {
    (s == [] || s[0] != '/') && ".." !in Parse(s)
  }

  /** A string without '/' is one component, dropped when empty or ".". */
  lemma ParseOne(c: string)
    requires '/' !in c
    ensures Parse(c) == Emit(c)
  {
    ComponentsAppend(c, "", "");
    assert c + "" == c;
    assert "" + c == c;
  }

  /**
    Parsing splits at the first '/': the component before it, if kept,
    then the components of the rest. So "sub/" is ["sub"] and "x//y" is ["x", "y"].
  */
  lemma ParseSplit(c: string, rest: string)
    requires '/' !in c
    ensures Parse(c + "/" + rest) == Emit(c) + Parse(rest)
  {
    var tail := "/" + rest;
    assert c + "/" + rest == c + tail;
    ComponentsAppend(c, tail, "");
    assert "" + c == c;
    assert tail[0] == '/' && tail[1..] == rest;
  }

  /** The string form of a path: its components joined by '/'. */
  function Format(p: Path): string {
    if p == [] then "" else if |p| == 1 then p[0] else p[0] + "/" + Format(p[1..])
  }

  /** Reading more characters of the current component just extends it. */
  lemma {:induction false} ComponentsAppend(c: string, rest: string, cur: string)
    requires '/' !in c && '/' !in cur
    ensures Components(c + rest, cur) == Components(rest, cur + c)
    decreases |c|
  {
    if c != [] {
      assert (c + rest)[0] == c[0];
      assert (c + rest)[1..] == c[1..] + rest;
      assert cur + [c[0]] + c[1..] == cur + c;
      ComponentsAppend(c[1..], rest, cur + [c[0]]);
    } else {
      assert c + rest == rest;
      assert cur + c == cur;
    }
  }

  /** Parsing undoes formatting: no component of a well-formed path is lost or split. */
  lemma {:induction false} ParseFormat(p: Path)
    requires WellFormed(p)
    ensures Parse(Format(p)) == p
  {
    if |p| == 1 {
      ComponentsAppend(p[0], "", "");
      assert p[0] + "" == p[0];
      assert "" + p[0] == p[0];
    } else if |p| > 1 {
      var tail := "/" + Format(p[1..]);
      assert Format(p) == p[0] + tail;
      ComponentsAppend(p[0], tail, "");
      assert "" + p[0] == p[0];
      assert tail[0] == '/' && tail[1..] == Format(p[1..]);
      ParseFormat(p[1..]);
      assert Components(tail, p[0]) == [p[0]] + Parse(Format(p[1..]));
    }
  }

  /** The last component (pathlib's `name`); the empty path has the empty name. */
  function Name(p: Path): string
  {
    if p == [] then "" else p[|p| - 1]
  }

  /** The index of the last '.' in `n` (Python's `str.rfind('.')`). */
  function LastDot(n: string): (i: Option<nat>)
    ensures i.Some? ==> i.value < |n| && n[i.value] == '.' && '.' !in n[i.value + 1..]
    ensures i.None? ==> '.' !in n
  {
    if n == [] then None
    else if n[|n| - 1] == '.' then Some(|n| - 1)
    else
      var i := LastDot(n[..|n| - 1]);
      assert n == n[..|n| - 1] + [n[|n| - 1]];
      i
  }

  /**
    pathlib's `stem`: the name without its last suffix. A suffix starts at
    the last dot, and only when that dot is neither the first nor the last
    character ("a.tar.gz" has stem "a.tar"; ".bashrc" and "a." keep their name).
  */
  function Stem(n: string): (s: string)
    ensures |s| <= |n| && n[..|s|] == s
    ensures s == n || (0 < |s| < |n| - 1 && n[|s|] == '.' && '.' !in n[|s| + 1..])
    ensures s != n <==> exists i :: 0 < i < |n| - 1 && n[i] == '.' && '.' !in n[i + 1..]
  {
    match LastDot(n)
    case Some(i) => if 0 < i < |n| - 1 then n[..i] else n
    case None => n
  }

  /**
    `replace('./', '')`: scanning left to right, every occurrence of "./" is
    removed, wherever it stands, and the scan resumes after it.
  */
  function RemoveDotSlash(s: string): (r: string)
    ensures |r| <= |s|
    decreases |s|
  {
    if |s| >= 2 && s[0] == '.' && s[1] == '/' then RemoveDotSlash(s[2..])
    else if s == [] then []
    else [s[0]] + RemoveDotSlash(s[1..])
  }

  predicate HasDotSlash(s: string) {
    exists i :: 0 <= i < |s| - 1 && s[i] == '.' && s[i + 1] == '/'
  }

  /** A string with no "./" in it is left as it is. */
  lemma {:induction false} RemoveDotSlashNone(s: string)
    requires !HasDotSlash(s)
    ensures RemoveDotSlash(s) == s
    decreases |s|
  {
    if s != [] {
      assert !(|s| >= 2 && s[0] == '.' && s[1] == '/');
      assert !HasDotSlash(s[1..]) by {
        forall i | 0 <= i < |s[1..]| - 1 ensures !(s[1..][i] == '.' && s[1..][i + 1] == '/') {
          assert s[1..][i] == s[i + 1] && s[1..][i + 1] == s[i + 2];
        }
      }
      RemoveDotSlashNone(s[1..]);
      assert [s[0]] + s[1..] == s;
    }
  }

  /**
    The rewrite acts on the two halves of a string separately, provided the
    first half does not end in '.', which could pair with a leading '/'.
  */
  lemma {:induction false} RemoveDotSlashAppend(a: string, b: string)
    requires a == [] || a[|a| - 1] != '.'
    ensures RemoveDotSlash(a + b) == RemoveDotSlash(a) + RemoveDotSlash(b)
    decreases |a|
  {
    if a == [] {
      assert a + b == b;
    } else if |a| >= 2 && a[0] == '.' && a[1] == '/' {
      assert (a + b)[2..] == a[2..] + b;
      RemoveDotSlashAppend(a[2..], b);
      RemoveDotSlashSkips(a + b);
      RemoveDotSlashSkips(a);
    } else {
      var ab := a + b;
      assert ab[0] == a[0] && ab[1..] == a[1..] + b;
      assert !(|ab| >= 2 && ab[0] == '.' && ab[1] == '/') by {
        if |a| >= 2 {
          assert ab[1] == a[1];
        }
      }
      RemoveDotSlashAppend(a[1..], b);
      RemoveDotSlashKeeps(ab);
      RemoveDotSlashKeeps(a);
      AppendAssociative([a[0]], RemoveDotSlash(a[1..]), RemoveDotSlash(b));
    }
  }

  lemma AppendAssociative<T>(a: seq<T>, b: seq<T>, c: seq<T>)
    ensures (a + b) + c == a + (b + c)
  {
  }

  lemma RemoveDotSlashSkips(s: string)
    requires |s| >= 2 && s[0] == '.' && s[1] == '/'
    ensures RemoveDotSlash(s) == RemoveDotSlash(s[2..])
  {
  }

  lemma RemoveDotSlashKeeps(s: string)
    requires s != [] && !(|s| >= 2 && s[0] == '.' && s[1] == '/')
    ensures RemoveDotSlash(s) == [s[0]] + RemoveDotSlash(s[1..])
  {
  }

  /**
    The rewrite removes "./" wherever it stands, not only in front: it is
    not idempotent ("..//x" becomes "./x") and it changes names ("a./b"
    becomes "ab", "../x" becomes ".x").
  */
  lemma RemoveDotSlashQuirks()
    ensures RemoveDotSlash("..//x") == "./x" && RemoveDotSlash("./x") == "x"
    ensures RemoveDotSlash("a./b") == "ab"
    ensures RemoveDotSlash("../x") == ".x"
  {
    assert "..//x"[1..] == ".//x";
    assert ".//x"[2..] == "/x";
    assert "./x"[2..] == "x";
    assert "a./b"[1..] == "./b";
    assert "./b"[2..] == "b";
    assert "../x"[1..] == "./x";
  }

  /** The rewrite can turn a relative path into an absolute one. */
  lemma RemoveDotSlashAbsolute()
    ensures RemoveDotSlash(".//etc") == "/etc"
    ensures !Relative(RemoveDotSlash(".//etc"))
  {
    assert ".//etc"[2..] == "/etc";
  }
}
