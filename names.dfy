/**
 * Naming rules of a listing proxy: which strings name a directory, and which
 * names a directory accepts as its own files and immediate sub-directories.
 * The validators take the directory prefix as a parameter (the Go methods read
 * it from the proxy) and otherwise follow the Go functions line for line,
 * including Go's `strings.TrimPrefix` and `strings.IndexByte`.
 */
module Names {
  import opened Wrappers

  /** isDirName: the root directory "" or a name ending in '/'. */
  predicate IsDirName(s: string) {
    s == "" || s[|s| - 1] == '/'
  }

  /** strings.HasPrefix */
  predicate HasPrefix(s: string, prefix: string) {
    prefix <= s
  }

  /** strings.TrimPrefix: `s` without `prefix` when it starts with it, else `s`. */
  function TrimPrefix(s: string, prefix: string): (r: string)
    ensures HasPrefix(s, prefix) ==> s == prefix + r
    ensures !HasPrefix(s, prefix) ==> r == s
  {
    if HasPrefix(s, prefix) then s[|prefix|..] else s
  }

  /** strings.IndexByte: the index of the first `c` in `s`, or -1. */
  function IndexByte(s: string, c: char): (r: int)
    ensures -1 <= r < |s|
    ensures r == -1 <==> c !in s
    ensures 0 <= r ==> s[r] == c && c !in s[..r]
  {
    if s == [] then -1
    else if s[0] == c then 0
    else
      var k := IndexByte(s[1..], c);
      assert s[1..] == s[1..][..|s| - 1];
      if k < 0 then -1
      else
        assert s[..k + 1] == [s[0]] + s[1..][..k];
        k + 1
  }

  /** The reasons the validators give for refusing a name. */
  datatype NameError =
    | NotAnObjectName
    | NotADirectoryName
    | NotADescendant
    | NotADirectDescendant

  /** checkObjectName: is `name` a legal file name within directory `dir`? */
  function CheckObjectName(dir: string, name: string): (r: Option<NameError>)
    ensures r == Some(NotAnObjectName) <==> IsDirName(name)
    ensures r == None && IsDirName(dir) ==> IsFileOf(dir, name)
  {
    if IsDirName(name) then Some(NotAnObjectName)
    else
      var trimmed := TrimPrefix(name, dir);
      if name == trimmed then Some(NotADescendant)
      else if IndexByte(trimmed, '/') >= 0 then Some(NotADirectDescendant)
      else None
  }

  /** checkSubdirName: is `name` a legal immediate sub-directory of `dir`? */
  function CheckSubdirName(dir: string, name: string): (r: Option<NameError>)
    ensures r == Some(NotADirectoryName) <==> !IsDirName(name)
    ensures r == None && IsDirName(dir) ==>
              && |dir| < |name| && name[..|dir|] == dir
              && name[|name| - 1] == '/' && '/' !in name[|dir|..|name| - 1]
  {
    if !IsDirName(name) then Some(NotADirectoryName)
    else
      var trimmed := TrimPrefix(name, dir);
      if name == dir || name == trimmed then Some(NotADescendant)
      else if IndexByte(trimmed, '/') != |trimmed| - 1 then Some(NotADirectDescendant)
      else None
  }

  /*
   * Reference definitions, as the documentation of the proxy type words them:
   * a file of P is a name N of which P is a strict prefix and whose part after
   * P has no slash; a sub-directory of P is a directory name P' of which P is a
   * strict prefix and whose part after P has exactly one slash.
   */

  predicate IsFileOf(dir: string, n: string) {
    |dir| < |n| && n[..|dir|] == dir && '/' !in n[|dir|..]
  }

  predicate IsSubdirOf(dir: string, n: string) {
    IsDirName(n) && |dir| < |n| && n[..|dir|] == dir && multiset(n[|dir|..])['/'] == 1
  }

  /** A directory name is empty or some string followed by one slash. */
  lemma DirNameShape(s: string)
    ensures IsDirName(s) <==> (s == "" || exists t :: s == t + "/")
  {
    if s != "" && s[|s| - 1] == '/' {
      assert s == s[..|s| - 1] + "/";
    }
  }

  /**
   * checkObjectName accepts exactly the files of `dir` in the documented
   * sense, except that the root directory "" accepts none of them.
   */
  lemma CheckObjectNameSpec(dir: string, n: string)
    requires IsDirName(dir)
    ensures CheckObjectName(dir, n) == None <==> dir != "" && IsFileOf(dir, n)
  {
    if dir != "" && IsFileOf(dir, n) {
      assert n == dir + n[|dir|..];
      assert n[|n| - 1] in n[|dir|..];
    }
    if CheckObjectName(dir, n) == None {
      var trimmed := TrimPrefix(n, dir);
      assert n == dir + trimmed;
      assert n[|dir|..] == trimmed;
    }
  }

  /** With the root directory TrimPrefix changes nothing, so every object name is refused. */
  lemma RootRefusesEveryObjectName(n: string)
    ensures CheckObjectName("", n).Some?
  {
  }

  /** ...and so is every sub-directory name. */
  lemma RootRefusesEverySubdirName(n: string)
    ensures CheckSubdirName("", n).Some?
  {
  }

  /** A slash-terminated string has exactly one slash iff none occurs before its end. */
  lemma OneSlashAtEnd(t: string)
    requires t != [] && t[|t| - 1] == '/'
    ensures multiset(t)['/'] == 1 <==> '/' !in t[..|t| - 1]
  {
    assert t == t[..|t| - 1] + [t[|t| - 1]];
    assert multiset(t) == multiset(t[..|t| - 1]) + multiset{'/'};
  }

  /**
   * checkSubdirName accepts exactly the sub-directories of `dir` in the
   * documented sense, except that the root directory "" accepts none.
   */
  lemma CheckSubdirNameSpec(dir: string, n: string)
    requires IsDirName(dir)
    ensures CheckSubdirName(dir, n) == None <==> dir != "" && IsSubdirOf(dir, n)
  {
    if dir != "" && IsSubdirOf(dir, n) {
      var t := n[|dir|..];
      assert n == dir + t;
      assert t[|t| - 1] == n[|n| - 1];
      OneSlashAtEnd(t);
      assert TrimPrefix(n, dir) == t;
      assert '/' in t by { assert t[|t| - 1] == '/'; }
    }
    if CheckSubdirName(dir, n) == None {
      var t := TrimPrefix(n, dir);
      assert n == dir + t;
      assert n[|dir|..] == t;
      assert t != [];
      assert t[|t| - 1] == n[|n| - 1];
      OneSlashAtEnd(t);
      assert t[..|t| - 1] == t[..IndexByte(t, '/')];
    }
  }

  /**
   * A name checkSubdirName accepts starts with the directory's prefix and
   * differs from it, so the later "non-descendant" test of a refresh cannot fail.
   */
  lemma AcceptedSubdirIsStrictDescendant(dir: string, n: string)
    requires CheckSubdirName(dir, n) == None
    ensures HasPrefix(n, dir) && n != dir
  {
  }

  /** Likewise for object names. */
  lemma AcceptedObjectIsStrictDescendant(dir: string, n: string)
    requires IsDirName(dir)
    requires CheckObjectName(dir, n) == None
    ensures HasPrefix(n, dir) && n != dir
  {
  }

  /** No name is both a legal file name and a legal sub-directory name. */
  lemma ObjectAndSubdirNamesDisjoint(dir: string, n: string)
    ensures !(CheckObjectName(dir, n) == None && CheckSubdirName(dir, n) == None)
  {
  }

  /**
   * The documented root contents "taco" and "burrito/" are files and
   * sub-directories of "" by the reference definitions, yet the validators
   * refuse both.
   */
  lemma RootDocumentedChildrenRefused()
    ensures IsFileOf("", "taco") && CheckObjectName("", "taco") == Some(NotADescendant)
    ensures IsSubdirOf("", "burrito/") && CheckSubdirName("", "burrito/") == Some(NotADescendant)
  {
    var t, b := "taco", "burrito/";
    assert IsFileOf("", t) by {
      assert t[0..] == t;
      assert forall i | 0 <= i < |t| :: t[i] != '/';
    }
    assert CheckObjectName("", t) == Some(NotADescendant) by {
      assert TrimPrefix(t, "") == t;
    }
    assert IsSubdirOf("", b) by {
      assert b[0..] == b;
      OneSlashAtEnd(b);
      assert b[..|b| - 1] == "burrito";
      assert '/' !in "burrito";
    }
    assert CheckSubdirName("", b) == Some(NotADescendant) by {
      assert TrimPrefix(b, "") == b;
    }
  }
}
