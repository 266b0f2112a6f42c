/** The extension token of a changed file (gitlab-contributors.ts:208-218):
    `old_path.split('.').pop()`. Because `split` never yields an empty array,
    `pop()` never yields `undefined`, and the two fallbacks in the source (the
    last `/` segment, then the whole path) are dead code. */
module Extensions {

  /** `s.split(sep)` for a one-character separator: the maximal runs of
      non-separator characters, including the empty ones. */
  function Split(s: string, sep: char): (parts: seq<string>)
    ensures |parts| >= 1
    decreases |s|
  {
    if s == [] then [[]]
    else
      var init := Split(s[..|s| - 1], sep);
      if s[|s| - 1] == sep then init + [[]]
      else init[..|init| - 1] + [init[|init| - 1] + [s[|s| - 1]]]
  }

  /** `parts.join(sep)` */
  function Join(parts: seq<string>, sep: char): string
    requires |parts| >= 1
  {
    if |parts| == 1 then parts[0] else Join(parts[..|parts| - 1], sep) + [sep] + parts[|parts| - 1]
  }

  /** Splitting and joining again gives back the string, and no part contains
      the separator: `Split` is the JavaScript split. */
  lemma {:induction false} SplitJoin(s: string, sep: char)
    ensures Join(Split(s, sep), sep) == s
    ensures forall part | part in Split(s, sep) :: sep !in part
    decreases |s|
  {
    if s != [] {
      var init := s[..|s| - 1];
      var c := s[|s| - 1];
      SplitJoin(init, sep);
      var ps := Split(init, sep);
      var n := |ps|;
      if c == sep {
        assert Split(s, sep)[..n] == ps;
      } else {
        var parts := Split(s, sep);
        assert parts[..n - 1] == ps[..n - 1];
        if n > 1 {
          assert ps[..n - 1][..n - 2] == ps[..n - 2];
          assert Join(ps, sep) == Join(ps[..n - 1], sep) + [sep] + ps[n - 1];
          assert Join(parts, sep) == Join(ps[..n - 1], sep) + [sep] + (ps[n - 1] + [c]);
        }
        assert s == init + [c];
        forall part | part in parts ensures sep !in part {
          if part != ps[n - 1] + [c] {
            assert part in ps;
          }
        }
      }
    }
  }

  /** The extension token of a path: the last element of `split('.')`. */
  function ExtensionToken(path: string): string
  {
    var parts := Split(path, '.');
    parts[|parts| - 1]
  }

  /** The token is the longest suffix of the path without a `.`: either the
      whole path, or the part after its last `.`. */
  lemma {:induction false} TokenIsLastDotFreeSuffix(path: string)
    ensures var t := ExtensionToken(path);
      && |t| <= |path| && path[|path| - |t|..] == t && '.' !in t
      && (|t| < |path| ==> path[|path| - |t| - 1] == '.')
    decreases |path|
  {
    if path != [] {
      var init := path[..|path| - 1];
      TokenIsLastDotFreeSuffix(init);
      var t0 := ExtensionToken(init);
      if path[|path| - 1] != '.' {
        var t := ExtensionToken(path);
        assert t == t0 + [path[|path| - 1]];
        assert path[|path| - |t|..] == init[|init| - |t0|..] + [path[|path| - 1]];
      }
    }
  }

  /** Conversely, any longest dot-free suffix is the token, so the two
      properties above determine `ExtensionToken` completely. */
  lemma TokenUnique(path: string, u: string)
    requires |u| <= |path| && path[|path| - |u|..] == u && '.' !in u
    requires |u| < |path| ==> path[|path| - |u| - 1] == '.'
    ensures ExtensionToken(path) == u
  {
    TokenIsLastDotFreeSuffix(path);
  }

  /** A file with no `.` anywhere in its path is classified by the whole path
      (not by its last `/` segment, which only the dead fallback would give). */
  lemma DotlessPathIsItsOwnToken(path: string)
    requires '.' !in path
    ensures ExtensionToken(path) == path
  {
    TokenIsLastDotFreeSuffix(path);
  }

  lemma TokenExamples()
    ensures ExtensionToken("src/app.ts") == "ts"
    ensures ExtensionToken("a/b/README") == "a/b/README"
    ensures ExtensionToken("a.b/c") == "b/c"
    ensures ExtensionToken("file.") == ""
    ensures ExtensionToken("Makefile") == "Makefile"
  {
    TokenUnique("src/app.ts", "ts");
    DotlessPathIsItsOwnToken("a/b/README");
    TokenUnique("a.b/c", "b/c");
    TokenUnique("file.", "");
    DotlessPathIsItsOwnToken("Makefile");
  }
}
