/**
 * The path rewrite the plugin applies everywhere,
 * `preg_replace('/\.[^.]+$/', '.webp', $s)`, and the extension that
 * `pathinfo($s, PATHINFO_EXTENSION)` reports.
 */
module WebpPath {
  import opened PhpStrings

  const WEBP_SUFFIX: string := ".webp"

  /**
   * The pattern `\.[^.]+$` matches at `i`: a dot there, at least one character
   * after it, and no further dot up to the end (a `/` is not a dot, so the
   * match may run across directory separators).
   */
  ghost predicate ExtensionAt(s: string, i: int) {
    0 <= i < |s| - 1 && s[i] == '.' && forall j :: i < j < |s| ==> s[j] != '.'
  }

  ghost predicate HasExtension(s: string) {
    exists i :: ExtensionAt(s, i)
  }

  /** The regex rewrite, computed from the last dot of `s`. */
  function ReplaceExtension(s: string): string {
    var i := LastIndexOf(s, '.');
    if 0 <= i < |s| - 1 then s[..i] + WEBP_SUFFIX else s
  }

  /**
   * The rewrite does what the pattern says: a string the pattern matches
   * loses the match and gets `.webp` in its place; any other string (no dot,
   * or a dot as the last character) is returned as it is.
   */
  lemma ReplaceExtensionMatchesPattern(s: string)
    ensures forall i :: ExtensionAt(s, i) ==> ReplaceExtension(s) == s[..i] + WEBP_SUFFIX
    ensures (forall i :: !ExtensionAt(s, i)) ==> ReplaceExtension(s) == s
  {
    var i := LastIndexOf(s, '.');
    LastIndexOfIsLast(s, '.');
    if 0 <= i < |s| - 1 {
      assert ExtensionAt(s, i);
    }
  }

  /** The first half of `ReplaceExtensionMatchesPattern`, at one match. */
  lemma ReplaceExtensionAt(s: string, i: int)
    requires ExtensionAt(s, i)
    ensures ReplaceExtension(s) == s[..i] + WEBP_SUFFIX
  {
    ReplaceExtensionMatchesPattern(s);
  }

  /** Where the pattern matches nowhere, the rewrite is the identity. */
  lemma ReplaceExtensionWithoutMatch(s: string)
    requires !HasExtension(s)
    ensures ReplaceExtension(s) == s
  {
    ReplaceExtensionMatchesPattern(s);
  }

  /**
   * A dot in a directory name and none in the file name: the rewrite cuts
   * the path back into the parent directory.
   */
  lemma DottedDirectoryLeavesDirectory()
    ensures ReplaceExtension("/up/v1.2/photo") == "/up/v1.webp"
  {
    assert ExtensionAt("/up/v1.2/photo", 6);
    ReplaceExtensionAt("/up/v1.2/photo", 6);
  }

  /** The pattern matches at most one place. */
  lemma ExtensionAtUnique(s: string, i: int, k: int)
    requires ExtensionAt(s, i) && ExtensionAt(s, k)
    ensures i == k
  {
  }

  /** A rewritten string ends in a `.webp` extension of its own. */
  lemma {:induction false} ReplaceExtensionEndsInWebp(s: string)
    requires HasExtension(s)
    ensures var r := ReplaceExtension(s);
      |r| >= |WEBP_SUFFIX| && r[|r| - |WEBP_SUFFIX|..] == WEBP_SUFFIX && ExtensionAt(r, |r| - |WEBP_SUFFIX|)
  {
    var i :| ExtensionAt(s, i);
    var r := ReplaceExtension(s);
    ReplaceExtensionMatchesPattern(s);
    assert r == s[..i] + WEBP_SUFFIX;
    assert |r| == i + 5;
    assert r[i..] == WEBP_SUFFIX;
    forall j | i < j < |r| ensures r[j] != '.' {
      assert r[j] == WEBP_SUFFIX[j - i];
    }
  }

  /** Rewriting twice is rewriting once. */
  lemma {:induction false} ReplaceExtensionIdempotent(s: string)
    ensures ReplaceExtension(ReplaceExtension(s)) == ReplaceExtension(s)
  {
    if HasExtension(s) {
      var i :| ExtensionAt(s, i);
      var r := ReplaceExtension(s);
      ReplaceExtensionEndsInWebp(s);
      ReplaceExtensionMatchesPattern(s);
      ReplaceExtensionMatchesPattern(r);
      assert |r| - |WEBP_SUFFIX| == i;
      assert r[..i] == s[..i];
      assert r == r[..i] + WEBP_SUFFIX;
    } else {
      ReplaceExtensionMatchesPattern(s);
    }
  }

  /** A prefix in front of a string with an extension is kept verbatim. */
  lemma {:induction false} ReplaceExtensionAppend(prefix: string, s: string)
    requires HasExtension(s)
    ensures ReplaceExtension(prefix + s) == prefix + ReplaceExtension(s)
  {
    var i :| ExtensionAt(s, i);
    var t := prefix + s;
    var k := |prefix| + i;
    assert ExtensionAt(t, k) by {
      forall j | k < j < |t| ensures t[j] != '.' {
        assert t[j] == s[j - |prefix|];
      }
    }
    ReplaceExtensionAt(s, i);
    ReplaceExtensionAt(t, k);
    assert t[..k] == prefix + s[..i];
  }

  /** `basename($p)`: what follows the last `/`, or all of `p` when it holds none. */
  function Basename(p: string): string
  {
    p[LastIndexOf(p, '/') + 1..]
  }

  /**
   * The basename is the longest tail of the path that holds no `/`: it is the
   * whole path, or a `/` stands right before it.
   */
  lemma {:induction false} BasenameIsSlashFreeTail(p: string)
    ensures var b := Basename(p);
      && |b| <= |p| && b == p[|p| - |b|..]
      && (forall j :: 0 <= j < |b| ==> b[j] != '/')
      && (|b| < |p| ==> p[|p| - |b| - 1] == '/')
  {
    LastIndexOfIsLast(p, '/');
    TailAvoids(p, LastIndexOf(p, '/') + 1, '/');
  }

  /** A tail of `p` avoids `c` exactly when `p` avoids `c` from that offset on. */
  lemma TailAvoids(p: string, off: int, c: char)
    requires 0 <= off <= |p|
    ensures (forall j :: off <= j < |p| ==> p[j] != c) <==>
            (forall j :: 0 <= j < |p| - off ==> p[off..][j] != c)
  {
    var t := p[off..];
    assert forall j :: 0 <= j < |t| ==> t[j] == p[off + j];
    if forall j :: 0 <= j < |t| ==> t[j] != c {
      forall j | off <= j < |p| ensures p[j] != c {
        assert p[j] == t[j - off];
      }
    }
  }

  /**
   * `pathinfo($p, PATHINFO_EXTENSION)`: what follows the last dot of the
   * basename, or "" when the basename holds no dot.
   */
  function PathExtension(p: string): string
  {
    var b := Basename(p);
    var d := LastIndexOf(b, '.');
    if d < 0 then "" else b[d + 1..]
  }

  /**
   * A non-empty `pathinfo` extension is exactly where the rewrite pattern
   * matches; an empty one means the pattern matches nowhere or only across a `/`.
   */
  lemma PathExtensionMatchesPattern(p: string)
    ensures var e := PathExtension(p);
      && (e != "" ==> ExtensionAt(p, |p| - |e| - 1) && e == p[|p| - |e|..])
      && (e != "" ==> forall j :: |p| - |e| <= j < |p| ==> p[j] != '/')
      && (e == "" ==> forall i :: ExtensionAt(p, i) ==> exists j :: i < j < |p| && p[j] == '/')
  {
    if PathExtension(p) != "" {
      NonEmptyExtensionMatches(p);
    } else {
      forall i | ExtensionAt(p, i) ensures exists j :: i < j < |p| && p[j] == '/' {
        EmptyExtensionCrossesSlash(p, i);
      }
    }
  }

  lemma {:induction false} NonEmptyExtensionMatches(p: string)
    requires PathExtension(p) != ""
    ensures var e := PathExtension(p);
      && ExtensionAt(p, |p| - |e| - 1) && e == p[|p| - |e|..]
      && forall j :: |p| - |e| <= j < |p| ==> p[j] != '/'
  {
    var k := LastIndexOf(p, '/');
    var b := Basename(p);
    BasenameIsSlashFreeTail(p);
    var off := |p| - |b|;
    var d := LastIndexOf(b, '.');
    LastIndexOfIsLast(b, '.');
    var e := PathExtension(p);
    assert d >= 0 && e == b[d + 1..];
    assert p[off + d] == b[d] == '.';
    forall j | off + d < j < |p| ensures p[j] != '.' && p[j] != '/' {
      assert p[j] == b[j - off];
    }
    assert e == p[off + d + 1..];
  }

  lemma EmptyExtensionCrossesSlash(p: string, i: int)
    requires PathExtension(p) == "" && ExtensionAt(p, i)
    ensures exists j :: i < j < |p| && p[j] == '/'
  {
    var k := LastIndexOf(p, '/');
    var b := Basename(p);
    BasenameHoldsNoDot(p);
    BasenameIsSlashFreeTail(p);
    LastIndexOfIsLast(b, '.');
    TailAvoids(p, |p| - |b|, '.');
    assert i < k + 1;
    LastIndexOfIsLast(p, '/');
    assert i < k && p[k] == '/';
  }

  lemma {:induction false} BasenameHoldsNoDot(p: string)
    requires PathExtension(p) == "" && (|p| > 0 ==> p[|p| - 1] != '.')
    ensures LastIndexOf(Basename(p), '.') < 0
  {
    var b := Basename(p);
    EmptyExtensionDotIsLast(p);
    BasenameIsSlashFreeTail(p);
    assert |b| > 0 ==> b[|b| - 1] == p[|p| - 1];
    NoTrailingDot(b);
  }

  lemma EmptyExtensionDotIsLast(p: string)
    requires PathExtension(p) == ""
    ensures var b := Basename(p); var d := LastIndexOf(b, '.');
      d < 0 || d == |b| - 1
  {
  }

  lemma NoTrailingDot(b: string)
    requires var d := LastIndexOf(b, '.'); d < 0 || d == |b| - 1
    requires |b| > 0 ==> b[|b| - 1] != '.'
    ensures LastIndexOf(b, '.') < 0
  {
    LastIndexOfIsLast(b, '.');
  }

  /**
   * With a non-empty `pathinfo` extension, the rewrite swaps exactly that
   * extension for `webp`: the artifact is the `.webp` sibling in the same
   * directory, and it is a different file unless the extension already is `webp`.
   */
  lemma DestinationIsSibling(p: string)
    requires PathExtension(p) != ""
    ensures var e := PathExtension(p);
      && ReplaceExtension(p) == p[..|p| - |e| - 1] + WEBP_SUFFIX
      && (ReplaceExtension(p) == p <==> e == "webp")
  {
    var e := PathExtension(p);
    PathExtensionMatchesPattern(p);
    var k := |p| - |e| - 1;
    assert ExtensionAt(p, k);
    ReplaceExtensionMatchesPattern(p);
    DotSuffixSwap(p, k);
  }

  /** Replacing the tail from a dot by `.webp` is the identity exactly when that tail is `.webp`. */
  lemma DotSuffixSwap(p: string, k: int)
    requires 0 <= k < |p| && p[k] == '.'
    ensures p[..k] + WEBP_SUFFIX == p <==> p[k + 1..] == "webp"
  {
    if p[k + 1..] == "webp" {
      assert p == p[..k] + [p[k]] + p[k + 1..];
    }
    if p[..k] + WEBP_SUFFIX == p {
      assert p[k + 1..] == (p[..k] + WEBP_SUFFIX)[k + 1..];
    }
  }

  /** The rewritten path of any path with an extension has `pathinfo` extension `webp`. */
  lemma {:induction false} RewrittenExtensionIsWebp(s: string)
    requires HasExtension(s)
    ensures PathExtension(ReplaceExtension(s)) == "webp"
  {
    ReplaceExtensionEndsInWebp(s);
    WebpTailIsExtension(ReplaceExtension(s));
  }

  /** A path ending in `.webp` has `pathinfo` extension `webp`. */
  lemma WebpTailIsExtension(r: string)
    requires |r| >= |WEBP_SUFFIX| && r[|r| - |WEBP_SUFFIX|..] == WEBP_SUFFIX
    ensures PathExtension(r) == "webp"
  {
    var i := |r| - |WEBP_SUFFIX|;
    forall j | i <= j < |r| ensures r[j] == WEBP_SUFFIX[j - i] {
    }
    assert ExtensionAt(r, i);
    PathExtensionMatchesPattern(r);
    var e := PathExtension(r);
    if e == "" {
      assert false;
    }
    ExtensionAtUnique(r, i, |r| - |e| - 1);
  }

  /** The dotted-directory case: `/a.d/file` is rewritten to `/a.webp`. */
  lemma DottedDirectoryRewrite()
    ensures ReplaceExtension("/a.d/file") == "/a.webp"
  {
    assert ExtensionAt("/a.d/file", 2);
    ReplaceExtensionMatchesPattern("/a.d/file");
  }

  /** A trailing dot is no extension: `file.` is left as it is. */
  lemma TrailingDotKept()
    ensures ReplaceExtension("file.") == "file."
  {
    assert forall i :: !ExtensionAt("file.", i);
    ReplaceExtensionMatchesPattern("file.");
  }
}
