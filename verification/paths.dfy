/** Where a live file's backup lives, and how a mirrored file finds its way
    back: the backup path is the backup root glued to the live path with a
    single `"//"` to `"/"` pass, and restoring strips the root (less one
    trailing separator) from the front of each mirrored path. */
module Paths {
  import opened Text

  type Path = string

  /** Rust's `str::replace("//", "/")`: one left-to-right pass replacing
      non-overlapping occurrences, so `"///"` becomes `"//"`. */
  function CollapseDoubleSlash(s: string): (r: string)
    ensures |r| <= |s|
    decreases |s|
  {
    if |s| >= 2 && s[..2] == "//" then "/" + CollapseDoubleSlash(s[2..])
    else if |s| == 0 then []
    else [s[0]] + CollapseDoubleSlash(s[1..])
  }

  /** The pass changes a text exactly when the text holds a double
      separator; otherwise it shortens it. */
  lemma {:induction false} CollapseFixedPoints(s: string)
    ensures CollapseDoubleSlash(s) == s <==> !Contains(s, "//")
    ensures Contains(s, "//") ==> |CollapseDoubleSlash(s)| < |s|
    decreases |s|
  {
    if |s| >= 2 && s[..2] == "//" {
      assert Contains(s, "//");
    } else if |s| > 0 {
      CollapseFixedPoints(s[1..]);
      assert s == [s[0]] + s[1..];
    }
  }

  /** The mirrored location of `path` under `backupDir`. For a non-empty
      root and a `/`-rooted path, neither holding a double separator, it is
      the root's base followed by the path. */
  function BackupPath(backupDir: string, path: Path): (backup: Path)
    ensures |backup| <= |backupDir| + |path|
    ensures && |backupDir| > 0 && !Contains(backupDir, "//")
            && |path| >= 1 && path[0] == '/' && !Contains(path, "//")
            ==> backup == MirrorBase(backupDir) + path
  {
    if && |backupDir| > 0 && !Contains(backupDir, "//")
       && |path| >= 1 && path[0] == '/' && !Contains(path, "//")
    then
      RootedJoin(backupDir, path);
      CollapseDoubleSlash(backupDir + path)
    else CollapseDoubleSlash(backupDir + path)
  }

  /** The backup root with one trailing separator dropped; its length is
      the number of characters restoring strips from a mirrored path. */
  function MirrorBase(backupDir: string): (base: string)
    ensures |base| <= |backupDir|
    ensures base + "/" == backupDir || base == backupDir
    ensures |backupDir| > 0 && backupDir[|backupDir| - 1] == '/' ==> base + "/" == backupDir
  {
    if |backupDir| > 0 && backupDir[|backupDir| - 1] == '/' then backupDir[..|backupDir| - 1]
    else backupDir
  }

  /** `p` names a file strictly below the mirror root, as a recursive walk
      of the root spells it: the base, a separator, then a non-empty rest.
      The empty root names no directory, so nothing lies beneath it. */
  predicate InMirror(p: Path, backupDir: string) {
    var base := MirrorBase(backupDir);
    && |backupDir| > 0
    && |p| > |base| + 1
    && p[..|base| + 1] == base + "/"
  }

  /** The live path a mirrored file is restored to: the mirrored path with
      the base stripped, which always keeps its leading separator. */
  function RestoreTarget(p: Path, backupDir: string): (target: Path)
    requires InMirror(p, backupDir)
    ensures MirrorBase(backupDir) + target == p
    ensures |target| >= 2 && target[0] == '/'
  {
    var base := MirrorBase(backupDir);
    assert p == p[..|base| + 1] + p[|base| + 1..];
    p[|base|..]
  }

  /** Different mirrored files restore to different live paths. */
  lemma RestoreTargetInjective(p: Path, q: Path, backupDir: string)
    requires InMirror(p, backupDir) && InMirror(q, backupDir)
    ensures RestoreTarget(p, backupDir) == RestoreTarget(q, backupDir) <==> p == q
  {
  }

  /** The pass distributes over a split point that does not fall inside a
      run of separators. */
  lemma {:induction false} CollapseConcat(a: string, b: string)
    requires |a| == 0 || a[|a| - 1] != '/'
    ensures CollapseDoubleSlash(a + b) == CollapseDoubleSlash(a) + CollapseDoubleSlash(b)
    decreases |a|
  {
    if |a| == 0 {
      assert a + b == b;
    } else if |a| == 1 {
      CollapseAfterPlainHead(a, b);
    } else if a[..2] == "//" {
      CollapseAfterDoubleHead(a, b);
      CollapseConcat(a[2..], b);
    } else {
      CollapseAfterPlainHead(a, b);
      CollapseConcat(a[1..], b);
    }
  }

  lemma CollapseAfterDoubleHead(a: string, b: string)
    requires |a| >= 2 && a[..2] == "//" && a[|a| - 1] != '/'
    ensures |a[2..]| > 0 && a[2..][|a[2..]| - 1] != '/'
    ensures CollapseDoubleSlash(a + b) == "/" + CollapseDoubleSlash(a[2..] + b)
    ensures CollapseDoubleSlash(a) == "/" + CollapseDoubleSlash(a[2..])
  {
    var ab := a + b;
    assert ab[..2] == "//";
    assert ab[2..] == a[2..] + b;
  }

  lemma CollapseAfterPlainHead(a: string, b: string)
    requires |a| >= 1 && a[|a| - 1] != '/'
    requires |a| == 1 || a[..2] != "//"
    ensures |a[1..]| == 0 || a[1..][|a[1..]| - 1] != '/'
    ensures CollapseDoubleSlash(a + b) == [a[0]] + CollapseDoubleSlash(a[1..] + b)
    ensures CollapseDoubleSlash(a) == [a[0]] + CollapseDoubleSlash(a[1..])
  {
    var ab := a + b;
    assert ab[0] == a[0];
    assert ab[1..] == a[1..] + b;
    if |a| == 1 {
      assert !(|ab| >= 2 && ab[..2] == "//");
    } else {
      assert ab[..2] == a[..2];
    }
  }

  lemma ContainsPrefixOf(a: string, b: string, q: string)
    requires !Contains(a + b, q)
    ensures !Contains(a, q) && !Contains(b, q)
  {
    if Contains(a, q) {
      ContainsAppendRight(a, b, q);
    }
    if Contains(b, q) {
      ContainsAppendLeft(a, b, q);
    }
  }

  /** A text with no two adjacent separators holds no double separator. */
  lemma {:induction false} NoAdjacentSlashes(s: string)
    requires forall i :: 0 <= i < |s| - 1 ==> !(s[i] == '/' && s[i + 1] == '/')
    ensures !Contains(s, "//")
    decreases |s|
  {
    if |s| >= 2 {
      assert s[..2] != "//" by {
        assert !(s[0] == '/' && s[1] == '/');
      }
      NoAdjacentSlashes(s[1..]);
    }
  }

  lemma DoubleAtEnd(a: string)
    requires |a| >= 2 && a[|a| - 2] == '/' && a[|a| - 1] == '/'
    ensures Contains(a, "//")
  {
    var front := a[..|a| - 2];
    assert a == front + ("//" + []);
    ContainsAtStart("//", []);
    ContainsAppendLeft(front, "//" + [], "//");
  }

  /** A root ending in a separator, joined to a `/`-rooted path: the
      doubled separator at the seam is the only one the pass removes. */
  lemma JoinAtSeparator(base: string, path: Path)
    requires |base| == 0 || base[|base| - 1] != '/'
    requires !Contains(base, "//")
    requires |path| >= 1 && path[0] == '/' && !Contains(path, "//")
    ensures CollapseDoubleSlash(base + "/" + path) == base + path
  {
    CollapseRootedTail(path);
    CollapseFixedPoints(base);
    CollapseConcat(base, "/" + path);
    ConcatAssoc(base, "/", path);
  }

  lemma ConcatAssoc(a: string, b: string, c: string)
    ensures a + b + c == a + (b + c)
  {
  }

  /** A doubled separator in front of a `/`-rooted path is undone. */
  lemma CollapseRootedTail(path: Path)
    requires |path| >= 1 && path[0] == '/' && !Contains(path, "//")
    ensures CollapseDoubleSlash("/" + path) == path
  {
    var rest := path[1..];
    RootedPathSplits(path);
    CollapseFixedPoints(rest);
    var tail := "/" + path;
    assert tail[..2] == "//";
    assert tail[2..] == rest;
  }

  /** A root not ending in a separator, joined to a path: the pass
      leaves both sides alone. */
  lemma JoinPlain(root: string, path: Path)
    requires |root| == 0 || root[|root| - 1] != '/'
    requires !Contains(root, "//") && !Contains(path, "//")
    ensures CollapseDoubleSlash(root + path) == root + path
  {
    CollapseFixedPoints(root);
    CollapseFixedPoints(path);
    CollapseConcat(root, path);
  }

  lemma RootedPathSplits(path: Path)
    requires |path| >= 1 && path[0] == '/' && !Contains(path, "//")
    ensures path == "/" + path[1..]
    ensures !Contains(path[1..], "//")
  {
    assert path == "/" + path[1..];
    ContainsPrefixOf("/", path[1..], "//");
  }

  lemma RootWithoutDoubleSeparator(backupDir: string)
    requires |backupDir| > 0 && !Contains(backupDir, "//")
    ensures !Contains(MirrorBase(backupDir), "//")
    ensures |MirrorBase(backupDir)| == 0 || MirrorBase(backupDir)[|MirrorBase(backupDir)| - 1] != '/'
  {
    var base := MirrorBase(backupDir);
    if backupDir[|backupDir| - 1] == '/' {
      assert backupDir == base + "/";
      ContainsPrefixOf(base, "/", "//");
      if |base| > 0 && base[|base| - 1] == '/' {
        DoubleAtEnd(backupDir);
      }
    }
  }

  /** The backup path of a `/`-rooted path under a root without double
      separators is the root's base followed by the path. */
  lemma RootedJoin(backupDir: string, path: Path)
    requires |backupDir| > 0 && !Contains(backupDir, "//")
    requires |path| >= 1 && path[0] == '/' && !Contains(path, "//")
    ensures CollapseDoubleSlash(backupDir + path) == MirrorBase(backupDir) + path
  {
    var base := MirrorBase(backupDir);
    if backupDir == base + "/" {
      RootWithoutDoubleSeparator(backupDir);
      JoinAtSeparator(base, path);
    } else {
      JoinPlain(backupDir, path);
    }
  }

  /** The mirror round trip: for a backup root and a `/`-rooted live path,
      neither holding a double separator, the backup path lies under the
      mirror and restoring it yields the live path again. */
  lemma MirrorRoundTrip(backupDir: string, path: Path)
    requires |backupDir| > 0 && !Contains(backupDir, "//")
    requires |path| >= 2 && path[0] == '/' && !Contains(path, "//")
    ensures InMirror(BackupPath(backupDir, path), backupDir)
    ensures RestoreTarget(BackupPath(backupDir, path), backupDir) == path
  {
    var base := MirrorBase(backupDir);
    var b := BackupPath(backupDir, path);
    assert b[..|base| + 1] == base + "/";
  }

  /** The default backup root and an absolute live path meet in a single
      separator. */
  lemma DefaultRootJoinsAbsolutePath()
    ensures BackupPath("./backup/", "/tmp/x") == "./backup/tmp/x"
  {
    DefaultRootFacts();
    AbsoluteExampleFacts();
    assert "./backup" + "/tmp/x" == "./backup/tmp/x";
  }

  lemma DefaultRootFacts()
    ensures !Contains("./backup/", "//")
    ensures MirrorBase("./backup/") == "./backup"
  {
    NoAdjacentSlashes("./backup/");
    assert "./backup/"[..8] == "./backup";
  }

  lemma AbsoluteExampleFacts()
    ensures !Contains("/tmp/x", "//")
  {
    NoAdjacentSlashes("/tmp/x");
  }

  /** One pass does not remove every double separator. */
  lemma TripleSlashKeepsDouble()
    ensures CollapseDoubleSlash("///") == "//"
  {
    assert "///"[..2] == "//";
    assert "///"[2..] == "/";
  }

  lemma RootOnRelativePath(rel: Path)
    requires |rel| > 0 && rel[0] != '/' && !Contains(rel, "//")
    ensures !Contains("/" + rel, "//")
  {
    var r := "/" + rel;
    assert r[1..] == rel;
    assert r[..2] != "//" by {
      assert r[1] == rel[0];
    }
  }

  /** A relative live path and its `/`-rooted namesake share one backup
      path under a root that ends in a separator, so the mirror cannot
      tell them apart and restoring writes the rooted one. */
  lemma RelativePathRestoresRooted(backupDir: string, rel: Path)
    requires |backupDir| > 0 && backupDir[|backupDir| - 1] == '/' && !Contains(backupDir, "//")
    requires |rel| > 0 && rel[0] != '/' && !Contains(rel, "//")
    ensures BackupPath(backupDir, rel) == BackupPath(backupDir, "/" + rel)
    ensures InMirror(BackupPath(backupDir, rel), backupDir)
    ensures RestoreTarget(BackupPath(backupDir, rel), backupDir) == "/" + rel
  {
    RootOnRelativePath(rel);
    RelativeJoin(backupDir, rel);
    MirrorRoundTrip(backupDir, "/" + rel);
  }

  /** Under a root that does not end in a separator, a relative live path
      is glued straight on, so its backup lands beside the tree rather
      than below it and no restore brings it back. */
  lemma RelativePathBesideMirror(backupDir: string, rel: Path)
    requires |backupDir| > 0 && backupDir[|backupDir| - 1] != '/' && !Contains(backupDir, "//")
    requires |rel| > 0 && rel[0] != '/' && !Contains(rel, "//")
    ensures BackupPath(backupDir, rel) == backupDir + rel
    ensures !InMirror(BackupPath(backupDir, rel), backupDir)
  {
    JoinPlain(backupDir, rel);
    GluedOutsideMirror(backupDir, rel);
  }

  lemma GluedOutsideMirror(backupDir: string, rel: Path)
    requires |backupDir| > 0 && backupDir[|backupDir| - 1] != '/'
    requires |rel| > 0 && rel[0] != '/'
    ensures !InMirror(backupDir + rel, backupDir)
  {
    var b := backupDir + rel;
    var base := MirrorBase(backupDir);
    assert base == backupDir;
    if |b| > |base| + 1 {
      assert b[..|base| + 1][|base|] == rel[0];
    }
  }

  /** The root `b` and the live path `x` give the backup path `bx`. */
  lemma PlainRootRelativeExample()
    ensures BackupPath("b", "x") == "bx"
    ensures !InMirror("bx", "b")
  {
    NoAdjacentSlashes("b");
    NoAdjacentSlashes("x");
    RelativePathBesideMirror("b", "x");
  }

  lemma RelativeJoin(backupDir: string, rel: Path)
    requires |backupDir| > 0 && backupDir[|backupDir| - 1] == '/' && !Contains(backupDir, "//")
    requires !Contains("/" + rel, "//")
    ensures BackupPath(backupDir, rel) == MirrorBase(backupDir) + ("/" + rel)
  {
    var base := MirrorBase(backupDir);
    RootWithoutDoubleSeparator(backupDir);
    ConcatAssoc(base, "/", rel);
    JoinPlain(base, "/" + rel);
  }
}
