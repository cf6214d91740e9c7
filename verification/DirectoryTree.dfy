/** The directory tree that the mounted file system shows (listChildren and isKnownDir in squidfs.cpp).  There
    are no directories in the store: the tree is computed from file paths and from the directories made by
    mkdir. */
module DirectoryTree {
  import opened Stores

  /** rest.find('/'), with the length for "not found". */
  function Slash(s: Path): (k: nat)
    ensures k <= |s| && SLASH !in s[..k] && (k < |s| ==> s[k] == SLASH)
  {
    if s == [] || s[0] == SLASH then 0
    else
      assert forall k | 0 <= k < |s| :: s[..k + 1] == [s[0]] + s[1..][..k];
      1 + Slash(s[1..])
  }

  function Prefix(dir: Path): Path {
    if dir == [] then [] else dir + [SLASH]
  }

  /** What a file contributes to a listing: its name, or the subdirectory it is in, with a slash. */
  function Child(prefix: Path, f: Path): Path
    requires prefix <= f
  {
    var rest := f[|prefix|..];
    var slash := Slash(rest);
    if slash == |rest| then rest else rest[..slash + 1]
  }

  /** A created directory is listed by its parent only. */
  predicate IsChildDir(dir: Path, d: Path) {
    d != dir && Prefix(dir) <= d && SLASH !in d[|Prefix(dir)|..]
  }

  function Children(files: set<Path>, dirs: set<Path>, dir: Path): set<Path> {
    var prefix := Prefix(dir);
    (set d | d in dirs && IsChildDir(dir, d) :: d[|prefix|..] + [SLASH]) +
    (set f | f in files && prefix <= f :: Child(prefix, f))
  }

  predicate IsParent(dir: Path, f: Path) {
    dir + [SLASH] < f
  }

  predicate KnownDir(files: set<Path>, dirs: set<Path>, dir: Path) {
    dir in dirs || exists f :: f in files && IsParent(dir, f)
  }

  lemma ChildrenWithDir(files: set<Path>, dirs: set<Path>, dir: Path, d: Path)
    ensures Children(files, dirs + {d}, dir) ==
            Children(files, dirs, dir) + if IsChildDir(dir, d) then {d[|Prefix(dir)|..] + [SLASH]} else {}
  {
  }

  lemma ChildrenWithFile(files: set<Path>, dirs: set<Path>, dir: Path, f: Path)
    ensures Children(files + {f}, dirs, dir) ==
            Children(files, dirs, dir) + if Prefix(dir) <= f then {Child(Prefix(dir), f)} else {}
  {
  }

  /** The root is in no listing, and a path that ends in a slash makes no directory. */
  lemma RootIsNoChild(files: set<Path>, dirs: set<Path>, dir: Path, d: Path)
    ensures Children(files, dirs + {[]}, dir) == Children(files, dirs, dir)
    ensures !KnownDir({d + [SLASH]}, {}, d)
  {
  }

  /** listChildren. */
  method ListChildren(files: set<Path>, dirs: set<Path>, dir: Path) returns (children: set<Path>)
    ensures children == Children(files, dirs, dir)
  {
    hide Children;
    assert Children({}, {}, dir) == {} by { NoChildren(dir); }
    children := {};
    var prefix := if dir == [] then [] else dir + [SLASH];
    var todo, done := dirs, {};
    while todo != {}
      invariant done + todo == dirs && children == Children({}, done, dir)
      decreases todo
    {
      var d :| d in todo;
      ChildrenWithDir({}, done, dir, d);
      todo, done := todo - {d}, done + {d};
      if d != dir && prefix <= d {
        var rest := d[|prefix|..];
        var slash := Slash(rest);
        if slash == |rest| {
          assert rest[..slash] == rest;
          children := children + {rest + [SLASH]};
        }
      }
    }
    todo, done := files, {};
    while todo != {}
      invariant done + todo == files && children == Children(done, dirs, dir)
      decreases todo
    {
      var f :| f in todo;
      ChildrenWithFile(done, dirs, dir, f);
      todo, done := todo - {f}, done + {f};
      if prefix <= f {
        var rest := f[|prefix|..];
        var slash := Slash(rest);
        if slash == |rest| {
          children := children + {rest};
        } else {
          children := children + {rest[..slash + 1]};
        }
      }
    }
  }

  lemma NoChildren(dir: Path)
    ensures Children({}, {}, dir) == {}
  {
  }

  /** isKnownDir. */
  method IsKnownDir(files: set<Path>, dirs: set<Path>, dir: Path) returns (known: bool)
    ensures known <==> KnownDir(files, dirs, dir)
  {
    if dir in dirs {
      return true;
    }
    var prefix := dir + [SLASH];
    var todo := files;
    while todo != {}
      invariant todo <= files && forall f | f in files - todo :: !IsParent(dir, f)
    {
      var f :| f in todo;
      todo := todo - {f};
      if |f| > |prefix| && f[..|prefix|] == prefix {
        assert IsParent(dir, f);
        return true;
      }
    }
    known := false;
  }

  // ---- The view is exact -----------------------------------------------------------------------------------

  /** No empty component. */
  predicate Normal(p: Path) {
    p != [] && p[0] != SLASH && p[|p| - 1] != SLASH && forall i | 0 < i < |p| :: !(p[i - 1] == SLASH && p[i] == SLASH)
  }

  predicate AllNormal(files: set<Path>, dirs: set<Path>) {
    (forall f | f in files :: Normal(f)) && (forall d | d in dirs :: Normal(d))
  }

  predicate IsName(name: Path) {
    name != [] && SLASH !in name
  }

  /** Below a directory a normal path goes on with a name. */
  lemma RestIsNormal(dir: Path, p: Path)
    requires Normal(p) && Prefix(dir) <= p
    ensures var rest := p[|Prefix(dir)|..]; rest != [] && rest[0] != SLASH
  {
    if dir != [] {
      var k := |dir|;
      assert p[k] == Prefix(dir)[k] == SLASH;
      assert p[|p| - 1] != SLASH;
      assert !(p[k + 1 - 1] == SLASH && p[k + 1] == SLASH);
    }
  }

  lemma {:induction false} SlashIs(name: Path, tail: Path)
    requires SLASH !in name
    ensures Slash(name + [SLASH] + tail) == |name| && Slash(name) == |name|
  {
    var s := name + [SLASH] + tail;
    if name == [] {
      assert s[0] == SLASH;
    } else {
      assert s[1..] == name[1..] + [SLASH] + tail;
      SlashIs(name[1..], tail);
    }
  }

  /** The contribution of a file below the directory: its own name, or the name of a directory above it. */
  lemma ChildIs(dir: Path, f: Path)
    requires Normal(f) && Prefix(dir) <= f
    ensures var c := Child(Prefix(dir), f);
            || (IsName(c) && f == Prefix(dir) + c)
            || (|c| > 1 && c[|c| - 1] == SLASH && IsName(c[..|c| - 1]) && IsParent(Prefix(dir) + c[..|c| - 1], f))
  {
    var prefix, c := Prefix(dir), Child(Prefix(dir), f);
    RestIsNormal(dir, f);
    var rest := f[|prefix|..];
    var slash := Slash(rest);
    assert f == prefix + rest;
    if slash == |rest| {
      assert rest[..slash] == rest;
    } else {
      assert c[..|c| - 1] == rest[..slash];
      assert rest == rest[..slash] + [SLASH] + rest[slash + 1..];
      assert f == (prefix + rest[..slash]) + [SLASH] + rest[slash + 1..];
      assert f[|f| - 1] == rest[|rest| - 1] != SLASH;
    }
  }

  /** A listing has a name if and only if it is the name of a file in the directory ... */
  lemma FileListedIff(files: set<Path>, dirs: set<Path>, dir: Path, name: Path)
    requires AllNormal(files, dirs) && IsName(name)
    ensures name in Children(files, dirs, dir) <==> Prefix(dir) + name in files
  {
    var prefix := Prefix(dir);
    if prefix + name in files {
      assert (prefix + name)[|prefix|..] == name;
      SlashIs(name, []);
      assert Child(prefix, prefix + name) == name;
    }
    if name in Children(files, dirs, dir) {
      assert name[|name| - 1] != SLASH;
      var f :| f in files && prefix <= f && name == Child(prefix, f);
      ChildIs(dir, f);
    }
  }

  /** ... and a name with a slash if and only if that is a known directory. */
  lemma DirListedIff(files: set<Path>, dirs: set<Path>, dir: Path, name: Path)
    requires AllNormal(files, dirs) && IsName(name)
    ensures name + [SLASH] in Children(files, dirs, dir) <==> KnownDir(files, dirs, Prefix(dir) + name)
  {
    var prefix := Prefix(dir);
    var sub := prefix + name;
    if name + [SLASH] in Children(files, dirs, dir) {
      if d :| d in dirs && IsChildDir(dir, d) && d[|prefix|..] + [SLASH] == name + [SLASH] {
        assert d[|prefix|..] == (d[|prefix|..] + [SLASH])[..|name|] == name;
        assert d == prefix + d[|prefix|..];
      } else {
        var f :| f in files && prefix <= f && Child(prefix, f) == name + [SLASH];
        ChildIs(dir, f);
        assert (name + [SLASH])[..|name|] == name;
        assert (name + [SLASH])[|name|] == SLASH;
        assert IsParent(sub, f);
      }
    }
    if sub in dirs {
      assert sub[|prefix|..] == name;
      assert IsChildDir(dir, sub);
    } else if KnownDir(files, dirs, sub) {
      var f :| f in files && IsParent(sub, f);
      ParentLists(dir, name, f);
    }
  }

  lemma ParentLists(dir: Path, name: Path, f: Path)
    requires IsName(name) && IsParent(Prefix(dir) + name, f)
    ensures Prefix(dir) <= f && Child(Prefix(dir), f) == name + [SLASH]
  {
    var prefix := Prefix(dir);
    var tail := f[|prefix| + |name| + 1..];
    assert f == prefix + name + [SLASH] + tail;
    var rest := f[|prefix|..];
    assert rest == name + [SLASH] + tail;
    SlashIs(name, tail);
    assert rest[..|name| + 1] == name + [SLASH];
  }

  /** Nothing else is listed. */
  lemma OnlyNamesListed(files: set<Path>, dirs: set<Path>, dir: Path, c: Path)
    requires AllNormal(files, dirs) && c in Children(files, dirs, dir)
    ensures IsName(c) || (|c| > 1 && c[|c| - 1] == SLASH && IsName(c[..|c| - 1]))
  {
    var prefix := Prefix(dir);
    if d :| d in dirs && IsChildDir(dir, d) && c == d[|prefix|..] + [SLASH] {
      RestIsNormal(dir, d);
      assert c[..|c| - 1] == d[|prefix|..];
    } else {
      var f :| f in files && prefix <= f && c == Child(prefix, f);
      ChildIs(dir, f);
    }
  }

  // ---- Walking the tree ------------------------------------------------------------------------------------

  /** f can be found from a directory by listing it, picking an entry, and going on from there if that is a
      known directory. */
  ghost predicate Reaches(files: set<Path>, dirs: set<Path>, dir: Path, f: Path)
    decreases |f| - |dir|
  {
    exists c :: c in Children(files, dirs, dir) && Leads(files, dirs, dir, c, f)
  }

  ghost predicate Leads(files: set<Path>, dirs: set<Path>, dir: Path, c: Path, f: Path)
    decreases |f| - |dir|, 0
  {
    c != [] &&
    if c[|c| - 1] != SLASH then Prefix(dir) + c == f
    else
      var sub := Prefix(dir) + c[..|c| - 1];
      |dir| < |sub| < |f| && KnownDir(files, dirs, sub) && Reaches(files, dirs, sub, f)
  }

  lemma {:induction false} FileIsReached(files: set<Path>, dirs: set<Path>, dir: Path, f: Path)
    requires AllNormal(files, dirs) && f in files && Prefix(dir) <= f
    ensures Reaches(files, dirs, dir, f)
    decreases |f| - |dir|
  {
    var c := Child(Prefix(dir), f);
    assert c in Children(files, dirs, dir);
    ChildIs(dir, f);
    if !(IsName(c) && f == Prefix(dir) + c) {
      var sub := Prefix(dir) + c[..|c| - 1];
      assert Prefix(sub) == sub + [SLASH];
      FileIsReached(files, dirs, sub, f);
    }
    assert Leads(files, dirs, dir, c, f);
  }

  lemma {:induction false} ReachedIsFile(files: set<Path>, dirs: set<Path>, dir: Path, f: Path)
    requires AllNormal(files, dirs) && Reaches(files, dirs, dir, f)
    ensures f in files
    decreases |f| - |dir|
  {
    hide Children, KnownDir;
    var c :| c in Children(files, dirs, dir) && Leads(files, dirs, dir, c, f);
    OnlyNamesListed(files, dirs, dir, c);
    if c[|c| - 1] != SLASH {
      FileListedIff(files, dirs, dir, c);
    } else {
      ReachedIsFile(files, dirs, Prefix(dir) + c[..|c| - 1], f);
    }
  }

  /** The view is exact: a walk from the root finds the files and nothing else, through known directories
      only; and a known directory that a file is in has something to list. */
  lemma TreeIsExact(files: set<Path>, dirs: set<Path>, f: Path)
    requires AllNormal(files, dirs)
    ensures f in files <==> Reaches(files, dirs, [], f)
    ensures f in files ==>
              forall dir | IsParent(dir, f) :: KnownDir(files, dirs, dir) && Children(files, dirs, dir) != {}
  {
    if f in files {
      FileIsReached(files, dirs, [], f);
      forall dir | IsParent(dir, f) ensures Children(files, dirs, dir) != {} {
        assert Normal(f) && dir != [];
        assert Child(Prefix(dir), f) in Children(files, dirs, dir);
      }
    } else if Reaches(files, dirs, [], f) {
      ReachedIsFile(files, dirs, [], f);
    }
  }
}
