/**
  The local filesystem the package manager and the deletion hook work on:
  a map from path strings to files and directories, with the PHP functions
  the code calls (`is_dir`, `file_exists`, recursive `mkdir`,
  `file_put_contents`, `unlink`, `rmdir`, `scandir`) and the recursive
  `removeDirectory` walk of Module.php and ScormPackageManager.php.
 */
module FileSystem {
  import opened Wrappers
  import opened Paths

  datatype Node = File(content: string) | Dir

  type Fs = map<string, Node>

  /** PHP `is_dir` of a path the map holds. */
  predicate IsDir(fs: Fs, p: string) {
    p in fs && fs[p].Dir?
  }

  /**
    PHP `is_dir` of a path `dirname` returned: the filesystem root "/" and
    the working directory "." always exist, whether or not the map lists them.
   */
  predicate DirPresent(fs: Fs, p: string) {
    p == "/" || p == "." || IsDir(fs, p)
  }

  /** The map is a tree: every proper ancestor of a path in it is a directory in it. */
  ghost predicate WellFormed(fs: Fs) {
    forall q, a :: q in fs && a in Ancestors(q) ==> IsDir(fs, a)
  }

  lemma AncestorIsDir(fs: Fs, q: string, a: string)
    requires WellFormed(fs) && q in fs && a in Ancestors(q)
    ensures IsDir(fs, a)
  {
  }

  /** The directories `mkdir($p, 0777, true)` has to exist afterwards. */
  function MkdirTargets(p: string): set<string> {
    Ancestors(p) + {p}
  }

  /**
    Recursive `mkdir`: creates `p` and every missing ancestor; fails when
    one of them is already a regular file. PHP's call also fails when `p`
    is already a directory; here it succeeds without change, a case no
    caller reaches, since each call site tests `is_dir` first.
   */
  function MkdirAll(fs: Fs, p: string): (r: Option<Fs>)
    ensures r.None? <==> exists a :: a in MkdirTargets(p) && a in fs && fs[a].File?
    ensures r.Some? ==> IsDir(r.value, p)
    ensures r.Some? ==> forall q :: q in fs ==> q in r.value && r.value[q] == fs[q]
    ensures r.Some? ==> forall q :: q in r.value && q !in fs ==> q in MkdirTargets(p) && r.value[q] == Dir
  {
    var need := MkdirTargets(p);
    if exists a :: a in need && a in fs && fs[a].File? then None
    else Some(fs + map a | a in need && a !in fs :: Dir)
  }

  lemma MkdirAllWellFormed(fs: Fs, p: string)
    requires WellFormed(fs) && MkdirAll(fs, p).Some?
    ensures WellFormed(MkdirAll(fs, p).value)
  {
    var r := MkdirAll(fs, p).value;
    forall q, a | q in r && a in Ancestors(q) ensures IsDir(r, a) {
      if q in fs {
        assert IsDir(fs, a);
      } else {
        assert q in MkdirTargets(p);
        if q != p {
          AncestorsOfAncestor(q, p);
        }
        assert a in MkdirTargets(p);
      }
    }
  }

  /** `file_put_contents`: succeeds when `p` is not a directory and every ancestor is one. */
  function WriteFile(fs: Fs, p: string, content: string): (r: Option<Fs>)
    ensures r.Some? <==> !IsDir(fs, p) && forall a :: a in Ancestors(p) ==> IsDir(fs, a)
    ensures r.Some? ==> r.value == fs[p := File(content)]
  {
    if !IsDir(fs, p) && forall a :: a in Ancestors(p) ==> IsDir(fs, a)
    then Some(fs[p := File(content)])
    else None
  }

  lemma WriteFileWellFormed(fs: Fs, p: string, content: string)
    requires WellFormed(fs) && WriteFile(fs, p, content).Some?
    ensures WellFormed(WriteFile(fs, p, content).value)
  {
    var r := WriteFile(fs, p, content).value;
    forall q, a | q in r && a in Ancestors(q) ensures IsDir(r, a) {
      if q == p {
        assert IsDir(fs, a);
      } else {
        assert IsDir(fs, a);
        assert a != p;
      }
    }
  }

  /** The paths of `fs` in the subtree rooted at `p`. */
  ghost function SubtreeKeys(fs: Fs, p: string): set<string> {
    set q | q in fs && InSubtree(q, p)
  }

  /** `fs` with the subtree rooted at `p` removed. */
  function RemoveSubtree(fs: Fs, p: string): (r: Fs)
    ensures forall q :: q in r <==> q in fs && !InSubtree(q, p)
    ensures forall q :: q in r ==> r[q] == fs[q]
  {
    map q | q in fs && !InSubtree(q, p) :: fs[q]
  }

  lemma RemoveSubtreeWellFormed(fs: Fs, p: string)
    requires WellFormed(fs)
    ensures WellFormed(RemoveSubtree(fs, p))
  {
    var r := RemoveSubtree(fs, p);
    forall q, a | q in r && a in Ancestors(q) ensures IsDir(r, a) {
      assert IsDir(fs, a);
      if InSubtree(a, p) {
        BelowSubtree(q, a, p);
      }
    }
  }

  /** `scandir($dir)` without '.' and '..': the names of the direct children of `dir`. */
  function Children(fs: Fs, dir: string): set<string> {
    set q | q in fs && StartsWith(q, dir + "/") && '/' !in q[|dir| + 1..] :: q[|dir| + 1..]
  }

  /** What is left of `fs` once the subtrees of the children named in `done` are gone. */
  ghost function WithoutChildren(fs: Fs, dir: string, done: set<string>): Fs {
    map q | q in fs && !(exists c :: c in done && InSubtree(q, dir + "/" + c)) :: fs[q]
  }

  lemma SubtreeOfChild(q: string, dir: string, c: string)
    requires InSubtree(q, dir + "/" + c)
    ensures StartsWith(q, dir + "/")
  {
    var cp := dir + "/" + c;
    assert cp[..|dir + "/"|] == dir + "/";
    if q != cp {
      assert q[..|dir + "/"|] == cp[..|dir + "/"|];
    }
  }

  /** In a tree, every path strictly below `dir` lies below one of its children. */
  lemma CoveredByChild(fs: Fs, dir: string, q: string)
    requires WellFormed(fs) && q in fs && StartsWith(q, dir + "/")
    ensures exists c :: c in Children(fs, dir) && InSubtree(q, dir + "/" + c)
  {
    var rest := q[|dir| + 1..];
    assert q == dir + "/" + rest;
    match FirstIndexOf(rest, '/')
    case None =>
      assert rest in Children(fs, dir);
    case Some(j) =>
      var c := rest[..j];
      var cp := dir + "/" + c;
      assert cp == q[..|dir| + 1 + j];
      assert q[|dir| + 1 + j] == '/';
      assert cp in Ancestors(q);
      assert IsDir(fs, cp);
      assert cp[|dir| + 1..] == c;
      assert '/' !in c;
      assert StartsWith(cp, dir + "/");
      assert c in Children(fs, dir);
      assert q[..|cp + "/"|] == cp + "/";
  }

  lemma WithoutOneMoreChild(fs: Fs, cur: Fs, dir: string, done: set<string>, f: string)
    requires cur == WithoutChildren(fs, dir, done)
    ensures WithoutChildren(fs, dir, done + {f}) == RemoveSubtree(cur, dir + "/" + f)
  {
  }

  /** Once every child's subtree is gone, nothing lies below `dir`, and removing `dir` removes its subtree. */
  lemma AllChildrenRemoved(fs: Fs, dir: string)
    requires WellFormed(fs)
    ensures var e := WithoutChildren(fs, dir, Children(fs, dir));
            && (forall q :: q in e ==> !StartsWith(q, dir + "/"))
            && e - {dir} == RemoveSubtree(fs, dir)
  {
    var done := Children(fs, dir);
    var e := WithoutChildren(fs, dir, done);
    forall q | q in e ensures !StartsWith(q, dir + "/") {
      if StartsWith(q, dir + "/") {
        CoveredByChild(fs, dir, q);
      }
    }
    forall q | q in fs && InSubtree(q, dir) && q != dir ensures q !in e {
      CoveredByChild(fs, dir, q);
    }
    forall q | q in fs && !InSubtree(q, dir) ensures q in e {
      forall c | c in done ensures !InSubtree(q, dir + "/" + c) {
        if InSubtree(q, dir + "/" + c) {
          SubtreeOfChild(q, dir, c);
        }
      }
    }
  }

  /** The filesystem as a mutable object: the PHP calls change it in place. */
  class Disk {
    var nodes: Fs

    ghost predicate Valid()
      reads this
    {
      WellFormed(nodes)
    }

    constructor (initial: Fs)
      requires WellFormed(initial)
      ensures Valid() && nodes == initial
    {
      nodes := initial;
    }

    /** `mkdir($p, 0777, true)`. */
    method MakeDirectory(p: string) returns (ok: bool)
      requires Valid()
      modifies this
      ensures Valid()
      ensures ok == MkdirAll(old(nodes), p).Some?
      ensures nodes == MkdirAll(old(nodes), p).GetOr(old(nodes))
    {
      var r := MkdirAll(nodes, p);
      if r.Some? {
        MkdirAllWellFormed(nodes, p);
        nodes := r.value;
      }
      ok := r.Some?;
    }

    /** `file_put_contents($p, $content) !== false`. */
    method PutContents(p: string, content: string) returns (ok: bool)
      requires Valid()
      modifies this
      ensures Valid()
      ensures ok == WriteFile(old(nodes), p, content).Some?
      ensures nodes == WriteFile(old(nodes), p, content).GetOr(old(nodes))
    {
      var r := WriteFile(nodes, p, content);
      if r.Some? {
        WriteFileWellFormed(nodes, p, content);
        nodes := r.value;
      }
      ok := r.Some?;
    }

    /** `unlink($p)`: removes a regular file, leaves anything else alone. */
    method Unlink(p: string)
      requires Valid()
      modifies this
      ensures Valid()
      ensures nodes == if p in old(nodes) && old(nodes)[p].File? then old(nodes) - {p} else old(nodes)
    {
      if p in nodes && nodes[p].File? {
        forall q, a | q in nodes - {p} && a in Ancestors(q) ensures IsDir(nodes - {p}, a) {
          assert IsDir(nodes, a);
        }
        nodes := nodes - {p};
      }
    }

    /** `rmdir($p)`: removes a directory only when nothing lies below it. */
    method Rmdir(p: string)
      requires Valid()
      modifies this
      ensures Valid()
      ensures old(IsDir(nodes, p)) && (forall q :: q in old(nodes) ==> !StartsWith(q, p + "/"))
              ==> nodes == old(nodes) - {p}
      ensures !(old(IsDir(nodes, p)) && (forall q :: q in old(nodes) ==> !StartsWith(q, p + "/")))
              ==> nodes == old(nodes)
    {
      if IsDir(nodes, p) && forall q :: q in nodes ==> !StartsWith(q, p + "/") {
        assert nodes - {p} == RemoveSubtree(nodes, p);
        RemoveSubtreeWellFormed(nodes, p);
        nodes := nodes - {p};
      }
    }

    /**
      `removeDirectory($dir)`: unless `dir` is not a directory, deletes each
      child (recursing into subdirectories), then `dir` itself, so that
      exactly the subtree rooted at `dir` disappears.
     */
    method RemoveDirectory(dir: string)
      requires Valid()
      modifies this
      ensures Valid()
      ensures nodes == if IsDir(old(nodes), dir) then RemoveSubtree(old(nodes), dir) else old(nodes)
      decreases SubtreeKeys(nodes, dir)
    {
      if !IsDir(nodes, dir) {
        return;
      }
      var files := Children(nodes, dir);
      ghost var start := nodes;
      ghost var done: set<string> := {};
      while files != {}
        invariant Valid()
        invariant files + done == Children(start, dir) && files !! done
        invariant nodes == WithoutChildren(start, dir, done)
        invariant IsDir(nodes, dir)
        decreases files
      {
        var f :| f in files;
        var path := dir + "/" + f;
        ghost var before := nodes;
        WithoutOneMoreChild(start, before, dir, done, f);
        if IsDir(nodes, path) {
          forall q | q in SubtreeKeys(nodes, path) ensures q in SubtreeKeys(nodes, dir) {
            SubtreeOfChild(q, dir, f);
          }
          assert dir in SubtreeKeys(nodes, dir);
          assert dir !in SubtreeKeys(nodes, path);
          RemoveDirectory(path);
        } else {
          forall q | q in before && StartsWith(q, path + "/") ensures false {
            StrictlyBelowHasAncestor(q, path);
          }
          assert before - {path} == RemoveSubtree(before, path);
          Unlink(path);
        }
        assert !InSubtree(dir, path);
        files := files - {f};
        done := done + {f};
      }
      AllChildrenRemoved(start, dir);
      Rmdir(dir);
    }
  }
}
