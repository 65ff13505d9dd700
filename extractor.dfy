/**
  The secure extractor of ScormPackageManager as functions over the
  filesystem map: the per-entry step of `secureExtraction`, the whole
  loop, the choice of a fresh directory (`generateUniqueDirectory`),
  `createDirectory`, `cleanupDirectory` and `extractScormPackage`.
  `realpath` is the given function `canon`.
 */
module ScormExtractor {
  import opened Wrappers
  import opened Paths
  import opened Archive
  import opened Errors
  import opened FileSystem

  const MsgSourceMissing := "Source zip file does not exist."
  const MsgOpenForExtraction := "Could not open zip file for extraction. Error code: "
  const MsgInvalidPath := "Invalid extraction path"
  const MsgTraversal := "Security violation: attempted directory traversal in zip file."
  const MsgUnresolved := "Could not resolve target directory path"
  const MsgOutside := "Security violation: attempted to extract outside target directory."

  /** Directory markers and hidden files are never materialised. */
  predicate Skipped(name: string) {
    EndsWith(name, "/") || StartsWith(BaseName(name), ".")
  }

  /** Where an entry is written: `$extractPath . DIRECTORY_SEPARATOR . $filename`. */
  function Target(root: string, name: string): string {
    root + "/" + name
  }

  /**
    An entry whose file the extractor writes: no `..`, not skipped, its
    canonical parent directory prefixed by the canonical root, and readable.
   */
  predicate Admitted(root: string, e: Entry, canon: string -> Option<string>) {
    && !Contains(e.name, "..")
    && !Skipped(e.name)
    && canon(Dirname(Target(root, e.name))).Some?
    && StartsWith(canon(Dirname(Target(root, e.name))).value, root)
    && e.content.Some?
  }

  /** The filesystem after one entry, and whether the loop goes on. */
  datatype Step = Next(fs: Fs) | Stop(fs: Fs, message: string)

  /** One iteration of the `secureExtraction` loop body. */
  function ExtractEntry(fs: Fs, root: string, e: Entry, canon: string -> Option<string>): Step {
    if Contains(e.name, "..") then Stop(fs, MsgTraversal)
    else if Skipped(e.name) then Next(fs)
    else PlaceFile(fs, root, e, canon)
  }

  /** A non-skipped entry: make its parent directory, then check and write. */
  function PlaceFile(fs: Fs, root: string, e: Entry, canon: string -> Option<string>): Step {
    var dir := Dirname(Target(root, e.name));
    var made := if DirPresent(fs, dir) then Some(fs) else MkdirAll(fs, dir);
    if made.None? then Stop(fs, "Could not create directory: " + dir)
    else CheckAndWrite(made.value, root, e, canon)
  }

  /** With the parent directory in place: containment re-check, read, write. */
  function CheckAndWrite(fs: Fs, root: string, e: Entry, canon: string -> Option<string>): Step {
    var target := Target(root, e.name);
    match canon(Dirname(target))
    case None => Stop(fs, MsgUnresolved)
    case Some(resolved) =>
      if !StartsWith(resolved, root) then Stop(fs, MsgOutside)
      else match e.content
        case None => Stop(fs, "Could not read file from zip: " + e.name)
        case Some(c) =>
          match WriteFile(fs, target, c)
          case None => Stop(fs, "Could not write extracted file: " + target)
          case Some(fs2) => Next(fs2)
  }

  /** The result of the loop: the filesystem it leaves and the error it stopped with, if any. */
  datatype Outcome = Outcome(fs: Fs, error: Option<string>)

  /** The `for` loop of `secureExtraction` over the remaining entries. */
  function ExtractAll(fs: Fs, root: string, es: seq<Entry>, canon: string -> Option<string>): Outcome
    decreases |es|
  {
    if es == [] then Outcome(fs, None)
    else match ExtractEntry(fs, root, es[0], canon)
      case Stop(fs1, m) => Outcome(fs1, Some(m))
      case Next(fs1) => ExtractAll(fs1, root, es[1..], canon)
  }

  /** `secureExtraction`: canonicalise the target, then run the loop under that root. */
  function SecureExtraction(fs: Fs, extractPath: string, es: seq<Entry>, canon: string -> Option<string>): Outcome {
    match canon(extractPath)
    case None => Outcome(fs, Some(MsgInvalidPath))
    case Some(root) => ExtractAll(fs, root, es, canon)
  }

  /** The second half of the traversal test, `strpos($filename, '/..')`, adds nothing to the first. */
  lemma SlashDotDotHasDotDot(name: string)
    ensures Contains(name, "/..") ==> Contains(name, "..")
  {
    if Contains(name, "/..") {
      assert "/.."[1..3] == "..";
      ContainsThrough(name, "/..", "..", 1);
    }
  }

  // ---- properties of one step ----

  /**
    How the extractor may change the map: nothing is deleted, directories
    stay directories, and outside the root the only change is a new
    ancestor directory of the root.
   */
  ghost predicate ConfinedChange(fs: Fs, fs': Fs, root: string) {
    && (forall q :: q in fs ==> q in fs')
    && (forall q :: IsDir(fs, q) ==> IsDir(fs', q))
    && (forall q :: q in fs' && !InSubtree(q, root) ==>
          (q in fs && fs'[q] == fs[q]) || (q in Ancestors(root) && fs'[q] == Dir))
  }

  lemma ConfinedTrans(fs: Fs, fs': Fs, fs'': Fs, root: string)
    requires ConfinedChange(fs, fs', root) && ConfinedChange(fs', fs'', root)
    ensures ConfinedChange(fs, fs'', root)
  {
  }

  /** The directory made for an entry, and each directory above it, lies in the root's subtree or above the root. */
  lemma DirnameOfTarget(root: string, name: string)
    ensures var d := Dirname(Target(root, name));
            d == "/" || d == "." ||
            forall a :: a in MkdirTargets(d) ==> InSubtree(a, root) || a in Ancestors(root)
  {
    var t := Target(root, name);
    var d := Dirname(t);
    DirnameIsAncestor(t);
    if d != "/" && d != "." {
      assert d in Ancestors(t);
      var j :| 0 < j < |t| && t[j] == '/' && d == t[..j];
      if j < |root| {
        assert root[j] == '/' && d == root[..j];
        assert d in Ancestors(root);
        AncestorsOfAncestor(d, root);
      } else if j == |root| {
        assert d == root;
      } else {
        var rel := name[..j - |root| - 1];
        assert d == root + "/" + rel;
        forall a | a in MkdirTargets(d) ensures InSubtree(a, root) || a in Ancestors(root) {
          AncestorsBelowRoot(root, rel, a);
        }
      }
    }
  }

  lemma TargetInRoot(root: string, name: string)
    ensures InSubtree(Target(root, name), root)
  {
    assert Target(root, name)[..|root + "/"|] == root + "/";
  }

  lemma CheckAndWriteConfined(fs: Fs, root: string, e: Entry, canon: string -> Option<string>)
    ensures ConfinedChange(fs, CheckAndWrite(fs, root, e, canon).fs, root)
  {
    TargetInRoot(root, e.name);
  }

  lemma StepConfined(fs: Fs, root: string, e: Entry, canon: string -> Option<string>)
    ensures ConfinedChange(fs, ExtractEntry(fs, root, e, canon).fs, root)
  {
    if !Contains(e.name, "..") && !Skipped(e.name) {
      var dir := Dirname(Target(root, e.name));
      if !DirPresent(fs, dir) && MkdirAll(fs, dir).Some? {
        DirnameOfTarget(root, e.name);
        var fs1 := MkdirAll(fs, dir).value;
        assert ConfinedChange(fs, fs1, root);
        CheckAndWriteConfined(fs1, root, e, canon);
        ConfinedTrans(fs, fs1, CheckAndWrite(fs1, root, e, canon).fs, root);
      } else if DirPresent(fs, dir) {
        CheckAndWriteConfined(fs, root, e, canon);
      }
    }
  }

  /** Every regular file a step creates or replaces is the target of an admitted entry, with its bytes. */
  ghost predicate FilesFrom(fs: Fs, fs': Fs, root: string, es: seq<Entry>, canon: string -> Option<string>) {
    forall p :: p in fs' && fs'[p].File? && !(p in fs && fs[p] == fs'[p]) ==>
      exists i :: 0 <= i < |es| && Admitted(root, es[i], canon)
                  && p == Target(root, es[i].name) && fs'[p] == File(es[i].content.value)
  }

  /** What a single step writes: at most its own target, and only when the entry is admitted. */
  ghost predicate StepWrites(fs: Fs, fs': Fs, root: string, e: Entry, canon: string -> Option<string>) {
    forall p :: p in fs' && fs'[p].File? && !(p in fs && fs[p] == fs'[p]) ==>
      Admitted(root, e, canon) && p == Target(root, e.name) && fs'[p] == File(e.content.value)
  }

  lemma StepFiles(fs: Fs, root: string, e: Entry, canon: string -> Option<string>)
    ensures StepWrites(fs, ExtractEntry(fs, root, e, canon).fs, root, e, canon)
  {
    if !Contains(e.name, "..") && !Skipped(e.name) {
      var dir := Dirname(Target(root, e.name));
      var made := if DirPresent(fs, dir) then Some(fs) else MkdirAll(fs, dir);
      if made.Some? {
        var fs1 := made.value;
        assert forall p :: p in fs1 && fs1[p].File? ==> p in fs && fs[p] == fs1[p];
        assert ExtractEntry(fs, root, e, canon) == CheckAndWrite(fs1, root, e, canon);
        CheckAndWriteFiles(fs1, root, e, canon);
      }
    }
  }

  /** A check-and-write changes only its target, and only to the entry's bytes after the containment check. */
  lemma CheckAndWriteFiles(fs: Fs, root: string, e: Entry, canon: string -> Option<string>)
    ensures var out := CheckAndWrite(fs, root, e, canon).fs;
            forall p :: p in out && !(p in fs && fs[p] == out[p]) ==>
              && p == Target(root, e.name) && e.content.Some? && out[p] == File(e.content.value)
              && canon(Dirname(Target(root, e.name))).Some?
              && StartsWith(canon(Dirname(Target(root, e.name))).value, root)
  {
    if CheckAndWrite(fs, root, e, canon).Next? {
      CheckAndWriteNext(fs, root, e, canon);
    }
  }

  /** A step that goes on past a non-skipped entry has written that entry's bytes to its target. */
  lemma StepNextWrote(fs: Fs, root: string, e: Entry, canon: string -> Option<string>)
    requires !Skipped(e.name) && ExtractEntry(fs, root, e, canon).Next?
    ensures Admitted(root, e, canon)
    ensures var fs' := ExtractEntry(fs, root, e, canon).fs;
            Target(root, e.name) in fs' && fs'[Target(root, e.name)] == File(e.content.value)
  {
    var dir := Dirname(Target(root, e.name));
    var made := if DirPresent(fs, dir) then Some(fs) else MkdirAll(fs, dir);
    assert made.Some? && ExtractEntry(fs, root, e, canon) == CheckAndWrite(made.value, root, e, canon);
    CheckAndWriteNext(made.value, root, e, canon);
  }

  /** A check-and-write that goes on has admitted the entry and written its bytes. */
  lemma CheckAndWriteNext(fs: Fs, root: string, e: Entry, canon: string -> Option<string>)
    requires CheckAndWrite(fs, root, e, canon).Next?
    ensures && canon(Dirname(Target(root, e.name))).Some?
            && StartsWith(canon(Dirname(Target(root, e.name))).value, root)
            && e.content.Some?
    ensures WriteFile(fs, Target(root, e.name), e.content.value) == Some(CheckAndWrite(fs, root, e, canon).fs)
  {
  }

  /** A check-and-write changes no path other than its target. */
  lemma CheckAndWriteKeeps(fs: Fs, root: string, e: Entry, canon: string -> Option<string>, p: string)
    requires p in fs && p != Target(root, e.name)
    ensures p in CheckAndWrite(fs, root, e, canon).fs && CheckAndWrite(fs, root, e, canon).fs[p] == fs[p]
  {
    var target := Target(root, e.name);
    if canon(Dirname(target)).Some? && StartsWith(canon(Dirname(target)).value, root) && e.content.Some? {
      var w := WriteFile(fs, target, e.content.value);
      if w.Some? {
        assert w.value == fs[target := File(e.content.value)];
      }
    }
  }

  /** A step leaves a regular file alone unless the entry targets exactly that path. */
  lemma StepKeepsOtherFiles(fs: Fs, root: string, e: Entry, canon: string -> Option<string>, p: string)
    requires p in fs && fs[p].File? && p != Target(root, e.name)
    ensures var fs' := ExtractEntry(fs, root, e, canon).fs;
            p in fs' && fs'[p] == fs[p]
  {
    if !Contains(e.name, "..") && !Skipped(e.name) {
      var dir := Dirname(Target(root, e.name));
      var made := if DirPresent(fs, dir) then Some(fs) else MkdirAll(fs, dir);
      if made.Some? {
        assert p in made.value && made.value[p] == fs[p];
        CheckAndWriteKeeps(made.value, root, e, canon, p);
      }
    }
  }

  // ---- properties of the loop ----

  /** The loop deletes nothing, keeps directories, and outside the root only adds ancestor directories of it. */
  lemma {:induction false} ExtractAllConfined(fs: Fs, root: string, es: seq<Entry>, canon: string -> Option<string>)
    ensures ConfinedChange(fs, ExtractAll(fs, root, es, canon).fs, root)
    decreases |es|
  {
    if es != [] {
      StepConfined(fs, root, es[0], canon);
      match ExtractEntry(fs, root, es[0], canon)
      case Stop(_, _) =>
      case Next(fs1) =>
        ExtractAllConfined(fs1, root, es[1..], canon);
        ConfinedTrans(fs, fs1, ExtractAll(fs1, root, es[1..], canon).fs, root);
    }
  }

  /** Every regular file the loop creates or replaces comes, byte for byte, from an admitted entry. */
  lemma {:induction false} ExtractAllFiles(fs: Fs, root: string, es: seq<Entry>, canon: string -> Option<string>)
    ensures FilesFrom(fs, ExtractAll(fs, root, es, canon).fs, root, es, canon)
    decreases |es|
  {
    if es != [] {
      StepFiles(fs, root, es[0], canon);
      match ExtractEntry(fs, root, es[0], canon)
      case Stop(fs1, _) =>
        forall p | p in fs1 && fs1[p].File? && !(p in fs && fs[p] == fs1[p])
          ensures exists i :: 0 <= i < |es| && Admitted(root, es[i], canon)
                              && p == Target(root, es[i].name) && fs1[p] == File(es[i].content.value)
        {
          assert Admitted(root, es[0], canon);
        }
      case Next(fs1) =>
        ExtractAllFiles(fs1, root, es[1..], canon);
        var fs' := ExtractAll(fs1, root, es[1..], canon).fs;
        forall p | p in fs' && fs'[p].File? && !(p in fs && fs[p] == fs'[p])
          ensures exists i :: 0 <= i < |es| && Admitted(root, es[i], canon)
                              && p == Target(root, es[i].name) && fs'[p] == File(es[i].content.value)
        {
          if p in fs1 && fs1[p] == fs'[p] {
            assert Admitted(root, es[0], canon);
          } else {
            var j :| 0 <= j < |es[1..]| && Admitted(root, es[1..][j], canon)
                     && p == Target(root, es[1..][j].name) && fs'[p] == File(es[1..][j].content.value);
            assert es[1..][j] == es[j + 1];
          }
        }
    }
  }

  /** An entry whose name contains ".." anywhere makes the loop fail, whatever precedes it. */
  lemma {:induction false} TraversalAborts(fs: Fs, root: string, es: seq<Entry>, canon: string -> Option<string>, k: nat)
    requires k < |es| && Contains(es[k].name, "..")
    ensures ExtractAll(fs, root, es, canon).error.Some?
    ensures ExtractAll(fs, root, es, canon) == ExtractAll(fs, root, es[..k + 1], canon)
    decreases k
  {
    var step := ExtractEntry(fs, root, es[0], canon);
    if k == 0 {
      assert step.Stop?;
      assert es[..1][0] == es[0];
    } else {
      assert es[..k + 1][0] == es[0];
      if step.Next? {
        assert es[1..][k - 1] == es[k];
        TraversalAborts(step.fs, root, es[1..], canon, k - 1);
        PrefixAfterStep(fs, root, es, canon, k);
      }
    }
  }

  /** Running a prefix of length k+1 is running the first entry, then a prefix of length k of the rest. */
  lemma PrefixAfterStep(fs: Fs, root: string, es: seq<Entry>, canon: string -> Option<string>, k: nat)
    requires 0 < k < |es| && ExtractEntry(fs, root, es[0], canon).Next?
    ensures ExtractAll(fs, root, es[..k + 1], canon)
            == ExtractAll(ExtractEntry(fs, root, es[0], canon).fs, root, es[1..][..k], canon)
  {
    assert es[..k + 1][0] == es[0] && es[..k + 1][1..] == es[1..][..k];
  }

  /** Files that no remaining entry targets survive the loop unchanged. */
  lemma {:induction false} ExtractAllKeepsFiles(fs: Fs, root: string, es: seq<Entry>, canon: string -> Option<string>, p: string)
    requires p in fs && fs[p].File?
    requires forall i :: 0 <= i < |es| ==> p != Target(root, es[i].name)
    ensures var fs' := ExtractAll(fs, root, es, canon).fs; p in fs' && fs'[p] == fs[p]
    decreases |es|
  {
    if es != [] {
      StepKeepsOtherFiles(fs, root, es[0], canon, p);
      match ExtractEntry(fs, root, es[0], canon)
      case Stop(_, _) =>
      case Next(fs1) =>
        forall i | 0 <= i < |es[1..]| ensures p != Target(root, es[1..][i].name) {
          assert es[1..][i] == es[i + 1];
        }
        ExtractAllKeepsFiles(fs1, root, es[1..], canon, p);
    }
  }

  /** An entry is the last one in the archive with its name. */
  predicate LastWithName(es: seq<Entry>, i: int) {
    0 <= i < |es| && forall j :: i < j < |es| ==> es[j].name != es[i].name
  }

  lemma TargetInjective(root: string, a: string, b: string)
    requires Target(root, a) == Target(root, b)
    ensures a == b
  {
    assert a == Target(root, a)[|root| + 1..];
  }

  /** A loop that finishes without error saw no ".." and admitted every entry it did not skip. */
  lemma {:induction false} ExtractAllSuccessAdmits(fs: Fs, root: string, es: seq<Entry>, canon: string -> Option<string>)
    requires ExtractAll(fs, root, es, canon).error.None?
    ensures forall i :: 0 <= i < |es| ==> !Contains(es[i].name, "..")
    ensures forall i :: 0 <= i < |es| && !Skipped(es[i].name) ==> Admitted(root, es[i], canon)
    decreases |es|
  {
    if es != [] {
      var step := ExtractEntry(fs, root, es[0], canon);
      assert step.Next?;
      StepNextAdmits(fs, root, es[0], canon);
      ExtractAllSuccessAdmits(step.fs, root, es[1..], canon);
      forall i | 1 <= i < |es|
        ensures !Contains(es[i].name, "..") && (!Skipped(es[i].name) ==> Admitted(root, es[i], canon))
      {
        assert es[1..][i - 1] == es[i];
      }
    }
  }

  /**
    An entry with the empty name targets the root itself with a slash
    appended; `dirname` of that is the root's parent, which exists, so the
    step makes no directory and stops with the containment error.
   */
  lemma EmptyNameEscapes(fs: Fs, root: string, e: Entry, canon: string -> Option<string>)
    requires WellFormed(fs) && IsDir(fs, root)
    requires |root| > 1 && root[0] == '/' && root[|root| - 1] != '/'
    requires e.name == ""
    requires canon(Dirname(Target(root, ""))) == Some(Dirname(Target(root, "")))
    ensures ExtractEntry(fs, root, e, canon) == Stop(fs, MsgOutside)
  {
    assert Target(root, "") == root + "/";
    var d := Dirname(Target(root, ""));
    DirnameOfSlashed(root);
    assert !Contains(e.name, "..");
    assert BaseName(e.name) == "" && !Skipped(e.name);
    if d != "/" {
      AncestorIsDir(fs, root, d);
    }
    assert DirPresent(fs, d);
  }

  /** No loop that meets an entry with the empty name finishes without error. */
  lemma EmptyNameNeverExtracted(fs: Fs, root: string, es: seq<Entry>, canon: string -> Option<string>, k: nat)
    requires |root| > 1 && root[0] == '/' && root[|root| - 1] != '/'
    requires k < |es| && es[k].name == ""
    requires canon(Dirname(Target(root, ""))) == Some(Dirname(Target(root, "")))
    ensures ExtractAll(fs, root, es, canon).error.Some?
  {
    assert Target(root, "") == root + "/";
    DirnameOfSlashed(root);
    assert BaseName(es[k].name) == "" && !Skipped(es[k].name);
    assert !Admitted(root, es[k], canon);
    if ExtractAll(fs, root, es, canon).error.None? {
      ExtractAllSuccessAdmits(fs, root, es, canon);
    }
  }

  /** A step that goes on saw no ".." and, unless it skipped the entry, admitted it. */
  lemma StepNextAdmits(fs: Fs, root: string, e: Entry, canon: string -> Option<string>)
    requires ExtractEntry(fs, root, e, canon).Next?
    ensures !Contains(e.name, "..")
    ensures !Skipped(e.name) ==> Admitted(root, e, canon)
  {
    if !Skipped(e.name) {
      StepNextWrote(fs, root, e, canon);
    }
  }

  /** The entry's bytes sit in its target file. */
  predicate HoldsEntry(fs: Fs, root: string, e: Entry) {
    e.content.Some? && Target(root, e.name) in fs && fs[Target(root, e.name)] == File(e.content.value)
  }

  /** The first entry, when no later one has its name, is still in place after the rest of the loop. */
  lemma FirstEntrySurvives(fs: Fs, root: string, es: seq<Entry>, canon: string -> Option<string>)
    requires ExtractAll(fs, root, es, canon).error.None?
    requires LastWithName(es, 0) && !Skipped(es[0].name)
    ensures HoldsEntry(ExtractAll(fs, root, es, canon).fs, root, es[0])
  {
    StepNextWrote(fs, root, es[0], canon);
    var fs1 := ExtractEntry(fs, root, es[0], canon).fs;
    var t := Target(root, es[0].name);
    forall j | 0 <= j < |es[1..]| ensures t != Target(root, es[1..][j].name) {
      assert es[1..][j] == es[j + 1];
      if t == Target(root, es[1..][j].name) {
        TargetInjective(root, es[0].name, es[1..][j].name);
      }
    }
    ExtractAllKeepsFiles(fs1, root, es[1..], canon, t);
  }

  /** A loop that finishes without error leaves the last entry of each name in its target file. */
  lemma {:induction false} ExtractAllSuccessWrites(fs: Fs, root: string, es: seq<Entry>, canon: string -> Option<string>)
    requires ExtractAll(fs, root, es, canon).error.None?
    ensures forall i :: LastWithName(es, i) && !Skipped(es[i].name) ==>
              HoldsEntry(ExtractAll(fs, root, es, canon).fs, root, es[i])
    decreases |es|
  {
    if es != [] {
      var fs1 := ExtractEntry(fs, root, es[0], canon).fs;
      assert ExtractAll(fs, root, es, canon) == ExtractAll(fs1, root, es[1..], canon);
      ExtractAllSuccessWrites(fs1, root, es[1..], canon);
      forall i | LastWithName(es, i) && !Skipped(es[i].name)
        ensures HoldsEntry(ExtractAll(fs, root, es, canon).fs, root, es[i])
      {
        if i == 0 {
          FirstEntrySurvives(fs, root, es, canon);
        } else {
          assert es[1..][i - 1] == es[i];
          forall j | i - 1 < j < |es[1..]| ensures es[1..][j].name != es[1..][i - 1].name {
            assert es[1..][j] == es[j + 1];
          }
          assert LastWithName(es[1..], i - 1);
        }
      }
    }
  }

  /** What a successful loop guarantees about the entries and the files it leaves. */
  ghost predicate ExtractedAll(fs: Fs, root: string, es: seq<Entry>, canon: string -> Option<string>) {
    && (forall i :: 0 <= i < |es| ==> !Contains(es[i].name, ".."))
    && (forall i :: 0 <= i < |es| && !Skipped(es[i].name) ==> Admitted(root, es[i], canon))
    && (forall i :: LastWithName(es, i) && !Skipped(es[i].name) ==> HoldsEntry(fs, root, es[i]))
  }

  /** After a successful loop, the last entry of each name that is not skipped is in place. */
  lemma ExtractedHolds(fs: Fs, root: string, es: seq<Entry>, canon: string -> Option<string>, i: nat)
    requires ExtractedAll(fs, root, es, canon)
    requires LastWithName(es, i) && !Skipped(es[i].name)
    ensures HoldsEntry(fs, root, es[i])
  {
  }

  lemma ExtractAllSuccess(fs: Fs, root: string, es: seq<Entry>, canon: string -> Option<string>)
    requires ExtractAll(fs, root, es, canon).error.None?
    ensures ExtractedAll(ExtractAll(fs, root, es, canon).fs, root, es, canon)
  {
    ExtractAllSuccessAdmits(fs, root, es, canon);
    ExtractAllSuccessWrites(fs, root, es, canon);
  }

  /** No regular file lies below the root yet. */
  ghost predicate NoFileBelow(fs: Fs, root: string) {
    forall q :: q in fs && fs[q].File? ==> !StartsWith(q, root + "/")
  }

  /** A regular file with these bytes sits at the target of `name`. */
  ghost predicate FileAt(fs: Fs, root: string, name: string, c: string) {
    Target(root, name) in fs && fs[Target(root, name)] == File(c)
  }

  /** The archive provides these bytes under `name`: its last entry of that name, when not skipped. */
  ghost predicate Provides(es: seq<Entry>, name: string, c: string) {
    exists i :: LastWithName(es, i) && es[i].name == name && !Skipped(name) && es[i].content == Some(c)
  }

  /** Each entry has a last entry of its name at or after it. */
  lemma {:induction false} LastOccurrence(es: seq<Entry>, j: nat) returns (i: nat)
    requires j < |es|
    ensures j <= i && LastWithName(es, i) && es[i].name == es[j].name
    decreases |es| - j
  {
    if LastWithName(es, j) {
      i := j;
    } else {
      var k :| j < k < |es| && es[k].name == es[j].name;
      i := LastOccurrence(es, k);
    }
  }

  /**
    Into a root that holds no regular file yet, a loop that finishes
    without error leaves a file at the target of a name exactly when the
    archive provides that name, with exactly the bytes it provides.
   */
  lemma ExtractAllFileAt(fs: Fs, root: string, es: seq<Entry>, canon: string -> Option<string>,
                         name: string, c: string)
    requires ExtractAll(fs, root, es, canon).error.None?
    requires NoFileBelow(fs, root)
    ensures FileAt(ExtractAll(fs, root, es, canon).fs, root, name, c) <==> Provides(es, name, c)
  {
    var out := ExtractAll(fs, root, es, canon).fs;
    var t := Target(root, name);
    ExtractAllSuccessWrites(fs, root, es, canon);
    if FileAt(out, root, name, c) {
      assert StartsWith(t, root + "/") by {
        assert t[..|root + "/"|] == root + "/";
      }
      ExtractAllFiles(fs, root, es, canon);
      var j :| 0 <= j < |es| && Admitted(root, es[j], canon)
               && t == Target(root, es[j].name) && out[t] == File(es[j].content.value);
      TargetInjective(root, name, es[j].name);
      var i := LastOccurrence(es, j);
      assert HoldsEntry(out, root, es[i]);
      assert Provides(es, name, c);
    }
  }

  /**
    Extracting the same archive twice, into two roots that hold no regular
    file yet, gives the two roots the same files with the same bytes.
   */
  lemma ExtractAllDeterministic(fs1: Fs, root1: string, fs2: Fs, root2: string, es: seq<Entry>,
                                canon: string -> Option<string>)
    requires ExtractAll(fs1, root1, es, canon).error.None?
    requires ExtractAll(fs2, root2, es, canon).error.None?
    requires NoFileBelow(fs1, root1) && NoFileBelow(fs2, root2)
    ensures forall name, c :: FileAt(ExtractAll(fs1, root1, es, canon).fs, root1, name, c)
                              <==> FileAt(ExtractAll(fs2, root2, es, canon).fs, root2, name, c)
  {
    forall name, c
      ensures FileAt(ExtractAll(fs1, root1, es, canon).fs, root1, name, c)
              <==> FileAt(ExtractAll(fs2, root2, es, canon).fs, root2, name, c)
    {
      ExtractAllFileAt(fs1, root1, es, canon, name, c);
      ExtractAllFileAt(fs2, root2, es, canon, name, c);
    }
  }

  // ---- choosing the extraction directory ----

  /** The k-th disambiguated name: the suffix is appended to the original name, never accumulated. */
  function Suffixed(base: string, k: nat): string {
    base + "_" + NatToString(k)
  }

  lemma SuffixedInjective(base: string, a: nat, b: nat)
    requires Suffixed(base, a) == Suffixed(base, b)
    ensures a == b
  {
    assert NatToString(a) == Suffixed(base, a)[|base| + 1..];
    NatToStringInjective(a, b);
  }

  ghost function Probed(base: string, k: nat): set<string> {
    set j | 1 <= j < k :: Suffixed(base, j)
  }

  /** The first of base_k, base_{k+1}, ... that is not in the filesystem. */
  function UniqueFrom(fs: Fs, base: string, k: nat): string
    requires k >= 1
    decreases fs.Keys - Probed(base, k)
  {
    if Suffixed(base, k) in fs then
      assert Suffixed(base, k) !in Probed(base, k) by {
        forall j | 1 <= j < k ensures Suffixed(base, j) != Suffixed(base, k) {
          if Suffixed(base, j) == Suffixed(base, k) { SuffixedInjective(base, j, k); }
        }
      }
      assert Probed(base, k + 1) == Probed(base, k) + {Suffixed(base, k)};
      UniqueFrom(fs, base, k + 1)
    else Suffixed(base, k)
  }

  /** The path `extractScormPackage` settles on, after `generateUniqueDirectory` when the first choice exists. */
  function UniquePath(fs: Fs, base: string): string {
    if base in fs then UniqueFrom(fs, base, 1) else base
  }

  lemma {:induction false} UniqueFromLeast(fs: Fs, base: string, k: nat)
    requires k >= 1
    requires forall j :: 1 <= j < k ==> Suffixed(base, j) in fs
    ensures UniqueFrom(fs, base, k) !in fs
    ensures exists n :: n >= k && UniqueFrom(fs, base, k) == Suffixed(base, n)
                        && forall j :: 1 <= j < n ==> Suffixed(base, j) in fs
    decreases fs.Keys - Probed(base, k)
  {
    if Suffixed(base, k) in fs {
      assert Suffixed(base, k) !in Probed(base, k) by {
        forall j | 1 <= j < k ensures Suffixed(base, j) != Suffixed(base, k) {
          if Suffixed(base, j) == Suffixed(base, k) { SuffixedInjective(base, j, k); }
        }
      }
      assert Probed(base, k + 1) == Probed(base, k) + {Suffixed(base, k)};
      UniqueFromLeast(fs, base, k + 1);
    } else {
      assert UniqueFrom(fs, base, k) == Suffixed(base, k);
    }
  }

  /**
    The chosen path never existed: it is the nominal path when that is
    free, and otherwise `base_k` for the smallest k >= 1 that is free.
   */
  lemma UniquePathFresh(fs: Fs, base: string)
    ensures UniquePath(fs, base) !in fs
    ensures base !in fs ==> UniquePath(fs, base) == base
    ensures base in fs ==> exists k :: k >= 1 && UniquePath(fs, base) == Suffixed(base, k)
                                     && forall j :: 1 <= j < k ==> Suffixed(base, j) in fs
  {
    if base in fs {
      UniqueFromLeast(fs, base, 1);
    }
  }

  // ---- extractScormPackage ----

  /** `createDirectory`: an existing directory is reused, otherwise it is created recursively. */
  function CreateDirectory(fs: Fs, p: string): Option<Fs> {
    if IsDir(fs, p) then Some(fs) else MkdirAll(fs, p)
  }

  /** `cleanupDirectory`: remove the tree when it is a directory. */
  function CleanupDirectory(fs: Fs, p: string): (r: Fs)
    ensures forall q :: InSubtree(q, p) && IsDir(fs, p) ==> q !in r
  {
    if IsDir(fs, p) then RemoveSubtree(fs, p) else fs
  }

  /** What `extractScormPackage` returns, leaves on disk and reports. */
  datatype Extraction = Extraction(path: Option<string>, fs: Fs, errors: seq<Error>)

  /** The nominal extraction path `basePath/original/dir`. */
  function NominalPath(basePath: string, dirName: string): string {
    basePath + "/original/" + dirName
  }

  function ExtractScormPackage(fs: Fs, basePath: string, dirName: string, t: TempFile,
                               canon: string -> Option<string>): (r: Extraction)
    ensures r.path.Some? <==> r.errors == []
    ensures |r.errors| <= 1 && forall e :: e in r.errors ==> e.key == "scorm"
  {
    if !t.present then Extraction(None, fs, [Error("scorm", MsgSourceMissing)])
    else
      var p := UniquePath(fs, NominalPath(basePath, dirName));
      match CreateDirectory(fs, p)
      case None => Extraction(None, fs, [Error("scorm", "Could not create extraction directory: " + p)])
      case Some(fs1) =>
        if !t.zip.opens then Extraction(None, fs1, [Error("scorm", MsgOpenForExtraction + NatToString(t.zip.errorCode))])
        else
          var out := SecureExtraction(fs1, p, t.zip.entries, canon);
          match out.error
          case Some(m) => Extraction(None, CleanupDirectory(out.fs, p), [Error("scorm", m)])
          case None => Extraction(Some(p), out.fs, [])
  }

  /** The path `extractScormPackage` works in, when the upload exists. */
  function ChosenPath(fs: Fs, basePath: string, dirName: string): string {
    UniquePath(fs, NominalPath(basePath, dirName))
  }

  /** The path `extractScormPackage` works in does not exist beforehand. */
  lemma ChosenPathFresh(fs: Fs, basePath: string, dirName: string)
    ensures ChosenPath(fs, basePath, dirName) !in fs
  {
    UniquePathFresh(fs, NominalPath(basePath, dirName));
  }

  lemma NoKeyBelowFresh(fs: Fs, p: string)
    requires WellFormed(fs) && p !in fs && |p| > 0
    ensures forall q :: q in fs ==> !InSubtree(q, p)
  {
    forall q | q in fs && InSubtree(q, p) && q != p ensures false {
      StrictlyBelowHasAncestor(q, p);
      AncestorIsDir(fs, q, p);
    }
  }

  /** A successful extraction returns the freshly chosen path, now a directory. */
  lemma ExtractedPathFresh(fs: Fs, basePath: string, dirName: string, t: TempFile, canon: string -> Option<string>)
    requires ExtractScormPackage(fs, basePath, dirName, t, canon).path.Some?
    ensures var r := ExtractScormPackage(fs, basePath, dirName, t, canon);
            r.path.value == ChosenPath(fs, basePath, dirName) && r.path.value !in fs
            && IsDir(r.fs, r.path.value)
  {
    var p := ChosenPath(fs, basePath, dirName);
    UniquePathFresh(fs, NominalPath(basePath, dirName));
    var fs1 := CreateDirectory(fs, p).value;
    assert IsDir(fs1, p);
    ExtractAllConfined(fs1, canon(p).value, t.zip.entries, canon);
  }

  /** `fs'` is `fs` plus, at most, new directories on the way to `p`. */
  ghost predicate OnlyAncestorsAdded(fs: Fs, fs': Fs, p: string) {
    && (forall q :: q in fs ==> q in fs' && fs'[q] == fs[q])
    && (forall q :: q in fs' && q !in fs ==> q in Ancestors(p) && fs'[q] == Dir)
  }

  /**
    Creating a fresh directory, extracting into it under its own canonical
    name and then removing its subtree gives back the original filesystem,
    up to new ancestor directories of it.
   */
  lemma RemovingExtractionRestores(fs: Fs, p: string, es: seq<Entry>, canon: string -> Option<string>)
    requires WellFormed(fs) && p !in fs && |p| > 0 && CreateDirectory(fs, p).Some?
    ensures var out := ExtractAll(CreateDirectory(fs, p).value, p, es, canon).fs;
            && IsDir(out, p)
            && (forall q :: InSubtree(q, p) ==> q !in RemoveSubtree(out, p))
            && OnlyAncestorsAdded(fs, RemoveSubtree(out, p), p)
  {
    NoKeyBelowFresh(fs, p);
    var fs1 := CreateDirectory(fs, p).value;
    assert IsDir(fs1, p);
    var out := ExtractAll(fs1, p, es, canon).fs;
    ExtractAllConfined(fs1, p, es, canon);
    var fs' := RemoveSubtree(out, p);
    forall q | q in fs ensures q in fs' && fs'[q] == fs[q] {
      assert q in fs1 && fs1[q] == fs[q];
      assert !InSubtree(q, p);
    }
    forall q | q in fs' && q !in fs ensures q in Ancestors(p) && fs'[q] == Dir {
      if q in fs1 {
        assert q in MkdirTargets(p);
      } else {
        assert q in Ancestors(p) && out[q] == Dir;
      }
    }
  }

  /**
    All or nothing: when the archive opens and the chosen path is its own
    canonical form, a failed extraction leaves nothing at or below that
    path, and every other path is as before, except that missing ancestor
    directories of it may have been created.
   */
  lemma ExtractionFailureLeavesNoTrace(fs: Fs, basePath: string, dirName: string, t: TempFile,
                                       canon: string -> Option<string>)
    requires WellFormed(fs) && t.Opens()
    requires canon(ChosenPath(fs, basePath, dirName)) == Some(ChosenPath(fs, basePath, dirName))
    requires ExtractScormPackage(fs, basePath, dirName, t, canon).path.None?
    ensures var p := ChosenPath(fs, basePath, dirName);
            var fs' := ExtractScormPackage(fs, basePath, dirName, t, canon).fs;
            && (forall q :: InSubtree(q, p) ==> q !in fs')
            && OnlyAncestorsAdded(fs, fs', p)
  {
    var p := ChosenPath(fs, basePath, dirName);
    UniquePathFresh(fs, NominalPath(basePath, dirName));
    NoKeyBelowFresh(fs, p);
    if CreateDirectory(fs, p).Some? {
      RemovingExtractionRestores(fs, p, t.zip.entries, canon);
    }
  }

  /** A traversal attempt anywhere in the archive leaves no extraction directory behind. */
  lemma TraversalLeavesNoDirectory(fs: Fs, basePath: string, dirName: string, t: TempFile,
                                   canon: string -> Option<string>, k: nat)
    requires WellFormed(fs) && t.Opens()
    requires k < |t.zip.entries| && Contains(t.zip.entries[k].name, "..")
    requires canon(ChosenPath(fs, basePath, dirName)) == Some(ChosenPath(fs, basePath, dirName))
    ensures var r := ExtractScormPackage(fs, basePath, dirName, t, canon);
            r.path.None? && forall q :: InSubtree(q, ChosenPath(fs, basePath, dirName)) ==> q !in r.fs
  {
    var p := ChosenPath(fs, basePath, dirName);
    var made := CreateDirectory(fs, p);
    if made.Some? {
      TraversalAborts(made.value, p, t.zip.entries, canon, k);
    }
    ExtractionFailureLeavesNoTrace(fs, basePath, dirName, t, canon);
  }

  /** Creating the extraction directory adds directories only. */
  lemma CreateDirectoryAddsNoFile(fs: Fs, p: string, root: string)
    requires CreateDirectory(fs, p).Some? && NoFileBelow(fs, root)
    ensures NoFileBelow(CreateDirectory(fs, p).value, root)
  {
  }

  /** A successful extraction leaves what the loop leaves under the canonical root. */
  lemma ExtractionIsLoop(fs: Fs, basePath: string, dirName: string, t: TempFile,
                         canon: string -> Option<string>, root: string)
    requires ExtractScormPackage(fs, basePath, dirName, t, canon).path.Some?
    requires canon(ExtractScormPackage(fs, basePath, dirName, t, canon).path.value) == Some(root)
    ensures var p := ChosenPath(fs, basePath, dirName);
            && CreateDirectory(fs, p).Some?
            && ExtractAll(CreateDirectory(fs, p).value, root, t.zip.entries, canon).error.None?
            && ExtractScormPackage(fs, basePath, dirName, t, canon).fs
               == ExtractAll(CreateDirectory(fs, p).value, root, t.zip.entries, canon).fs
  {
    ExtractedPathFresh(fs, basePath, dirName, t, canon);
  }

  /**
    Extracting the same upload twice, each time into a fresh directory
    whose canonical form holds no regular file yet, gives the two
    directories the same files with the same bytes.
   */
  lemma ExtractionDeterministic(fsA: Fs, baseA: string, dirA: string, fsB: Fs, baseB: string, dirB: string,
                                t: TempFile, canon: string -> Option<string>, rootA: string, rootB: string)
    requires ExtractScormPackage(fsA, baseA, dirA, t, canon).path.Some?
    requires ExtractScormPackage(fsB, baseB, dirB, t, canon).path.Some?
    requires canon(ExtractScormPackage(fsA, baseA, dirA, t, canon).path.value) == Some(rootA)
    requires canon(ExtractScormPackage(fsB, baseB, dirB, t, canon).path.value) == Some(rootB)
    requires NoFileBelow(fsA, rootA) && NoFileBelow(fsB, rootB)
    ensures forall name, c :: FileAt(ExtractScormPackage(fsA, baseA, dirA, t, canon).fs, rootA, name, c)
                              <==> FileAt(ExtractScormPackage(fsB, baseB, dirB, t, canon).fs, rootB, name, c)
  {
    ExtractionIsLoop(fsA, baseA, dirA, t, canon, rootA);
    ExtractionIsLoop(fsB, baseB, dirB, t, canon, rootB);
    var pA := ChosenPath(fsA, baseA, dirA);
    var pB := ChosenPath(fsB, baseB, dirB);
    CreateDirectoryAddsNoFile(fsA, pA, rootA);
    CreateDirectoryAddsNoFile(fsB, pB, rootB);
    ExtractAllDeterministic(CreateDirectory(fsA, pA).value, rootA, CreateDirectory(fsB, pB).value, rootB,
                            t.zip.entries, canon);
  }

  /** As written: when the archive does not open, the directory just created stays behind. */
  lemma OpenFailureLeavesDirectory(fs: Fs, basePath: string, dirName: string, t: TempFile,
                                   canon: string -> Option<string>)
    requires t.present && !t.zip.opens
    requires CreateDirectory(fs, ChosenPath(fs, basePath, dirName)).Some?
    ensures var r := ExtractScormPackage(fs, basePath, dirName, t, canon);
            r.path.None? && IsDir(r.fs, ChosenPath(fs, basePath, dirName))
            && r.errors == [Error("scorm", MsgOpenForExtraction + NatToString(t.zip.errorCode))]
  {
  }

  /** A successful extraction holds every non-skipped entry's bytes (the last entry of each name wins). */
  lemma ExtractionSuccessContents(fs: Fs, basePath: string, dirName: string, t: TempFile,
                                  canon: string -> Option<string>)
    requires ExtractScormPackage(fs, basePath, dirName, t, canon).path.Some?
    ensures var r := ExtractScormPackage(fs, basePath, dirName, t, canon);
            ExtractedAll(r.fs, canon(r.path.value).value, t.zip.entries, canon)
  {
    var p := ChosenPath(fs, basePath, dirName);
    var fs1 := CreateDirectory(fs, p).value;
    var root := canon(p).value;
    assert ExtractScormPackage(fs, basePath, dirName, t, canon)
           == Extraction(Some(p), ExtractAll(fs1, root, t.zip.entries, canon).fs, []);
    ExtractAllSuccess(fs1, root, t.zip.entries, canon);
  }
}
