/**
  The module's `api.delete.post` listener: once a learning-object media is
  deleted, its extraction directory under `basePath/original/` is removed.
  `basePath` is the local path of the `zips` store, the same one the
  package manager extracts under.
 */
module LearningObjectModule {
  import opened Wrappers
  import opened Paths
  import opened Archive
  import opened Xml
  import opened FileSystem
  import E = ScormExtractor
  import I = LearningObjectIngester

  /** The directory a media's data points at, when it is a learning object with a stored path. */
  function ExtractionDirOf(basePath: string, d: I.MediaData): (r: Option<string>)
    ensures r.Some? <==> d.learningObject == Some(true) && d.loData.Some? && d.loData.value.extractionPath.Some?
  {
    if d.learningObject != Some(true) then None
    else if d.loData.None? || d.loData.value.extractionPath.None? then None
    else Some(E.NominalPath(basePath, d.loData.value.extractionPath.value))
  }

  /** `handleMediaDeletion`: the filesystem after the listener ran. */
  function AfterDeletion(fs: Fs, basePath: string, d: I.MediaData): Fs {
    match ExtractionDirOf(basePath, d)
    case None => fs
    case Some(p) => if IsDir(fs, p) then RemoveSubtree(fs, p) else fs
  }

  // ---- properties ----

  /** Media that is not a learning object, or has no stored path, leaves the disk alone. */
  lemma NotLearningObjectUntouched(fs: Fs, basePath: string, d: I.MediaData)
    requires d.learningObject != Some(true) || d.loData.None? || d.loData.value.extractionPath.None?
    ensures AfterDeletion(fs, basePath, d) == fs
  {
  }

  /**
    Exactly the stored directory's subtree goes; every path outside it is
    kept with its contents, and nothing happens when the path is not a
    directory.
   */
  lemma DeletionRemovesExactlyTheSubtree(fs: Fs, basePath: string, d: I.MediaData)
    requires ExtractionDirOf(basePath, d).Some?
    ensures var p := ExtractionDirOf(basePath, d).value;
            var fs' := AfterDeletion(fs, basePath, d);
            && (IsDir(fs, p) ==> forall q :: InSubtree(q, p) ==> q !in fs')
            && (forall q :: q in fs && (!InSubtree(q, p) || !IsDir(fs, p)) ==> q in fs' && fs'[q] == fs[q])
            && (forall q :: q in fs' ==> q in fs)
  {
  }

  /**
    A disambiguated sibling `scorm_x_<k>` and everything under it survive
    the deletion of `scorm_x`.
   */
  lemma SiblingSurvives(fs: Fs, basePath: string, d: I.MediaData, k: nat)
    requires ExtractionDirOf(basePath, d).Some?
    ensures var p := ExtractionDirOf(basePath, d).value;
            var fs' := AfterDeletion(fs, basePath, d);
            forall q :: q in fs && InSubtree(q, E.Suffixed(p, k)) ==> q in fs' && fs'[q] == fs[q]
  {
    var p := ExtractionDirOf(basePath, d).value;
    var s := E.Suffixed(p, k);
    forall q | q in fs && InSubtree(q, s) ensures !InSubtree(q, p) {
      assert s[|p|] == '_';
      assert q[|p|] == '_';
    }
  }

  /** The listener keeps the filesystem a tree. */
  lemma DeletionWellFormed(fs: Fs, basePath: string, d: I.MediaData)
    requires WellFormed(fs)
    ensures WellFormed(AfterDeletion(fs, basePath, d))
  {
    var r := ExtractionDirOf(basePath, d);
    if r.Some? {
      RemoveSubtreeWellFormed(fs, r.value);
    }
  }

  /**
    Ingest, then delete: when the nominal directory was free and is its own
    canonical form, deleting the media gives back the original filesystem,
    up to new ancestor directories of the extraction directory.
   */
  lemma IngestThenDeleteRestores(fs: Fs, basePath: string, req: I.Request, uid: string,
                                 parse: string -> Option<Element>, canon: string -> Option<string>)
    requires WellFormed(fs)
    requires E.NominalPath(basePath, I.DirName(uid)) !in fs
    requires canon(E.NominalPath(basePath, I.DirName(uid))) == Some(E.NominalPath(basePath, I.DirName(uid)))
    requires I.IngestOutcome(fs, basePath, req, uid, parse, canon).data.Some?
    ensures var r := I.IngestOutcome(fs, basePath, req, uid, parse, canon);
            var p := E.NominalPath(basePath, I.DirName(uid));
            var fs' := AfterDeletion(r.fs, basePath, r.data.value);
            && (forall q :: InSubtree(q, p) ==> q !in fs')
            && E.OnlyAncestorsAdded(fs, fs', p)
  {
    var r := I.IngestOutcome(fs, basePath, req, uid, parse, canon);
    var p := E.NominalPath(basePath, I.DirName(uid));
    I.OnlyExtractionChangesDisk(fs, basePath, req, uid, parse, canon);
    I.SuccessRecorded(fs, basePath, req, uid, parse, canon);
    var t := I.UploadOf(req).value.uploaded.value;
    var x := E.ExtractScormPackage(fs, basePath, I.DirName(uid), t, canon);
    assert E.ChosenPath(fs, basePath, I.DirName(uid)) == p;
    assert x.fs == E.ExtractAll(E.CreateDirectory(fs, p).value, p, t.zip.entries, canon).fs;
    E.RemovingExtractionRestores(fs, p, t.zip.entries, canon);
    assert ExtractionDirOf(basePath, r.data.value) == Some(p);
  }

  /** The Module as an event listener over the disk. */
  class Module {
    /** `$store->getLocalPath('zips')`. */
    const basePath: string

    constructor (basePath: string)
      ensures this.basePath == basePath
    {
      this.basePath := basePath;
    }

    /** `handleMediaDeletion`, given the deleted media's data. */
    method HandleMediaDeletion(mediaData: I.MediaData, disk: Disk)
      requires disk.Valid()
      modifies disk
      ensures disk.Valid()
      ensures disk.nodes == AfterDeletion(old(disk.nodes), basePath, mediaData)
    {
      if mediaData.learningObject != Some(true) {
        return;
      }
      if mediaData.loData.None? || mediaData.loData.value.extractionPath.None? {
        return;
      }
      var extractionPath := mediaData.loData.value.extractionPath.value;
      var fullExtractionPath := basePath + "/original/" + extractionPath;
      if IsDir(disk.nodes, fullExtractionPath) {
        RemoveDirectory(fullExtractionPath, disk);
      }
    }

    /** `removeDirectory`: the recursive walk of Disk. */
    method RemoveDirectory(dir: string, disk: Disk)
      requires disk.Valid()
      modifies disk
      ensures disk.Valid()
      ensures disk.nodes == if IsDir(old(disk.nodes), dir) then RemoveSubtree(old(disk.nodes), dir) else old(disk.nodes)
    {
      disk.RemoveDirectory(dir);
    }
  }
}
