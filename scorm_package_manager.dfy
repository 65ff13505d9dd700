/**
  ScormPackageManager as an object: each public and protected method of
  the service, working in place on the Disk and the ErrorStore, and proved
  to leave exactly the state the functions of ScormClassifier,
  ScormExtractor and ScormManifest describe.
 */
module PackageManager {
  import opened Wrappers
  import opened Paths
  import opened Archive
  import opened Xml
  import opened Errors
  import opened FileSystem
  import C = ScormClassifier
  import E = ScormExtractor
  import M = ScormManifest

  class ScormPackageManager {
    /** `$store->getLocalPath('zips')`. */
    const basePath: string

    constructor (basePath: string)
      ensures this.basePath == basePath
    {
      this.basePath := basePath;
    }

    /** The counting loop of `isValidScormPackage`: entries whose base name is required or optional. */
    method CountScormFiles(entries: seq<Entry>) returns (foundRequired: nat, foundOptional: nat)
      ensures foundRequired == C.CountBaseNames(Names(entries), C.RequiredFiles)
      ensures foundOptional == C.CountBaseNames(Names(entries), C.OptionalFiles)
    {
      var names := Names(entries);
      foundRequired, foundOptional := 0, 0;
      for i := 0 to |entries|
        invariant foundRequired + C.CountBaseNames(names[i..], C.RequiredFiles) == C.CountBaseNames(names, C.RequiredFiles)
        invariant foundOptional + C.CountBaseNames(names[i..], C.OptionalFiles) == C.CountBaseNames(names, C.OptionalFiles)
      {
        assert names[i..][1..] == names[i + 1..];
        var basename := BaseName(entries[i].name);
        if basename in C.RequiredFiles {
          foundRequired := foundRequired + 1;
        }
        if basename in C.OptionalFiles {
          foundOptional := foundOptional + 1;
        }
      }
      assert names[|entries|..] == [];
    }

    /** The marker loop of `validateManifestContent`. */
    method CountIndicators(content: string) returns (foundIndicators: nat)
      ensures foundIndicators == C.CountMarkers(content, C.Indicators)
    {
      foundIndicators := 0;
      for i := 0 to |C.Indicators|
        invariant foundIndicators + C.CountMarkers(content, C.Indicators[i..]) == C.CountMarkers(content, C.Indicators)
      {
        assert C.Indicators[i..][1..] == C.Indicators[i + 1..];
        if ContainsIgnoreCase(content, C.Indicators[i]) {
          foundIndicators := foundIndicators + 1;
        }
      }
    }

    /** `validateManifestContent`. */
    method ValidateManifestContent(t: TempFile, errors: ErrorStore, parse: string -> Option<Element>) returns (ok: bool)
      modifies errors
      ensures ok == C.ValidateManifestContent(t, parse).ok
      ensures errors.errors == AddAll(old(errors.errors), C.ValidateManifestContent(t, parse).errors)
    {
      if !t.Opens() {
        errors.AddError("scorm", C.MsgOpenForValidation);
        return false;
      }
      var manifestContent := FromName(t.zip.entries, C.ManifestName);
      if manifestContent.None? {
        errors.AddError("scorm", C.MsgUnreadableManifest);
        return false;
      }
      var content := manifestContent.value;
      var foundIndicators := CountIndicators(content);
      if foundIndicators == 0 {
        var xml := parse(content);
        if xml.None? {
          errors.AddError("scorm", C.MsgInvalidXml);
          return false;
        }
        if Child(xml.value, "metadata").None? || Child(xml.value, "organizations").None?
           || Child(xml.value, "resources").None? {
          errors.AddError("scorm", C.MsgMissingElements);
          return false;
        }
      }
      return true;
    }

    /** `isValidScormPackage`. */
    method IsValidScormPackage(t: TempFile, errors: ErrorStore, parse: string -> Option<Element>) returns (ok: bool)
      modifies errors
      ensures ok == C.IsValidScormPackage(t, parse).ok
      ensures errors.errors == AddAll(old(errors.errors), C.IsValidScormPackage(t, parse).errors)
    {
      if !t.present {
        errors.AddError("scorm", C.MsgUploadMissing);
        return false;
      }
      if !t.zip.opens {
        errors.AddError("scorm", "Could not open zip file. Error code: " + NatToString(t.zip.errorCode));
        return false;
      }
      var foundRequired, foundOptional := CountScormFiles(t.zip.entries);
      if foundRequired == 0 {
        errors.AddError("scorm", C.MsgMissingManifest);
        return false;
      }
      ok := ValidateManifestContent(t, errors, parse);
    }

    /** `generateUniqueDirectory`: the first of `base`, `base_1`, `base_2`, ... that does not exist. */
    method GenerateUniqueDirectory(disk: Disk, base: string) returns (newPath: string)
      ensures newPath == E.UniquePath(disk.nodes, base)
    {
      var fs := disk.nodes;
      var counter: nat := 1;
      newPath := base;
      ghost var tried: set<string> := {};
      while newPath in fs
        invariant counter >= 1
        invariant counter == 1 ==> newPath == base
        invariant counter > 1 ==> base in fs && newPath == E.Suffixed(base, counter - 1)
                                  && E.UniqueFrom(fs, base, counter - 1) == E.UniquePath(fs, base)
        invariant tried <= fs.Keys && newPath !in tried
        invariant forall j :: j >= counter ==> E.Suffixed(base, j) !in tried
        decreases fs.Keys - tried
      {
        forall j | j >= counter + 1 ensures E.Suffixed(base, j) != newPath {
          if counter > 1 && E.Suffixed(base, j) == newPath {
            E.SuffixedInjective(base, j, counter - 1);
          }
          assert |E.Suffixed(base, j)| > |base|;
        }
        assert |E.Suffixed(base, counter)| > |base|;
        if counter > 1 && E.Suffixed(base, counter) == newPath {
          E.SuffixedInjective(base, counter, counter - 1);
        }
        tried := tried + {newPath};
        newPath := E.Suffixed(base, counter);
        counter := counter + 1;
      }
    }

    /** `createDirectory`: reuse an existing directory, otherwise `mkdir` it recursively. */
    method CreateDirectory(path: string, errors: ErrorStore, disk: Disk) returns (ok: bool)
      requires disk.Valid()
      modifies errors, disk
      ensures disk.Valid()
      ensures ok == E.CreateDirectory(old(disk.nodes), path).Some?
      ensures disk.nodes == E.CreateDirectory(old(disk.nodes), path).GetOr(old(disk.nodes))
      ensures errors.errors == if ok then old(errors.errors)
                               else Add(old(errors.errors), Error("scorm", "Could not create extraction directory: " + path))
    {
      if IsDir(disk.nodes, path) {
        return true;
      }
      ok := disk.MakeDirectory(path);
      if !ok {
        errors.AddError("scorm", "Could not create extraction directory: " + path);
      }
    }

    /** `cleanupDirectory`. */
    method CleanupDirectory(path: string, disk: Disk)
      requires disk.Valid()
      modifies disk
      ensures disk.Valid()
      ensures disk.nodes == E.CleanupDirectory(old(disk.nodes), path)
    {
      if IsDir(disk.nodes, path) {
        disk.RemoveDirectory(path);
      }
    }

    /** `removeDirectory`: the recursive walk of Disk. */
    method RemoveDirectory(dir: string, disk: Disk)
      requires disk.Valid()
      modifies disk
      ensures disk.Valid()
      ensures disk.nodes == if IsDir(old(disk.nodes), dir) then RemoveSubtree(old(disk.nodes), dir) else old(disk.nodes)
    {
      disk.RemoveDirectory(dir);
    }

    /** `secureExtraction`: the entry loop, stopping at the first failure with its message. */
    method SecureExtraction(entries: seq<Entry>, extractPath: string, errors: ErrorStore, disk: Disk,
                            canon: string -> Option<string>) returns (ok: bool)
      requires disk.Valid()
      modifies errors, disk
      ensures disk.Valid()
      ensures ok == E.SecureExtraction(old(disk.nodes), extractPath, entries, canon).error.None?
      ensures disk.nodes == E.SecureExtraction(old(disk.nodes), extractPath, entries, canon).fs
      ensures errors.errors == AddAll(old(errors.errors), ErrorsOf(E.SecureExtraction(old(disk.nodes), extractPath, entries, canon)))
    {
      if canon(extractPath).None? {
        errors.AddError("scorm", E.MsgInvalidPath);
        return false;
      }
      var root := canon(extractPath).value;
      for i := 0 to |entries|
        invariant disk.Valid()
        invariant E.ExtractAll(disk.nodes, root, entries[i..], canon) == E.ExtractAll(old(disk.nodes), root, entries, canon)
        invariant errors.errors == old(errors.errors)
      {
        assert entries[i..][0] == entries[i] && entries[i..][1..] == entries[i + 1..];
        ghost var step := E.ExtractEntry(disk.nodes, root, entries[i], canon);
        var filename := entries[i].name;
        E.SlashDotDotHasDotDot(filename);
        if Contains(filename, "..") || Contains(filename, "/..") {
          errors.AddError("scorm", E.MsgTraversal);
          return false;
        }
        if EndsWith(filename, "/") || StartsWith(BaseName(filename), ".") {
          continue;
        }
        var targetPath := root + "/" + filename;
        var targetDir := Dirname(targetPath);
        if !DirPresent(disk.nodes, targetDir) {
          var made := disk.MakeDirectory(targetDir);
          if !made {
            errors.AddError("scorm", "Could not create directory: " + targetDir);
            return false;
          }
        }
        assert step == E.CheckAndWrite(disk.nodes, root, entries[i], canon);
        var realTargetDir := canon(targetDir);
        if realTargetDir.None? {
          errors.AddError("scorm", E.MsgUnresolved);
          return false;
        }
        if !StartsWith(realTargetDir.value, root) {
          errors.AddError("scorm", E.MsgOutside);
          return false;
        }
        var fileContent := entries[i].content;
        if fileContent.None? {
          errors.AddError("scorm", "Could not read file from zip: " + filename);
          return false;
        }
        var wrote := disk.PutContents(targetPath, fileContent.value);
        if !wrote {
          errors.AddError("scorm", "Could not write extracted file: " + targetPath);
          return false;
        }
      }
      assert entries[|entries|..] == [];
      return true;
    }

    /** `extractScormPackage`: the extraction directory on success, None with one error otherwise. */
    method ExtractScormPackage(t: TempFile, extractionDir: string, errors: ErrorStore, disk: Disk,
                               canon: string -> Option<string>) returns (r: Option<string>)
      requires disk.Valid()
      modifies errors, disk
      ensures disk.Valid()
      ensures r == E.ExtractScormPackage(old(disk.nodes), basePath, extractionDir, t, canon).path
      ensures disk.nodes == E.ExtractScormPackage(old(disk.nodes), basePath, extractionDir, t, canon).fs
      ensures errors.errors == AddAll(old(errors.errors), E.ExtractScormPackage(old(disk.nodes), basePath, extractionDir, t, canon).errors)
    {
      if !t.present {
        errors.AddError("scorm", E.MsgSourceMissing);
        return None;
      }
      var extractPath := basePath + "/original/" + extractionDir;
      if extractPath in disk.nodes {
        extractPath := GenerateUniqueDirectory(disk, extractPath);
      }
      var created := CreateDirectory(extractPath, errors, disk);
      if !created {
        return None;
      }
      if !t.zip.opens {
        errors.AddError("scorm", E.MsgOpenForExtraction + NatToString(t.zip.errorCode));
        return None;
      }
      var extracted := SecureExtraction(t.zip.entries, extractPath, errors, disk, canon);
      if !extracted {
        CleanupDirectory(extractPath, disk);
        return None;
      }
      return Some(extractPath);
    }

    /** The item and resource loops of `getScormInfo`; an absent list is an empty one, so the isset guards add nothing. */
    method FindEntryPoint(xml: Element) returns (entryPoint: string)
      ensures entryPoint == M.EntryPointOf(xml)
    {
      entryPoint := "";
      var items := M.ItemsOf(xml);
      var i := 0;
      while i < |items|
        invariant 0 <= i <= |items|
        invariant forall k :: 0 <= k < i ==> "identifierref" !in items[k].attributes
        invariant entryPoint == ""
      {
        if "identifierref" in items[i].attributes {
          var resourceId := items[i].attributes["identifierref"];
          var resources := M.ResourcesOf(xml);
          var j := 0;
          while j < |resources|
            invariant 0 <= j <= |resources|
            invariant forall k :: 0 <= k < j ==> Attr(resources[k], "identifier") != resourceId
            invariant entryPoint == ""
          {
            if Attr(resources[j], "identifier") == resourceId {
              entryPoint := Attr(resources[j], "href");
              M.EntryPointCharacterised(xml, i, j);
              break;
            }
            j := j + 1;
          }
          if j == |resources| {
            M.OnlyFirstReferenceTried(xml, i);
          }
          break;
        }
        i := i + 1;
      }
      if i == |items| {
        M.EntryPointWithoutReference(xml);
      }
    }

    /** `getScormInfo`: read the extracted manifest, field by field, as the PHP code does. */
    method GetScormInfo(disk: Disk, extractedPath: string, parse: string -> Option<Element>)
      returns (r: Option<M.ScormInfo>)
      ensures r == M.ReadInfo(disk.nodes, extractedPath, parse)
    {
      var manifestPath := extractedPath + "/imsmanifest.xml";
      if manifestPath !in disk.nodes || disk.nodes[manifestPath].Dir? {
        return None;
      }
      var loaded := parse(disk.nodes[manifestPath].content);
      if loaded.None? {
        return None;
      }
      var xml := loaded.value;
      var title, description, schemaversion := "", "", "";
      if Path(xml, M.LomTitle).Some? {
        title := TextAt(xml, M.LomTitle);
      }
      if Path(xml, M.OrgTitle).Some? {
        title := TextAt(xml, M.OrgTitle);
      }
      if Path(xml, M.LomDescription).Some? {
        description := TextAt(xml, M.LomDescription);
      }
      if Path(xml, M.SchemaVersion).Some? {
        schemaversion := TextAt(xml, M.SchemaVersion);
      }
      var entryPoint := FindEntryPoint(xml);
      return Some(M.ScormInfo(title, description, "", schemaversion, entryPoint));
    }
  }

  /** The errors a run of the extraction loop reports: its one message, if any. */
  function ErrorsOf(out: E.Outcome): seq<Error> {
    match out.error
    case None => []
    case Some(m) => [Error("scorm", m)]
  }
}
