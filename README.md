# OmekaS LearningObject: a verified model of the SCORM pipeline

This project models the core of the Omeka S "LearningObject" module, which
ingests SCORM packages and eXeLearning (`.elp`) archives as media. There
are three stages, each over a filesystem map from path strings to
files and directories:

- **Classifier** (`isValidScormPackage`, `validateManifestContent`). It
  decides whether an uploaded archive is a SCORM package and adds errors
  to the `ErrorStore` under the key `scorm`.
- **Secure extractor** (`extractScormPackage`, `secureExtraction`,
  `generateUniqueDirectory`, `createDirectory`, `cleanupDirectory`,
  `removeDirectory`). It writes the archive's entries below a fresh
  directory `basePath/original/scorm_<uniqid>`. It refuses traversal and
  escape, and it removes the directory when an entry fails.
- **Manifest reader** (`getScormInfo`). It reads the title, description,
  schema version and entry point from the extracted `imsmanifest.xml`.

On top of these sit the media ingester `LearningObject::ingest` and the
module's deletion listener `Module::handleMediaDeletion`, which removes
the extraction directory when the media is deleted.

## Layout

| file | module | contents |
|---|---|---|
| `wrappers.dfy` | `Wrappers` | `Option` |
| `paths.dfy` | `Paths` | string and path helpers: `basename`, `dirname`, extension, ancestors, `stripos`, integer-to-string |
| `filesystem.dfy` | `FileSystem` | the filesystem map, `mkdir -p`, `file_put_contents`, subtree removal, and the `Disk` class whose methods change it in place |
| `archive.dfy` | `Archive`, `Xml`, `Errors` | zip entries and the temporary file; the part of a SimpleXML document that is read; the `ErrorStore` |
| `classifier.dfy` | `ScormClassifier` | the classifier as functions, with its lemmas |
| `extractor.dfy` | `ScormExtractor` | the extractor as functions, with its lemmas |
| `manifest.dfy` | `ScormManifest` | the manifest reader as functions, with its lemmas |
| `scorm_package_manager.dfy` | `PackageManager` | `ScormPackageManager` as a class; each method is proved to leave exactly the state the functions describe |
| `ingester.dfy` | `LearningObjectIngester` | `ingest` as a function with its lemmas, plus the `Media` and `LearningObject` classes |
| `deletion.dfy` | `LearningObjectModule` | the deletion listener as a function with its lemmas, plus the `Module` class |

Each imperative PHP method has two parts. One is a Dafny `method` with the
PHP loops, or a method of the `Disk`, `ErrorStore` or `Media` objects. The
other is a function of the old state that the method is proved to produce.
The properties are lemmas about those functions.

Paths are plain strings, joined with `/` as the PHP code joins them.
`realpath` is the parameter `canon`: a function from paths to canonical
paths, which does not depend on the filesystem's state. The XML parser
(`simplexml_load_string`/`simplexml_load_file`) is the parameter `parse`.
`uniqid()` is the parameter `uid`. The MIME type `finfo` reports is
a field of the upload.

Four behaviours of the code that the comments beside it do not lead one
to expect:

- The comment at ScormPackageManager.php line 422 reads the title and the
  description from the LOM metadata. Lines 427-429 then overwrite that
  title with the first organization's title whenever there is one
  (`OrganizationTitleWins`).
- The comment at line 356 says the directory is cleaned up when extraction
  fails. `cleanupDirectory` is called only when `secureExtraction` fails
  (lines 207-211). When the archive does not open for extraction (lines
  198-204), the directory created just before stays behind
  (`OpenFailureLeavesDirectory`).
- The comment at line 219 says the extraction prevents directory
  traversal. The test at line 245 rejects the substring `..` anywhere in an
  entry name, so `a..b.txt` is rejected too. Its second half, `/..`, adds
  nothing (`SlashDotDotHasDotDot`). An entry with the empty name aims at
  the extraction directory itself. `dirname` of that target is the
  directory's parent, so the containment test at line 277 stops the
  extraction (`EmptyNameEscapes`).
- LearningObject.php line 199 stores `scorm_<uid>` as the extraction
  directory. When that directory already exists, lines 189-191 of the
  package manager extract into `scorm_<uid>_1` or a later suffix instead.
  The stored name then refers to the directory that existed before
  (`CollisionStoresOtherPath`).

## Model

| member | source | states |
|---|---|---|
| ScormClassifier.CountBaseNamesZero | src/Service/ScormPackageManager.php:73-94 | no entry is counted exactly when no base name is in the target list, both ways |
| ScormClassifier.CountMarkersZero | src/Service/ScormPackageManager.php:138-147 | the marker count is zero exactly when no marker occurs case-insensitively in the text |
| ScormClassifier.CheckManifestText | src/Service/ScormPackageManager.php:138-165 | the manifest text is accepted iff it contains a SCORM marker, or parses as XML with `metadata`, `organizations` and `resources` children; it adds an error exactly when it rejects |
| ScormClassifier.ValidateManifestContent | src/Service/ScormPackageManager.php:111-166 | accepts iff the archive opens, an entry named exactly `imsmanifest.xml` has readable content, and that text passes the marker-or-structure rule |
| ScormClassifier.IsValidScormPackage | src/Service/ScormPackageManager.php:52-102 | accepts iff no error is added; every error has key `scorm`; at most one error is added |
| ScormClassifier.ManifestCount | src/Service/ScormPackageManager.php:73-91 | the required-file count is nonzero iff some entry, in any directory, has base name `imsmanifest.xml` |
| ScormClassifier.MissingManifestRejected | src/Service/ScormPackageManager.php:90-94 | an openable archive with no `imsmanifest.xml` base name is rejected with exactly the missing-manifest error |
| ScormClassifier.NestedManifestUnreadable | src/Service/ScormPackageManager.php:121-127 | a manifest that exists only inside a directory passes the count, then fails with the cannot-read error |
| ScormClassifier.AcceptanceRule | src/Service/ScormPackageManager.php:52-166 | an openable archive that names the manifest is accepted iff the root manifest's content exists and has a marker or the three sections |
| ScormClassifier.OptionalFilesIrrelevant | src/Service/ScormPackageManager.php:83-85 | adding an entry whose base name is one of the optional schema files, in any directory, changes neither the verdict nor the errors |
| ScormClassifier.ScormMarkerSubsumed | src/Service/ScormPackageManager.php:130-143 | the `scorm` marker is redundant: the marker test equals the test with it dropped |
| Paths.DirnameExamples | src/Service/ScormPackageManager.php:256 | `dirname` gives PHP's documented answers: "" for "", "/" for "/" and "/a", "." for "a", and trailing and doubled slashes are dropped |
| Paths.DirnameIsAncestor | src/Service/ScormPackageManager.php:256 | `dirname` returns "", "/", "." or a proper ancestor of its argument |
| Paths.DirnameOfSlashed | src/Service/ScormPackageManager.php:255-256 | `dirname` of a canonical absolute path with a slash appended is that path's parent, shorter than it and not below it |
| ScormExtractor.SlashDotDotHasDotDot | src/Service/ScormPackageManager.php:245 | a name containing `/..` already contains `..` |
| ScormExtractor.DirnameOfTarget | src/Service/ScormPackageManager.php:255-264 | the directory made for an entry, and each directory above it, is in the root's subtree or above the root, unless it is "/" or "." |
| ScormExtractor.EmptyNameEscapes | src/Service/ScormPackageManager.php:251-279 | an entry with the empty name, below a canonical absolute root, creates no directory and stops the loop with the outside-target error |
| ScormExtractor.EmptyNameNeverExtracted | src/Service/ScormPackageManager.php:241-279 | no loop over entries that include the empty name finishes without error |
| ScormExtractor.StepConfined | src/Service/ScormPackageManager.php:241-296 | one entry deletes nothing, keeps directories, and outside the root adds only ancestor directories of the root |
| ScormExtractor.StepNextWrote | src/Service/ScormPackageManager.php:255-292 | a non-skipped entry that lets the loop go on was admitted (no `..`, resolved parent below the root, readable), and its bytes are at its target |
| ScormExtractor.StepKeepsOtherFiles | src/Service/ScormPackageManager.php:255-292 | one entry leaves every other regular file unchanged |
| ScormExtractor.ExtractAllConfined | src/Service/ScormPackageManager.php:241-298 | the whole loop deletes nothing, keeps directories, and outside the root adds only ancestor directories of the root |
| ScormExtractor.ExtractAllFiles | src/Service/ScormPackageManager.php:283-292 | every regular file the loop creates or replaces holds, byte for byte, the content of an admitted entry aimed at it |
| ScormExtractor.TraversalAborts | src/Service/ScormPackageManager.php:244-248 | an entry containing `..` makes the loop fail, and nothing after it is processed |
| ScormExtractor.ExtractAllKeepsFiles | src/Service/ScormPackageManager.php:255-292 | a regular file that no entry targets survives the loop unchanged |
| ScormExtractor.ExtractAllSuccessAdmits | src/Service/ScormPackageManager.php:241-298 | a loop that succeeds saw no `..`, and admitted every entry it did not skip |
| ScormExtractor.ExtractAllSuccessWrites | src/Service/ScormPackageManager.php:283-292 | after a successful loop, each target holds the content of the last non-skipped entry with that name |
| ScormExtractor.ExtractAllSuccess | src/Service/ScormPackageManager.php:226-299 | a successful loop admitted every non-skipped entry and left every such entry's bytes (the last one of each name) in place |
| ScormExtractor.ExtractAllFileAt | src/Service/ScormPackageManager.php:241-298 | into a root with no regular file below it, a successful loop leaves a file at the target of a name iff the archive's last entry of that name is not skipped; the file holds that entry's bytes |
| ScormExtractor.ExtractAllDeterministic | src/Service/ScormPackageManager.php:241-298 | two successful loops over the same entries, into roots with no regular file below them, leave the same file names with the same bytes |
| ScormExtractor.UniqueFromLeast | src/Service/ScormPackageManager.php:342-353 | the probe returns a free `base_n`, with every `base_j` for j < n taken |
| ScormExtractor.UniquePathFresh | src/Service/ScormPackageManager.php:185-191 | the chosen path never existed; it is the nominal path when free, else the least free `base_k` with k >= 1 |
| ScormExtractor.CleanupDirectory | src/Service/ScormPackageManager.php:360-365 | when the path is a directory, nothing of its subtree remains |
| ScormExtractor.ExtractScormPackage | src/Service/ScormPackageManager.php:176-216 | a path is returned iff no error is added; at most one error is added, with key `scorm` |
| ScormExtractor.NoKeyBelowFresh | src/Service/ScormPackageManager.php:189-191 | in a tree, nothing lies below a path that does not exist |
| ScormExtractor.ExtractedPathFresh | src/Service/ScormPackageManager.php:176-216 | on success, the returned path did not exist before and is now a directory |
| ScormExtractor.RemovingExtractionRestores | src/Service/ScormPackageManager.php:194-211 | creating a fresh directory, running the loop and removing the subtree leaves the old filesystem, plus at most new ancestor directories of it |
| ScormExtractor.ExtractionFailureLeavesNoTrace | src/Service/ScormPackageManager.php:206-211 | a failed extraction of an openable archive leaves nothing below the chosen path and otherwise only new ancestor directories |
| ScormExtractor.TraversalLeavesNoDirectory | src/Service/ScormPackageManager.php:244-248 | a `..` name anywhere in the archive makes the extraction fail and leaves no extraction directory |
| ScormExtractor.OpenFailureLeavesDirectory | src/Service/ScormPackageManager.php:198-204 | when the archive does not open, the created directory stays, and the one error carries the zip error code |
| ScormExtractor.ExtractionSuccessContents | src/Service/ScormPackageManager.php:207-215 | on success, every non-skipped entry's bytes are below the canonical extraction root |
| ScormExtractor.ExtractionDeterministic | src/Service/ScormPackageManager.php:176-216 | two successful extractions of the same upload, whose canonical roots hold no regular file yet, leave the same file names with the same bytes |
| ScormManifest.ScormInfo.AsArray | src/Service/ScormPackageManager.php:414-420 | the returned array has exactly the five keys `title`, `description`, `version`, `schemaversion` and `entry_point` |
| ScormManifest.FirstRef | src/Service/ScormPackageManager.php:442-444 | the result is the `identifierref` of the first item that has one, and None iff no item has one |
| ScormManifest.FindResource | src/Service/ScormPackageManager.php:448-452 | the result is the first resource whose identifier equals the id, and None iff there is none |
| ScormManifest.ReadInfo | src/Service/ScormPackageManager.php:396-411 | information is returned iff the manifest exists as a file and parses |
| ScormManifest.InfoFields | src/Service/ScormPackageManager.php:413-438 | the version is always empty; the description and the schema version are the texts at their metadata paths, or empty when a path is absent |
| ScormManifest.OrganizationTitleWins | src/Service/ScormPackageManager.php:422-429 | the organization title wins over the LOM title; the LOM title is used only without it; otherwise the title is empty |
| ScormManifest.EntryPointWithoutReference | src/Service/ScormPackageManager.php:440-443 | the entry point is empty when no item of the first organization has an `identifierref` |
| ScormManifest.EntryPointCharacterised | src/Service/ScormPackageManager.php:440-458 | when item k is the first with a reference and resource j the first whose identifier equals it, the entry point is resource j's `href` |
| ScormManifest.OnlyFirstReferenceTried | src/Service/ScormPackageManager.php:443-455 | when the first referencing item matches no resource, later items are not tried and the entry point is empty |
| ScormManifest.ReadInfoParsed | src/Service/ScormPackageManager.php:406-460 | a manifest file that parses yields exactly the information of the parsed document |
| ScormManifest.ReadInfoShape | src/Service/ScormPackageManager.php:413-420 | the returned array always has the five keys, and the version is empty |
| PackageManager.ScormPackageManager.CountScormFiles | src/Service/ScormPackageManager.php:70-86 | the loop's two counters equal the number of entries whose base name is required, and optional |
| PackageManager.ScormPackageManager.CountIndicators | src/Service/ScormPackageManager.php:138-143 | the loop's counter equals the number of markers in the manifest text |
| PackageManager.ScormPackageManager.IsValidScormPackage | src/Service/ScormPackageManager.php:52-102 | the verdict, and the errors appended to the store, are those of the classifier function |
| PackageManager.ScormPackageManager.ValidateManifestContent | src/Service/ScormPackageManager.php:111-166 | the verdict, and the errors appended to the store, are those of the manifest check |
| PackageManager.ScormPackageManager.GenerateUniqueDirectory | src/Service/ScormPackageManager.php:342-353 | the while loop returns the path `UniquePath` describes |
| PackageManager.ScormPackageManager.CreateDirectory | src/Service/ScormPackageManager.php:308-334 | an existing directory is reused; otherwise `mkdir -p` runs; on failure one error is added and the disk is unchanged |
| PackageManager.ScormPackageManager.CleanupDirectory | src/Service/ScormPackageManager.php:360-365 | the disk afterwards is the cleanup function of the old disk |
| PackageManager.ScormPackageManager.RemoveDirectory | src/Service/ScormPackageManager.php:372-388 | the directory's subtree is removed when it is a directory; otherwise nothing changes |
| PackageManager.ScormPackageManager.SecureExtraction | src/Service/ScormPackageManager.php:226-299 | the entry loop leaves the disk, the verdict and the one error that the extraction function describes |
| PackageManager.ScormPackageManager.ExtractScormPackage | src/Service/ScormPackageManager.php:176-216 | the returned path, the disk and the errors are those of the extraction function |
| PackageManager.ScormPackageManager.FindEntryPoint | src/Service/ScormPackageManager.php:441-458 | the nested loops with their `break`s compute the characterised entry point |
| PackageManager.ScormPackageManager.GetScormInfo | src/Service/ScormPackageManager.php:396-461 | the result is the manifest reader's information, and false exactly where the reader gives none |
| LearningObjectIngester.KindOf | src/Media/Ingester/LearningObject.php:161-170 | eXe 3.x iff both `content.xml` and `index.html` exist; 2.x iff not that, `contentv3.xml` exists and `index.html` does not |
| LearningObjectIngester.Exe3Info | src/Media/Ingester/LearningObject.php:189-193 | the entry point is forced to `index.html`; the title falls back to `eXeLearning 3.x` when empty, `"0"` or missing; the other keys are kept |
| LearningObjectIngester.GuardsReported | src/Media/Ingester/LearningObject.php:115-129 | each failed request guard adds its one `error` message, and changes neither disk nor media |
| LearningObjectIngester.DisallowedTypeThrows | src/Media/Ingester/LearningObject.php:134-138 | a MIME type outside the allow-list throws the validation exception before any error or change |
| LearningObjectIngester.IngestSplits | src/Media/Ingester/LearningObject.php:110-186 | either ingest has no effect beyond errors, or it hands the uploaded file to validation and extraction |
| LearningObjectIngester.PackageEffects | src/Media/Ingester/LearningObject.php:178-207 | only the extractor changes the disk; data is set only after a successful extraction; the source is set only with data |
| LearningObjectIngester.OnlyExtractionChangesDisk | src/Media/Ingester/LearningObject.php:110-207 | the disk afterwards is the old one or the extractor's; data is set only after an allowed, uploaded and extracted package |
| LearningObjectIngester.ElpClassified | src/Media/Ingester/LearningObject.php:147-175 | an `.elp` that is not eXe 3.x is rejected with its one `elp` error (cannot open, 2.x, or unexpected) and no other effect |
| LearningObjectIngester.ScormMustValidate | src/Media/Ingester/LearningObject.php:177-180 | a package that is not `.elp` is stored only if the classifier accepts it; on rejection, the classifier's errors are the only effect |
| LearningObjectIngester.Exe3Stored | src/Media/Ingester/LearningObject.php:188-202 | an extracted eXe 3.x package is stored as `eXeLearning`, with entry point `index.html` and the title fallback |
| LearningObjectIngester.SuccessRecorded | src/Media/Ingester/LearningObject.php:195-207 | a stored media is a learning object, with kind by extension and path `scorm_<uid>`; the source is the upload's name iff the request has no `o:source` |
| LearningObjectIngester.SourceOnlyWithData | src/Media/Ingester/LearningObject.php:204-207 | no source is set without data |
| LearningObjectIngester.CollisionStoresOtherPath | src/Media/Ingester/LearningObject.php:182-199 | when `basePath/original/scorm_<uid>` already exists, `scorm_<uid>` is still stored, though the files went to a different directory |
| LearningObjectIngester.ExtractThenRead | src/Media/Ingester/LearningObject.php:183-188 | after a successful extraction, `getScormInfo` on the returned path gives the information of the archive's last `imsmanifest.xml` entry |
| LearningObjectIngester.ManifestNotSkipped | src/Service/ScormPackageManager.php:250-253 | `imsmanifest.xml` is neither a directory marker nor a hidden file, so the extractor writes it |
| LearningObjectIngester.PackageStoresManifestInfo | src/Media/Ingester/LearningObject.php:182-200 | a stored package's `scorm_info` holds the fields of the archive's manifest, with the eXe 3.x overrides when it is one |
| LearningObjectIngester.LearningObject.ScanElp | src/Media/Ingester/LearningObject.php:151-159 | the three flags say whether `content.xml`, `index.html` and `contentv3.xml` are entry names |
| LearningObjectIngester.LearningObject.Ingest | src/Media/Ingester/LearningObject.php:110-210 | how ingest ends, the disk, the errors added and the media's data and source are those of the ingest function |
| LearningObjectModule.ExtractionDirOf | Module.php:82-100 | a directory is targeted iff the media is a learning object with a stored extraction path |
| LearningObjectModule.NotLearningObjectUntouched | Module.php:82-89 | media that is not a learning object, or has no stored path, leaves the disk alone |
| LearningObjectModule.DeletionRemovesExactlyTheSubtree | Module.php:99-105 | exactly the stored directory's subtree goes, every other path keeps its node, and a non-directory changes nothing |
| LearningObjectModule.SiblingSurvives | Module.php:99-105 | a disambiguated sibling `scorm_x_<k>` and everything below it keep their nodes when `scorm_x` is deleted |
| LearningObjectModule.DeletionWellFormed | Module.php:74-106 | the listener keeps the filesystem a tree |
| LearningObjectModule.IngestThenDeleteRestores | Module.php:74-106 | ingest then delete, into a free directory that is its own canonical form, leaves the old filesystem plus at most new ancestor directories |
| LearningObjectModule.Module.HandleMediaDeletion | Module.php:74-106 | the disk afterwards is the deletion function of the old disk, and stays a tree |
| LearningObjectModule.Module.RemoveDirectory | Module.php:113-129 | the directory's subtree is removed when it is a directory; otherwise nothing changes |
| FileSystem.MkdirAll | src/Service/ScormPackageManager.php:259-264 | `mkdir -p` fails iff a file sits on the path; on success the path is a directory, old nodes are kept, and only directories on the path are added (PHP's failure on an existing directory is not reached: both callers test `is_dir` first) |
| FileSystem.WriteFile | src/Service/ScormPackageManager.php:289-292 | writing succeeds iff the target is not a directory and all its ancestors are; it replaces exactly that one node |
| FileSystem.RemoveSubtree | src/Service/ScormPackageManager.php:372-388 | exactly the paths in the subtree disappear, and the others keep their nodes |
| FileSystem.RemoveSubtreeWellFormed | src/Service/ScormPackageManager.php:372-388 | removing a subtree keeps the filesystem a tree |
| FileSystem.Disk.RemoveDirectory | src/Service/ScormPackageManager.php:372-388 | the recursive walk (unlink files, recurse into directories, rmdir) removes exactly the subtree |
| FileSystem.Disk.MakeDirectory | src/Service/ScormPackageManager.php:322-325 | `mkdir -p` changes the disk as `MkdirAll` says, and reports whether it succeeded |
| FileSystem.Disk.PutContents | src/Service/ScormPackageManager.php:289-292 | `file_put_contents` changes the disk as `WriteFile` says, and reports whether it succeeded |
| Archive.FromName | src/Service/ScormPackageManager.php:121 | `getFromName` finds content only for an entry with exactly that name |
| ScormClassifier.CountBaseNames | src/Service/ScormPackageManager.php:73-86 | definition, no contract: the number of entries whose `basename` is in a list, as the counting loop does |
| ScormClassifier.CountMarkers | src/Service/ScormPackageManager.php:138-143 | definition, no contract: the number of markers that `stripos` finds in the manifest text |
| ScormClassifier.SameInputsSameVerdict | src/Service/ScormPackageManager.php:52-166 | the verdict and errors depend on the archive only through the manifest count and the root manifest's content |
| Paths.BaseName | src/Service/ScormPackageManager.php:75 | definition: PHP `basename`; its contract says the result has no `/` |
| Paths.Dirname | src/Service/ScormPackageManager.php:256 | definition, no contract: PHP `dirname`, stated by `DirnameExamples`, `DirnameIsAncestor` and `DirnameOfSlashed` |
| Paths.Extension | src/Media/Ingester/LearningObject.php:132 | definition: `pathinfo($f, PATHINFO_EXTENSION)`; its contract says the result has no `.` and no `/` |
| ScormExtractor.ExtractEntry | src/Service/ScormPackageManager.php:242-253 | definition, no contract: the traversal test, then the skip of directory markers and hidden files, then the write |
| ScormExtractor.PlaceFile | src/Service/ScormPackageManager.php:255-270 | definition, no contract: the target path, its `dirname`, and `mkdir -p` unless it is a directory |
| ScormExtractor.CheckAndWrite | src/Service/ScormPackageManager.php:272-292 | definition, no contract: the `realpath` containment re-check, the read from the archive and `file_put_contents` |
| ScormExtractor.ExtractAll | src/Service/ScormPackageManager.php:241-296 | definition, no contract: the `for` loop over the entries, stopping at the first error |
| ScormExtractor.SecureExtraction | src/Service/ScormPackageManager.php:226-299 | definition, no contract: `realpath` of the extraction path, then the loop under it |
| ScormExtractor.UniqueFrom | src/Service/ScormPackageManager.php:342-353 | definition, no contract: the probe `base_k`, `base_k+1`, ... until a free one |
| ScormExtractor.UniquePath | src/Service/ScormPackageManager.php:185-191 | definition, no contract: the nominal path when free, else the probe from 1 |
| ScormExtractor.CreateDirectory | src/Service/ScormPackageManager.php:308-334 | definition, no contract: reuse an existing directory, else `mkdir -p` |
| ScormManifest.TitleOf | src/Service/ScormPackageManager.php:422-429 | definition, no contract: the organization title, else the LOM title, else "" |
| ScormManifest.EntryPointOf | src/Service/ScormPackageManager.php:440-458 | definition, no contract: the `href` of the resource the first item's reference names, else "" |
| ScormManifest.InfoOf | src/Service/ScormPackageManager.php:413-460 | definition, no contract: the five fields `getScormInfo` fills in |
| LearningObjectIngester.IngestOutcome | src/Media/Ingester/LearningObject.php:110-207 | definition, no contract: the request guards, the MIME check, the `.elp` branch, then the package steps |
| LearningObjectIngester.IngestPackage | src/Media/Ingester/LearningObject.php:177-207 | definition, no contract: validation, extraction, the manifest read and the data and source set |
| LearningObjectIngester.StoredInfo | src/Media/Ingester/LearningObject.php:188-200 | definition, no contract: the `scorm_info` stored, with the eXe 3.x overrides and `[]` for false |
| LearningObjectModule.AfterDeletion | Module.php:74-106 | definition, no contract: the filesystem after the listener: the stored directory's subtree removed when it is a directory |

## Left out

- Zip decoding: an archive is given as whether it opens, the error code `open` returns, and its entries with their contents.
- XML parsing: `simplexml_load_string` and `simplexml_load_file` are the parameter `parse`; libxml's error buffer is not modelled.
- `realpath` and symbolic links: `canon` is a fixed function of the path, not of the filesystem, so a link created by the extraction itself is not modelled. The map keys paths as strings, so `p` and `canon(p)` are two different directories to it even when they are one on disk.
- ExtractScormPackage, CleanupDirectory, GetScormInfo, HandleMediaDeletion, ExtractionFailureLeavesNoTrace, TraversalLeavesNoDirectory, ExtractThenRead, PackageStoresManifestInfo, IngestThenDeleteRestores: the loop writes below `canon(p)`, while cleanup, the manifest read and deletion act on `p`. Without aliasing in the model, the lemmas about these operations state their promise for a store path that is its own canonical form, the usual case of a store path without symbolic links.
- File permissions: the `is_writable`/`chmod` branches (ScormPackageManager.php lines 233-239, 265-270, 312-317 and 328-331) and the `chmod` calls after writes are not modelled, and neither are the errors they add.
- `finfo`: the MIME type is a field of the upload. The `in_array` calls (LearningObject.php line 136; ScormPackageManager.php lines 78 and 83) compare loosely. Every entry of their lists (LearningObject.php line 136; ScormPackageManager.php lines 23-35) is a non-numeric string, and PHP 8 compares a non-numeric string loosely only by string equality. So the model compares strictly.
- `Uploader::upload`: its result is an optional temporary file in the upload; the errors it adds are not modelled.
- `uniqid()`: the parameter `uid`.
- `TempFile::setSourceName` and `TempFile::mediaIngestFile` (LearningObject.php lines 204 and 209): these are Omeka's own storage steps, outside the module.
- `ZipArchive::close`: it has no effect on the model.
- `scandir` order: the model removes children in any order, and the result does not depend on it.
- Path normalisation: paths are compared as strings, so `a//b` and `a/b` are different paths. The operating system collapses a doubled slash; the model does not. An entry name with an empty component (`a//b/c`, or a leading `/` as in `/d/x`) is written under a key with a doubled slash (`root/a//b/c`, `root//d/x`), and directory keys such as `root/a/` and `root/a//b` are made on the way, where PHP would write the file at `root/a/b/c` or `root/d/x`. When the doubled slash sits just before the last component (`a//b`, `/x`), the write fails in the model, because `dirname` drops the doubled slash and so the key with the trailing slash is never made as a directory. `dirname` itself follows PHP.
- HandleMediaDeletion, DeletionRemovesExactlyTheSubtree: the listener builds `basePath/original/<extraction_path>` (Module.php lines 99-104), and PHP's `is_dir` and `removeDirectory` resolve that path through the operating system, which collapses doubled and trailing slashes and resolves `..`. So a stored `extraction_path` of "" removes all of `basePath/original`, "x/" removes `x`, and a value containing `..` removes whatever directory it leads to. The model looks up the literal key and removes only a directory whose key is exactly that string, so for such values it removes nothing. The ingester stores only `scorm_<uid>`, for which the two agree.
- PHP truthiness of the stored media data: `learning_object` is modelled as an optional boolean; other value types are not modelled.
- The service-locator lookups and the unused `$request` of the listener: `basePath` is a parameter of each class. The media the listener reads from `$response->getContent()` (Module.php line 78) is its media-data parameter.
- The renderer, forms, factories, configuration, installation and the test scaffolding are not part of this model.
- Concurrency between requests is not modelled; each operation runs alone.
