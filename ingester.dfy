/**
  The LearningObject media ingester: the request guards, the MIME
  allow-list, the eXeLearning (.elp) version check, SCORM validation,
  extraction into `scorm_<uniqid>`, the manifest read and the data stored
  on the media. `uniqid()` is a parameter; the Uploader is represented by
  the temporary file it produced, if any.
 */
module LearningObjectIngester {
  import opened Wrappers
  import opened Paths
  import opened Archive
  import opened Xml
  import opened Errors
  import opened FileSystem
  import C = ScormClassifier
  import E = ScormExtractor
  import M = ScormManifest
  import PM = PackageManager

  /** One element of `$fileData['file']`; `mediaType` is what `finfo` reports for `tmp_name`. */
  datatype Upload = Upload(name: string, mediaType: string, uploaded: Option<TempFile>)

  /**
    The request: its content (a value of None is PHP null) and its file
    data (None when `file` is not set).
   */
  datatype Request = Request(content: map<string, Option<string>>, files: Option<map<string, Upload>>)

  /** `learning_object_data`. */
  datatype LoData = LoData(kind: string, extractionPath: Option<string>, scormInfo: map<string, string>)

  /** The media data the module reads and writes: `learning_object` (as a truth value) and its data. */
  datatype MediaData = MediaData(learningObject: Option<bool>, loData: Option<LoData>)

  /** How `ingest` ends: a plain return, or a ValidationException with its message. */
  datatype Exit = Returned | Thrown(message: string)

  /**
    Everything `ingest` does: how it ends, the errors it adds in order, the
    filesystem it leaves, and the data and source it sets (None: not set).
   */
  datatype Ingested = Ingested(exit: Exit, errors: seq<Error>, fs: Fs, data: Option<MediaData>, source: Option<string>)

  const MsgNoFiles := "No files were uploaded"
  const MsgNoIndex := "No file index was specified"
  const MsgNoUpload := "No file uploaded for the specified index"
  const MsgInvalidFormat := "Formato de archivo inválido. Solo se permiten archivos zip o elp."
  const MsgElpLegacy := "El archivo eXeLearning (.elp) es de una versión antigua (2.x) y no puede visualizarse directamente.\\nAbra el paquete con eXeLearning 3.x y expórtelo de nuevo para actualizarlo."
  const MsgElpUnexpected := "El archivo .elp no tiene la estructura esperada para eXeLearning 3.x."
  const MsgElpOpen := "No se pudo abrir el archivo .elp como ZIP."
  const Exe3Title := "eXeLearning 3.x"

  const AllowedTypes: seq<string> := ["application/zip", "application/x-zip-compressed", "application/octet-stream"]

  /** PHP truthiness of a string: "" and "0" are false. */
  predicate Truthy(s: string) {
    s != "" && s != "0"
  }

  /** What the entry names of an .elp archive say about it. */
  datatype ElpKind = Exe3 | Legacy | Unexpected

  /** eXe 3.x has `content.xml` and `index.html`; 2.x has `contentv3.xml` and no `index.html`. Names are exact. */
  function KindOf(names: seq<string>): (r: ElpKind)
    ensures r == Exe3 <==> "content.xml" in names && "index.html" in names
    ensures r == Legacy <==> !("content.xml" in names && "index.html" in names)
                             && "contentv3.xml" in names && "index.html" !in names
  {
    if "content.xml" in names && "index.html" in names then Exe3
    else if "contentv3.xml" in names && "index.html" !in names then Legacy
    else Unexpected
  }

  /** `strtolower(pathinfo($filename, PATHINFO_EXTENSION))`. */
  function ExtensionOf(filename: string): string {
    Lower(Extension(filename))
  }

  /** The `scorm_info` of an eXe 3.x package: `entry_point` forced, `title` defaulted when falsy or missing. */
  function Exe3Info(info: Option<M.ScormInfo>): (r: map<string, string>)
    ensures r.Keys == (if info.Some? then M.InfoKeys else {"entry_point", "title"})
    ensures r["entry_point"] == "index.html"
    ensures r["title"] == if info.Some? && Truthy(info.value.title) then info.value.title else Exe3Title
    ensures forall k :: k in r && k != "entry_point" && k != "title" ==> r[k] == info.value.AsArray()[k]
  {
    var base := if info.Some? then info.value.AsArray() else map[];
    var withEntry := base["entry_point" := "index.html"];
    var title := if "title" in withEntry && Truthy(withEntry["title"]) then withEntry["title"] else Exe3Title;
    withEntry["title" := title]
  }

  /** The `scorm_info` stored for a package: what `getScormInfo` returned, or `[]` when it returned false. */
  function StoredInfo(isExe3: bool, info: Option<M.ScormInfo>): map<string, string> {
    if isExe3 then Exe3Info(info)
    else if info.Some? then info.value.AsArray()
    else map[]
  }

  /** The directory name handed to the extractor (and stored on the media). */
  function DirName(uid: string): string {
    "scorm_" + uid
  }

  /** `ingest`, after the guards and the upload: validation, extraction, the manifest and the data set. */
  function IngestPackage(fs: Fs, basePath: string, content: map<string, Option<string>>, filename: string,
                         t: TempFile, isExe3: bool, uid: string,
                         parse: string -> Option<Element>, canon: string -> Option<string>): Ingested
  {
    var check := C.IsValidScormPackage(t, parse);
    if !isExe3 && !check.ok then Ingested(Returned, check.errors, fs, None, None)
    else
      var x := E.ExtractScormPackage(fs, basePath, DirName(uid), t, canon);
      if x.path.None? then Ingested(Returned, x.errors, x.fs, None, None)
      else
        var info := M.ReadInfo(x.fs, x.path.value, parse);
        var kind := if ExtensionOf(filename) == "elp" then "eXeLearning" else "SCORM";
        var data := MediaData(Some(true), Some(LoData(kind, Some(DirName(uid)), StoredInfo(isExe3, info))));
        var source := if "o:source" in content then None else Some(filename);
        Ingested(Returned, x.errors, x.fs, Some(data), source)
  }

  /** `ingest`, as the outcome it produces. */
  function IngestOutcome(fs: Fs, basePath: string, req: Request, uid: string,
                  parse: string -> Option<Element>, canon: string -> Option<string>): Ingested
  {
    if req.files.None? then Ingested(Returned, [Error("error", MsgNoFiles)], fs, None, None)
    else if "file_index" !in req.content || req.content["file_index"].None? then
      Ingested(Returned, [Error("error", MsgNoIndex)], fs, None, None)
    else
      var index := req.content["file_index"].value;
      if index !in req.files.value then Ingested(Returned, [Error("error", MsgNoUpload)], fs, None, None)
      else
        var up := req.files.value[index];
        if up.mediaType !in AllowedTypes then Ingested(Thrown(MsgInvalidFormat), [], fs, None, None)
        else match up.uploaded
          case None => Ingested(Returned, [], fs, None, None)
          case Some(t) =>
            if ExtensionOf(up.name) != "elp" then IngestPackage(fs, basePath, req.content, up.name, t, false, uid, parse, canon)
            else if !t.Opens() then Ingested(Returned, [Error("elp", MsgElpOpen)], fs, None, None)
            else match KindOf(Names(t.zip.entries))
              case Legacy => Ingested(Returned, [Error("elp", MsgElpLegacy)], fs, None, None)
              case Unexpected => Ingested(Returned, [Error("elp", MsgElpUnexpected)], fs, None, None)
              case Exe3 => IngestPackage(fs, basePath, req.content, up.name, t, true, uid, parse, canon)
  }

  /** The upload the three guards lead to, when they all pass. */
  function UploadOf(req: Request): Option<Upload> {
    if req.files.None? || "file_index" !in req.content || req.content["file_index"].None? then None
    else if req.content["file_index"].value !in req.files.value then None
    else Some(req.files.value[req.content["file_index"].value])
  }

  // ---- properties ----

  /** Each failed guard adds its one "error" message and changes nothing else. */
  lemma GuardsReported(fs: Fs, basePath: string, req: Request, uid: string,
                       parse: string -> Option<Element>, canon: string -> Option<string>)
    requires UploadOf(req).None?
    ensures var r := IngestOutcome(fs, basePath, req, uid, parse, canon);
            && r.exit == Returned && r.fs == fs && r.data.None? && r.source.None?
            && |r.errors| == 1 && r.errors[0].key == "error"
            && r.errors[0].message == (if req.files.None? then MsgNoFiles
                                       else if "file_index" !in req.content || req.content["file_index"].None? then MsgNoIndex
                                       else MsgNoUpload)
  {
  }

  /** A type outside the allow-list throws, before any error is added or any file is touched. */
  lemma DisallowedTypeThrows(fs: Fs, basePath: string, req: Request, uid: string,
                             parse: string -> Option<Element>, canon: string -> Option<string>)
    requires UploadOf(req).Some? && UploadOf(req).value.mediaType !in AllowedTypes
    ensures IngestOutcome(fs, basePath, req, uid, parse, canon) == Ingested(Thrown(MsgInvalidFormat), [], fs, None, None)
  {
  }

  /** An outcome with no effect besides its errors. */
  predicate Untouched(r: Ingested, fs: Fs) {
    r.fs == fs && r.data.None? && r.source.None?
  }

  /** Either `ingest` stops with no effect, or it hands the uploaded file on to validation and extraction. */
  lemma IngestSplits(fs: Fs, basePath: string, req: Request, uid: string,
                     parse: string -> Option<Element>, canon: string -> Option<string>)
    ensures var r := IngestOutcome(fs, basePath, req, uid, parse, canon);
            || Untouched(r, fs)
            || (&& UploadOf(req).Some? && UploadOf(req).value.mediaType in AllowedTypes
                && UploadOf(req).value.uploaded.Some?
                && r == IngestPackage(fs, basePath, req.content, UploadOf(req).value.name,
                                      UploadOf(req).value.uploaded.value,
                                      ExtensionOf(UploadOf(req).value.name) == "elp", uid, parse, canon))
  {
    if UploadOf(req).Some? {
      var up := UploadOf(req).value;
      if up.mediaType in AllowedTypes && up.uploaded.Some? {
        if ExtensionOf(up.name) != "elp" {
          IngestOtherExtension(fs, basePath, req, uid, parse, canon);
        } else {
          IngestElpExtension(fs, basePath, req, uid, parse, canon);
        }
      }
    }
  }

  /** An allowed, uploaded file whose extension is not `elp` goes straight to the package steps. */
  lemma IngestOtherExtension(fs: Fs, basePath: string, req: Request, uid: string,
                             parse: string -> Option<Element>, canon: string -> Option<string>)
    requires UploadOf(req).Some? && UploadOf(req).value.mediaType in AllowedTypes
    requires UploadOf(req).value.uploaded.Some? && ExtensionOf(UploadOf(req).value.name) != "elp"
    ensures IngestOutcome(fs, basePath, req, uid, parse, canon)
            == IngestPackage(fs, basePath, req.content, UploadOf(req).value.name,
                             UploadOf(req).value.uploaded.value, false, uid, parse, canon)
  {
    assert UploadOf(req).value == req.files.value[req.content["file_index"].value];
  }

  /** An allowed, uploaded `.elp` goes on to the package steps as eXe 3.x, or stops with no effect. */
  lemma IngestElpExtension(fs: Fs, basePath: string, req: Request, uid: string,
                           parse: string -> Option<Element>, canon: string -> Option<string>)
    requires UploadOf(req).Some? && UploadOf(req).value.mediaType in AllowedTypes
    requires UploadOf(req).value.uploaded.Some? && ExtensionOf(UploadOf(req).value.name) == "elp"
    ensures var t := UploadOf(req).value.uploaded.value;
            var r := IngestOutcome(fs, basePath, req, uid, parse, canon);
            if t.Opens() && KindOf(Names(t.zip.entries)) == Exe3
            then r == IngestPackage(fs, basePath, req.content, UploadOf(req).value.name, t, true, uid, parse, canon)
            else Untouched(r, fs)
  {
    assert UploadOf(req).value == req.files.value[req.content["file_index"].value];
  }

  /** Validation and extraction: the disk is changed only by the extractor, data is set only after it succeeded. */
  lemma PackageEffects(fs: Fs, basePath: string, content: map<string, Option<string>>, filename: string,
                       t: TempFile, isExe3: bool, uid: string,
                       parse: string -> Option<Element>, canon: string -> Option<string>)
    ensures var r := IngestPackage(fs, basePath, content, filename, t, isExe3, uid, parse, canon);
            var x := E.ExtractScormPackage(fs, basePath, DirName(uid), t, canon);
            && (r.fs == fs || r.fs == x.fs)
            && (r.data.Some? ==> x.path.Some? && r.errors == [] && r.fs == x.fs)
            && (r.source.Some? ==> r.data.Some?)
  {
  }

  /** Only the extractor changes the filesystem, and media data is set only after it succeeded. */
  lemma OnlyExtractionChangesDisk(fs: Fs, basePath: string, req: Request, uid: string,
                                  parse: string -> Option<Element>, canon: string -> Option<string>)
    ensures var r := IngestOutcome(fs, basePath, req, uid, parse, canon);
            && (r.fs == fs || (UploadOf(req).Some? && UploadOf(req).value.uploaded.Some?
                               && r.fs == E.ExtractScormPackage(fs, basePath, DirName(uid), UploadOf(req).value.uploaded.value, canon).fs))
            && (r.data.Some? ==> && UploadOf(req).Some? && UploadOf(req).value.mediaType in AllowedTypes
                                 && UploadOf(req).value.uploaded.Some?
                                 && E.ExtractScormPackage(fs, basePath, DirName(uid), UploadOf(req).value.uploaded.value, canon).path.Some?
                                 && r.errors == [])
  {
    IngestSplits(fs, basePath, req, uid, parse, canon);
    if UploadOf(req).Some? && UploadOf(req).value.uploaded.Some? {
      var up := UploadOf(req).value;
      PackageEffects(fs, basePath, req.content, up.name, up.uploaded.value, ExtensionOf(up.name) == "elp", uid, parse, canon);
    }
  }

  /** An .elp archive is either eXe 3.x, or rejected with one "elp" error and no other effect. */
  lemma ElpClassified(fs: Fs, basePath: string, req: Request, uid: string,
                      parse: string -> Option<Element>, canon: string -> Option<string>)
    requires UploadOf(req).Some? && UploadOf(req).value.mediaType in AllowedTypes
    requires UploadOf(req).value.uploaded.Some? && ExtensionOf(UploadOf(req).value.name) == "elp"
    ensures var t := UploadOf(req).value.uploaded.value;
            var r := IngestOutcome(fs, basePath, req, uid, parse, canon);
            !(t.Opens() && KindOf(Names(t.zip.entries)) == Exe3) ==>
              && r == Ingested(Returned, r.errors, fs, None, None)
              && r.errors == [Error("elp", if !t.Opens() then MsgElpOpen
                                           else if KindOf(Names(t.zip.entries)) == Legacy then MsgElpLegacy
                                           else MsgElpUnexpected)]
  {
  }

  /** A package that is not eXe 3.x must pass the classifier; its errors are then the classifier's. */
  lemma ScormMustValidate(fs: Fs, basePath: string, req: Request, uid: string,
                          parse: string -> Option<Element>, canon: string -> Option<string>)
    requires UploadOf(req).Some? && UploadOf(req).value.mediaType in AllowedTypes
    requires UploadOf(req).value.uploaded.Some? && ExtensionOf(UploadOf(req).value.name) != "elp"
    ensures var t := UploadOf(req).value.uploaded.value;
            var r := IngestOutcome(fs, basePath, req, uid, parse, canon);
            && (r.data.Some? ==> C.IsValidScormPackage(t, parse).ok)
            && (!C.IsValidScormPackage(t, parse).ok ==> r == Ingested(Returned, C.IsValidScormPackage(t, parse).errors, fs, None, None))
  {
  }

  /**
    An eXe 3.x package skips the classifier; once extracted, its data says
    "eXeLearning", its entry point is `index.html` and its title falls back
    to "eXeLearning 3.x" when the manifest gives none.
   */
  lemma Exe3Stored(fs: Fs, basePath: string, req: Request, uid: string,
                   parse: string -> Option<Element>, canon: string -> Option<string>)
    requires UploadOf(req).Some? && UploadOf(req).value.mediaType in AllowedTypes
    requires UploadOf(req).value.uploaded.Some? && ExtensionOf(UploadOf(req).value.name) == "elp"
    requires var t := UploadOf(req).value.uploaded.value; t.Opens() && KindOf(Names(t.zip.entries)) == Exe3
    requires E.ExtractScormPackage(fs, basePath, DirName(uid), UploadOf(req).value.uploaded.value, canon).path.Some?
    ensures var t := UploadOf(req).value.uploaded.value;
            var x := E.ExtractScormPackage(fs, basePath, DirName(uid), t, canon);
            var info := M.ReadInfo(x.fs, x.path.value, parse);
            var r := IngestOutcome(fs, basePath, req, uid, parse, canon);
            && r.data.Some? && r.data.value.loData.Some?
            && r.data.value.loData.value.kind == "eXeLearning"
            && r.data.value.loData.value.scormInfo["entry_point"] == "index.html"
            && r.data.value.loData.value.scormInfo["title"]
               == (if info.Some? && Truthy(info.value.title) then info.value.title else Exe3Title)
  {
  }

  /**
    A successful ingest marks the media as a learning object, records the
    kind by extension and the nominal directory name `scorm_<uid>`, and
    sets the source to the uploaded name exactly when the request has no
    `o:source` key.
   */
  lemma SuccessRecorded(fs: Fs, basePath: string, req: Request, uid: string,
                        parse: string -> Option<Element>, canon: string -> Option<string>)
    requires IngestOutcome(fs, basePath, req, uid, parse, canon).data.Some?
    ensures var r := IngestOutcome(fs, basePath, req, uid, parse, canon);
            var up := UploadOf(req).value;
            && r.data.value.learningObject == Some(true)
            && r.data.value.loData.Some?
            && r.data.value.loData.value.extractionPath == Some(DirName(uid))
            && r.data.value.loData.value.kind == (if ExtensionOf(up.name) == "elp" then "eXeLearning" else "SCORM")
            && (r.source.Some? <==> "o:source" !in req.content)
            && (r.source.Some? ==> r.source.value == up.name)
  {
    IngestSplits(fs, basePath, req, uid, parse, canon);
  }

  /** Without a successful extraction no source is set either. */
  lemma SourceOnlyWithData(fs: Fs, basePath: string, req: Request, uid: string,
                           parse: string -> Option<Element>, canon: string -> Option<string>)
    ensures var r := IngestOutcome(fs, basePath, req, uid, parse, canon);
            r.source.Some? ==> r.data.Some?
  {
    IngestSplits(fs, basePath, req, uid, parse, canon);
    if UploadOf(req).Some? && UploadOf(req).value.uploaded.Some? {
      var up := UploadOf(req).value;
      PackageEffects(fs, basePath, req.content, up.name, up.uploaded.value, ExtensionOf(up.name) == "elp", uid, parse, canon);
    }
  }

  /**
    As written: when `basePath/original/scorm_<uid>` already exists, the
    files go to a disambiguated directory, yet the nominal name is what is
    stored, so the stored path names the pre-existing directory instead.
   */
  lemma CollisionStoresOtherPath(fs: Fs, basePath: string, req: Request, uid: string,
                                 parse: string -> Option<Element>, canon: string -> Option<string>)
    requires IngestOutcome(fs, basePath, req, uid, parse, canon).data.Some?
    requires E.NominalPath(basePath, DirName(uid)) in fs
    ensures var r := IngestOutcome(fs, basePath, req, uid, parse, canon);
            var nominal := E.NominalPath(basePath, DirName(uid));
            && r.data.value.loData.Some?
            && r.data.value.loData.value.extractionPath == Some(DirName(uid))
            && nominal in fs
            && nominal != E.ChosenPath(fs, basePath, DirName(uid))
  {
    SuccessRecorded(fs, basePath, req, uid, parse, canon);
    E.ChosenPathFresh(fs, basePath, DirName(uid));
  }

  /**
    Extraction and manifest read round trip: after a successful extraction
    into a directory that is its own canonical form, `getScormInfo` reads
    back what the archive's last `imsmanifest.xml` entry says.
   */
  lemma ExtractThenRead(fs: Fs, basePath: string, dirName: string, t: TempFile,
                        canon: string -> Option<string>, parse: string -> Option<Element>,
                        i: nat, c: string, x: Element)
    requires E.ExtractScormPackage(fs, basePath, dirName, t, canon).path.Some?
    requires var p := E.ExtractScormPackage(fs, basePath, dirName, t, canon).path.value; canon(p) == Some(p)
    requires E.LastWithName(t.zip.entries, i) && t.zip.entries[i].name == C.ManifestName
    requires t.zip.entries[i].content == Some(c) && parse(c) == Some(x)
    ensures var r := E.ExtractScormPackage(fs, basePath, dirName, t, canon);
            M.ReadInfo(r.fs, r.path.value, parse) == Some(M.InfoOf(x))
  {
    var r := E.ExtractScormPackage(fs, basePath, dirName, t, canon);
    E.ExtractionSuccessContents(fs, basePath, dirName, t, canon);
    ManifestNotSkipped();
    E.ExtractedHolds(r.fs, r.path.value, t.zip.entries, canon, i);
    ReadBackManifest(r.fs, r.path.value, parse, c, x);
  }

  /** A manifest file holding bytes that parse is read as the info of the parsed document. */
  lemma ReadBackManifest(fs: Fs, p: string, parse: string -> Option<Element>, c: string, x: Element)
    requires E.Target(p, C.ManifestName) in fs && fs[E.Target(p, C.ManifestName)] == File(c)
    requires parse(c) == Some(x)
    ensures M.ReadInfo(fs, p, parse) == Some(M.InfoOf(x))
  {
    assert M.ManifestPath(p) == E.Target(p, C.ManifestName);
    M.ReadInfoParsed(fs, p, parse, c, x);
  }

  /** The extractor writes the manifest: its name is neither a directory marker nor hidden. */
  lemma ManifestNotSkipped()
    ensures !E.Skipped(C.ManifestName)
  {
    assert C.ManifestName[|C.ManifestName| - 1] == 'l';
    assert !EndsWith(C.ManifestName, "/");
    assert StripTrailingSlashes(C.ManifestName) == C.ManifestName;
    assert LastIndexOf(C.ManifestName, '/').None?;
    assert BaseName(C.ManifestName) == C.ManifestName;
    assert C.ManifestName[..1] == "i";
  }

  /**
    A package ingested into a directory that is its own canonical form
    stores, as `scorm_info`, the fields of the archive's manifest.
   */
  lemma PackageStoresManifestInfo(fs: Fs, basePath: string, content: map<string, Option<string>>, filename: string,
                                  t: TempFile, isExe3: bool, uid: string,
                                  parse: string -> Option<Element>, canon: string -> Option<string>,
                                  i: nat, c: string, x: Element)
    requires IngestPackage(fs, basePath, content, filename, t, isExe3, uid, parse, canon).data.Some?
    requires var p := E.ChosenPath(fs, basePath, DirName(uid)); canon(p) == Some(p)
    requires E.LastWithName(t.zip.entries, i) && t.zip.entries[i].name == C.ManifestName
    requires t.zip.entries[i].content == Some(c) && parse(c) == Some(x)
    ensures var d := IngestPackage(fs, basePath, content, filename, t, isExe3, uid, parse, canon).data.value;
            d.loData.Some? && d.loData.value.scormInfo == StoredInfo(isExe3, Some(M.InfoOf(x)))
  {
    PackageEffects(fs, basePath, content, filename, t, isExe3, uid, parse, canon);
    E.ExtractedPathFresh(fs, basePath, DirName(uid), t, canon);
    ExtractThenRead(fs, basePath, DirName(uid), t, canon, parse, i, c, x);
  }

  // ---- the ingester as an object ----

  /** The Media entity: its data array and its source. */
  class Media {
    var data: MediaData
    var source: Option<string>

    constructor (data: MediaData, source: Option<string>)
      ensures this.data == data && this.source == source
    {
      this.data := data;
      this.source := source;
    }

    method SetData(d: MediaData)
      modifies this
      ensures data == d && source == old(source)
    {
      data := d;
    }

    method SetSource(s: string)
      modifies this
      ensures source == Some(s) && data == old(data)
    {
      source := Some(s);
    }
  }

  class LearningObject {
    const manager: PM.ScormPackageManager

    constructor (manager: PM.ScormPackageManager)
      ensures this.manager == manager
    {
      this.manager := manager;
    }

    /** The name loop over an .elp archive: which of the three marker files it contains, by exact name. */
    method ScanElp(entries: seq<Entry>) returns (hasContentXml: bool, hasIndexHtml: bool, hasContentV3Xml: bool)
      ensures hasContentXml <==> "content.xml" in Names(entries)
      ensures hasIndexHtml <==> "index.html" in Names(entries)
      ensures hasContentV3Xml <==> "contentv3.xml" in Names(entries)
    {
      hasContentXml, hasIndexHtml, hasContentV3Xml := false, false, false;
      for i := 0 to |entries|
        invariant hasContentXml <==> "content.xml" in Names(entries)[..i]
        invariant hasIndexHtml <==> "index.html" in Names(entries)[..i]
        invariant hasContentV3Xml <==> "contentv3.xml" in Names(entries)[..i]
      {
        assert Names(entries)[..i + 1] == Names(entries)[..i] + [entries[i].name];
        var name := entries[i].name;
        if name == "content.xml" {
          hasContentXml := true;
        }
        if name == "index.html" {
          hasIndexHtml := true;
        }
        if name == "contentv3.xml" {
          hasContentV3Xml := true;
        }
      }
      assert Names(entries)[..|entries|] == Names(entries);
    }

    /** `ingest`: returns the exception it throws, if any. */
    method Ingest(media: Media, req: Request, errors: ErrorStore, disk: Disk, uid: string,
                  parse: string -> Option<Element>, canon: string -> Option<string>) returns (exit: Exit)
      requires disk.Valid()
      modifies media, errors, disk
      ensures disk.Valid()
      ensures var r := IngestOutcome(old(disk.nodes), manager.basePath, req, uid, parse, canon);
              && exit == r.exit
              && disk.nodes == r.fs
              && errors.errors == AddAll(old(errors.errors), r.errors)
              && media.data == (if r.data.Some? then r.data.value else old(media.data))
              && media.source == (if r.source.Some? then r.source else old(media.source))
    {
      var data := req.content;
      if req.files.None? {
        errors.AddError("error", MsgNoFiles);
        return Returned;
      }
      var fileData := req.files.value;
      if "file_index" !in data || data["file_index"].None? {
        errors.AddError("error", MsgNoIndex);
        return Returned;
      }
      var index := data["file_index"].value;
      if index !in fileData {
        errors.AddError("error", MsgNoUpload);
        return Returned;
      }
      var filename := fileData[index].name;
      var extension := Lower(Extension(filename));
      if fileData[index].mediaType !in AllowedTypes {
        return Thrown(MsgInvalidFormat);
      }
      if fileData[index].uploaded.None? {
        return Returned;
      }
      var tempFile := fileData[index].uploaded.value;
      var isExeLearning3 := false;
      if extension == "elp" {
        if !tempFile.Opens() {
          errors.AddError("elp", MsgElpOpen);
          return Returned;
        }
        var hasContentXml, hasIndexHtml, hasContentV3Xml := ScanElp(tempFile.zip.entries);
        if hasContentXml && hasIndexHtml {
          isExeLearning3 := true;
        } else if hasContentV3Xml && !hasIndexHtml {
          errors.AddError("elp", MsgElpLegacy);
          return Returned;
        } else {
          errors.AddError("elp", MsgElpUnexpected);
          return Returned;
        }
      }
      ghost var fs0 := disk.nodes;
      ghost var errors0 := errors.errors;
      assert IngestOutcome(fs0, manager.basePath, req, uid, parse, canon)
             == IngestPackage(fs0, manager.basePath, data, filename, tempFile, isExeLearning3, uid, parse, canon);
      if !isExeLearning3 {
        var valid := manager.IsValidScormPackage(tempFile, errors, parse);
        if !valid {
          return Returned;
        }
      }
      var extractionDir := "scorm_" + uid;
      var extractedPath := manager.ExtractScormPackage(tempFile, extractionDir, errors, disk, canon);
      if extractedPath.None? {
        return Returned;
      }
      var scormInfo := manager.GetScormInfo(disk, extractedPath.value, parse);
      var stored: map<string, string> := if scormInfo.Some? then scormInfo.value.AsArray() else map[];
      if isExeLearning3 {
        stored := stored["entry_point" := "index.html"];
        stored := stored["title" := if "title" in stored && Truthy(stored["title"]) then stored["title"] else Exe3Title];
      }
      var kind := if extension == "elp" then "eXeLearning" else "SCORM";
      media.SetData(MediaData(Some(true), Some(LoData(kind, Some(extractionDir), stored))));
      if "o:source" !in data {
        media.SetSource(filename);
      }
      return Returned;
    }
  }
}
