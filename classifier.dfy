/**
  The package classifier of ScormPackageManager: `isValidScormPackage` and
  `validateManifestContent` as functions from the uploaded temporary file
  (and the XML parser, which is given) to a verdict and the errors it adds
  to the ErrorStore.
 */
module ScormClassifier {
  import opened Wrappers
  import opened Paths
  import opened Archive
  import opened Xml
  import opened Errors

  /** The file a package must contain, matched by base name. */
  const ManifestName := "imsmanifest.xml"

  const RequiredFiles: seq<string> := [ManifestName]

  /** Schema files counted as soft evidence; the count is never used. */
  const OptionalFiles: seq<string> := ["adlcp_rootv1p2.xsd", "ims_xml.xsd", "imscp_rootv1p1p2.xsd", "imsmd_rootv1p2p1.xsd"]

  /** Markers searched case-insensitively in the manifest text. */
  const Indicators: seq<string> := ["adlcp:", "schemaversion", "scorm", "sco", "asset"]

  const MsgUploadMissing := "Uploaded file does not exist."
  const MsgMissingManifest := "Invalid SCORM package: missing imsmanifest.xml file."
  const MsgOpenForValidation := "Could not open zip file for manifest validation."
  const MsgUnreadableManifest := "Could not read imsmanifest.xml content."
  const MsgInvalidXml := "Invalid XML in imsmanifest.xml file."
  const MsgMissingElements := "Missing required manifest elements."

  /** A yes/no answer together with the errors added on the way. */
  datatype Check = Check(ok: bool, errors: seq<Error>)

  /** How many of `names` have a base name listed in `targets`. */
  function CountBaseNames(names: seq<string>, targets: seq<string>): nat
    decreases |names|
  {
    if names == [] then 0
    else (if BaseName(names[0]) in targets then 1 else 0) + CountBaseNames(names[1..], targets)
  }

  lemma {:induction false} CountBaseNamesZero(names: seq<string>, targets: seq<string>)
    ensures CountBaseNames(names, targets) == 0 <==> forall i :: 0 <= i < |names| ==> BaseName(names[i]) !in targets
    decreases |names|
  {
    if names != [] {
      CountBaseNamesZero(names[1..], targets);
      assert forall i :: 1 <= i < |names| ==> names[1..][i - 1] == names[i];
    }
  }

  lemma {:induction false} CountBaseNamesAppend(names: seq<string>, x: string, targets: seq<string>)
    ensures CountBaseNames(names + [x], targets) == CountBaseNames(names, targets) + (if BaseName(x) in targets then 1 else 0)
    decreases |names|
  {
    if names == [] {
      assert [x][1..] == [];
    } else {
      assert (names + [x])[1..] == names[1..] + [x];
      CountBaseNamesAppend(names[1..], x, targets);
    }
  }

  /** How many of `markers` occur in `content`, ignoring ASCII case. */
  function CountMarkers(content: string, markers: seq<string>): nat
    decreases |markers|
  {
    if markers == [] then 0
    else (if ContainsIgnoreCase(content, markers[0]) then 1 else 0) + CountMarkers(content, markers[1..])
  }

  lemma {:induction false} CountMarkersZero(content: string, markers: seq<string>)
    ensures CountMarkers(content, markers) == 0 <==> forall m :: m in markers ==> !ContainsIgnoreCase(content, m)
    decreases |markers|
  {
    if markers != [] {
      CountMarkersZero(content, markers[1..]);
      assert forall m :: m in markers ==> m == markers[0] || m in markers[1..];
    }
  }

  /** Some SCORM marker occurs in the manifest text. */
  predicate HasIndicator(content: string) {
    exists m :: m in Indicators && ContainsIgnoreCase(content, m)
  }

  /** `isset($xml->metadata) && isset($xml->organizations) && isset($xml->resources)`. */
  predicate HasManifestSections(x: Element) {
    Child(x, "metadata").Some? && Child(x, "organizations").Some? && Child(x, "resources").Some?
  }

  /** The acceptance rule applied to the text of the root manifest. */
  function CheckManifestText(content: string, parse: string -> Option<Element>): (r: Check)
    ensures r.ok <==> HasIndicator(content) || (parse(content).Some? && HasManifestSections(parse(content).value))
    ensures r.ok <==> r.errors == []
  {
    CountMarkersZero(content, Indicators);
    if CountMarkers(content, Indicators) == 0 then
      match parse(content)
      case None => Check(false, [Error("scorm", MsgInvalidXml)])
      case Some(x) =>
        if !HasManifestSections(x) then Check(false, [Error("scorm", MsgMissingElements)])
        else Check(true, [])
    else Check(true, [])
  }

  /** `validateManifestContent`: reopen the archive, read `imsmanifest.xml` by exact name, check it. */
  function ValidateManifestContent(t: TempFile, parse: string -> Option<Element>): (r: Check)
    ensures r.ok <==> t.Opens() && FromName(t.zip.entries, ManifestName).Some?
                      && CheckManifestText(FromName(t.zip.entries, ManifestName).value, parse).ok
  {
    if !t.Opens() then Check(false, [Error("scorm", MsgOpenForValidation)])
    else match FromName(t.zip.entries, ManifestName)
      case None => Check(false, [Error("scorm", MsgUnreadableManifest)])
      case Some(content) => CheckManifestText(content, parse)
  }

  /** `isValidScormPackage`. */
  function IsValidScormPackage(t: TempFile, parse: string -> Option<Element>): (r: Check)
    ensures r.ok <==> r.errors == []
    ensures forall e :: e in r.errors ==> e.key == "scorm"
    ensures |r.errors| <= 1
  {
    if !t.present then Check(false, [Error("scorm", MsgUploadMissing)])
    else if !t.zip.opens then Check(false, [Error("scorm", "Could not open zip file. Error code: " + NatToString(t.zip.errorCode))])
    else if CountBaseNames(Names(t.zip.entries), RequiredFiles) == 0 then Check(false, [Error("scorm", MsgMissingManifest)])
    else ValidateManifestContent(t, parse)
  }

  /** Some entry, wherever it sits in the archive, is called `imsmanifest.xml`. */
  predicate SomeManifestBaseName(entries: seq<Entry>) {
    exists i :: 0 <= i < |entries| && BaseName(entries[i].name) == ManifestName
  }

  lemma ManifestCount(entries: seq<Entry>)
    ensures CountBaseNames(Names(entries), RequiredFiles) != 0 <==> SomeManifestBaseName(entries)
  {
    CountBaseNamesZero(Names(entries), RequiredFiles);
  }

  /** Without an entry whose base name is the manifest, the package is rejected with the missing-manifest error. */
  lemma MissingManifestRejected(t: TempFile, parse: string -> Option<Element>)
    requires t.Opens() && !SomeManifestBaseName(t.zip.entries)
    ensures IsValidScormPackage(t, parse) == Check(false, [Error("scorm", MsgMissingManifest)])
  {
    ManifestCount(t.zip.entries);
  }

  /** A manifest that exists only below a directory passes the count and then cannot be read. */
  lemma NestedManifestUnreadable(t: TempFile, parse: string -> Option<Element>)
    requires t.Opens() && SomeManifestBaseName(t.zip.entries)
    requires forall i :: 0 <= i < |t.zip.entries| ==> t.zip.entries[i].name != ManifestName
    ensures IsValidScormPackage(t, parse) == Check(false, [Error("scorm", MsgUnreadableManifest)])
  {
    ManifestCount(t.zip.entries);
  }

  /**
    The acceptance rule, both ways: an openable archive that names the
    manifest is accepted exactly when the root manifest can be read and
    either carries a marker or parses with the three sections.
   */
  lemma AcceptanceRule(t: TempFile, parse: string -> Option<Element>)
    requires t.Opens() && SomeManifestBaseName(t.zip.entries)
    ensures IsValidScormPackage(t, parse).ok <==>
      exists content ::
        FromName(t.zip.entries, ManifestName) == Some(content)
        && (HasIndicator(content) || (parse(content).Some? && HasManifestSections(parse(content).value)))
  {
    ManifestCount(t.zip.entries);
  }

  /** A name without '/' is its own base name. */
  lemma BaseNameOfPlainName(s: string)
    requires forall i :: 0 <= i < |s| ==> s[i] != '/'
    ensures BaseName(s) == s
  {
    assert StripTrailingSlashes(s) == s;
  }

  /**
    Adding an entry whose base name is one of the optional schema files,
    in any directory, never changes the verdict or the errors.
   */
  lemma OptionalFilesIrrelevant(t: TempFile, e: Entry, parse: string -> Option<Element>)
    requires BaseName(e.name) in OptionalFiles
    ensures IsValidScormPackage(t.(zip := t.zip.(entries := t.zip.entries + [e])), parse)
            == IsValidScormPackage(t, parse)
  {
    var es := t.zip.entries + [e];
    assert Names(es) == Names(t.zip.entries) + [e.name];
    assert BaseName(e.name) !in RequiredFiles;
    CountBaseNamesAppend(Names(t.zip.entries), e.name, RequiredFiles);
    assert e.name != ManifestName by {
      if e.name == ManifestName {
        BaseNameOfPlainName(e.name);
      }
    }
    FromNameAppend(t.zip.entries, e, ManifestName);
    SameInputsSameVerdict(t, t.(zip := t.zip.(entries := es)), parse);
  }

  /** The classifier looks at the archive only through the manifest count and the root manifest's content. */
  lemma SameInputsSameVerdict(t: TempFile, t': TempFile, parse: string -> Option<Element>)
    requires t'.present == t.present && t'.zip.opens == t.zip.opens && t'.zip.errorCode == t.zip.errorCode
    requires CountBaseNames(Names(t'.zip.entries), RequiredFiles) == CountBaseNames(Names(t.zip.entries), RequiredFiles)
    requires FromName(t'.zip.entries, ManifestName) == FromName(t.zip.entries, ManifestName)
    ensures IsValidScormPackage(t', parse) == IsValidScormPackage(t, parse)
  {
  }

  /** The "scorm" marker adds nothing: every text containing it also contains "sco". */
  lemma ScormMarkerSubsumed(content: string)
    ensures HasIndicator(content) <==>
      ContainsIgnoreCase(content, "adlcp:") || ContainsIgnoreCase(content, "schemaversion")
      || ContainsIgnoreCase(content, "sco") || ContainsIgnoreCase(content, "asset")
  {
    if ContainsIgnoreCase(content, "scorm") {
      assert Lower("scorm") == "scorm";
      assert Lower("sco") == "sco";
      assert "scorm"[0..3] == "sco";
      ContainsThrough(Lower(content), "scorm", "sco", 0);
    }
    assert "sco" in Indicators;
  }
}
