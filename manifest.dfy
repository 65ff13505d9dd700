/**
  The manifest reader of ScormPackageManager (`getScormInfo`): the five
  fields it pulls out of the extracted `imsmanifest.xml`, as a function of
  the parsed document, and the whole read as a function of the filesystem.
 */
module ScormManifest {
  import opened Wrappers
  import opened Xml
  import opened FileSystem

  /** The array `getScormInfo` returns. */
  datatype ScormInfo = ScormInfo(title: string, description: string, version: string,
                                 schemaversion: string, entryPoint: string)
  {
    /** The PHP array with its five keys. */
    function AsArray(): (r: map<string, string>)
      ensures r.Keys == InfoKeys
      ensures r["entry_point"] == entryPoint && r["title"] == title
    {
      map["title" := title, "description" := description, "version" := version,
          "schemaversion" := schemaversion, "entry_point" := entryPoint]
    }
  }

  const InfoKeys: set<string> := {"title", "description", "version", "schemaversion", "entry_point"}

  const LomTitle: seq<string> := ["metadata", "lom", "general", "title", "langstring"]
  const OrgTitle: seq<string> := ["organizations", "organization", "title"]
  const LomDescription: seq<string> := ["metadata", "lom", "general", "description", "langstring"]
  const SchemaVersion: seq<string> := ["metadata", "schemaversion"]
  const FirstOrganization: seq<string> := ["organizations", "organization"]

  /** The title: the first organization's title when there is one, else the LOM title, else "". */
  function TitleOf(x: Element): string {
    if Path(x, OrgTitle).Some? then TextAt(x, OrgTitle)
    else if Path(x, LomTitle).Some? then TextAt(x, LomTitle)
    else ""
  }

  /** The `identifierref` of the first item that has one. */
  function FirstRef(items: seq<Element>): (r: Option<string>)
    ensures r.None? <==> forall k :: 0 <= k < |items| ==> "identifierref" !in items[k].attributes
    ensures r.Some? ==> exists k :: 0 <= k < |items| && "identifierref" in items[k].attributes
                                    && r.value == items[k].attributes["identifierref"]
                                    && forall j :: 0 <= j < k ==> "identifierref" !in items[j].attributes
    decreases |items|
  {
    if items == [] then None
    else if "identifierref" in items[0].attributes then Some(items[0].attributes["identifierref"])
    else
      var r := FirstRef(items[1..]);
      assert forall k :: 1 <= k < |items| ==> items[1..][k - 1] == items[k];
      r
  }

  /** The first resource whose `identifier` (missing counts as "") equals `id`. */
  function FindResource(resources: seq<Element>, id: string): (r: Option<Element>)
    ensures r.None? <==> forall k :: 0 <= k < |resources| ==> Attr(resources[k], "identifier") != id
    ensures r.Some? ==> exists k :: 0 <= k < |resources| && resources[k] == r.value
                                    && Attr(resources[k], "identifier") == id
                                    && forall j :: 0 <= j < k ==> Attr(resources[j], "identifier") != id
    decreases |resources|
  {
    if resources == [] then None
    else if Attr(resources[0], "identifier") == id then Some(resources[0])
    else
      var r := FindResource(resources[1..], id);
      assert forall k :: 1 <= k < |resources| ==> resources[1..][k - 1] == resources[k];
      r
  }

  /** The items of the first organization, in document order ([] without one). */
  function ItemsOf(x: Element): seq<Element> {
    match Path(x, FirstOrganization)
    case None => []
    case Some(org) => ChildrenNamed(org, "item")
  }

  /** The resources of the first `resources` element ([] without one). */
  function ResourcesOf(x: Element): seq<Element> {
    match Child(x, "resources")
    case None => []
    case Some(res) => ChildrenNamed(res, "resource")
  }

  /**
    The launch file: only the first item with an `identifierref` is looked
    up; its first matching resource gives `href` (missing counts as "").
   */
  function EntryPointOf(x: Element): string {
    match FirstRef(ItemsOf(x))
    case None => ""
    case Some(id) =>
      match FindResource(ResourcesOf(x), id)
      case None => ""
      case Some(r) => Attr(r, "href")
  }

  /** The information read from a parsed manifest; `version` is never filled in. */
  function InfoOf(x: Element): ScormInfo {
    ScormInfo(TitleOf(x), TextAt(x, LomDescription), "", TextAt(x, SchemaVersion), EntryPointOf(x))
  }

  /** The manifest's path inside an extraction directory. */
  function ManifestPath(extractedPath: string): string {
    extractedPath + "/imsmanifest.xml"
  }

  /**
    `getScormInfo`: false (None) when the manifest does not exist, is a
    directory (loading it fails) or is not well-formed XML.
   */
  function ReadInfo(fs: Fs, extractedPath: string, parse: string -> Option<Element>): (r: Option<ScormInfo>)
    ensures r.Some? <==> ManifestPath(extractedPath) in fs && fs[ManifestPath(extractedPath)].File?
                         && parse(fs[ManifestPath(extractedPath)].content).Some?
  {
    var m := ManifestPath(extractedPath);
    if m !in fs then None
    else match fs[m]
      case Dir => None
      case File(c) =>
        match parse(c)
        case None => None
        case Some(x) => Some(InfoOf(x))
  }

  // ---- properties ----

  /** The version is always empty and the description and schema version are read from the metadata. */
  lemma InfoFields(x: Element)
    ensures InfoOf(x).version == ""
    ensures Path(x, LomDescription).None? ==> InfoOf(x).description == ""
    ensures Path(x, LomDescription).Some? ==> InfoOf(x).description == Path(x, LomDescription).value.text
    ensures Path(x, SchemaVersion).None? ==> InfoOf(x).schemaversion == ""
    ensures Path(x, SchemaVersion).Some? ==> InfoOf(x).schemaversion == Path(x, SchemaVersion).value.text
  {
  }

  /** The organization's title wins over the LOM title; the LOM title is used only without one. */
  lemma OrganizationTitleWins(x: Element)
    ensures Path(x, OrgTitle).Some? ==> InfoOf(x).title == Path(x, OrgTitle).value.text
    ensures Path(x, OrgTitle).None? && Path(x, LomTitle).Some? ==> InfoOf(x).title == Path(x, LomTitle).value.text
    ensures Path(x, OrgTitle).None? && Path(x, LomTitle).None? ==> InfoOf(x).title == ""
  {
  }

  /** Without an item that carries an `identifierref`, the entry point is "". */
  lemma EntryPointWithoutReference(x: Element)
    requires forall k :: 0 <= k < |ItemsOf(x)| ==> "identifierref" !in ItemsOf(x)[k].attributes
    ensures EntryPointOf(x) == ""
  {
  }

  /**
    The entry point, characterised by positions: when item k is the first
    with an `identifierref` and resource j is the first whose identifier
    equals it, the entry point is resource j's `href`.
   */
  lemma EntryPointCharacterised(x: Element, k: nat, j: nat)
    requires k < |ItemsOf(x)| && "identifierref" in ItemsOf(x)[k].attributes
    requires forall i :: 0 <= i < k ==> "identifierref" !in ItemsOf(x)[i].attributes
    requires j < |ResourcesOf(x)| && Attr(ResourcesOf(x)[j], "identifier") == ItemsOf(x)[k].attributes["identifierref"]
    requires forall i :: 0 <= i < j ==> Attr(ResourcesOf(x)[i], "identifier") != ItemsOf(x)[k].attributes["identifierref"]
    ensures EntryPointOf(x) == Attr(ResourcesOf(x)[j], "href")
  {
    var items, rs := ItemsOf(x), ResourcesOf(x);
    var id := FirstRef(items).value;
    var k' :| 0 <= k' < |items| && "identifierref" in items[k'].attributes
              && id == items[k'].attributes["identifierref"]
              && forall i :: 0 <= i < k' ==> "identifierref" !in items[i].attributes;
    assert k' == k;
    var r := FindResource(rs, id).value;
    var j' :| 0 <= j' < |rs| && rs[j'] == r && Attr(rs[j'], "identifier") == id
              && forall i :: 0 <= i < j' ==> Attr(rs[i], "identifier") != id;
    assert j' == j;
  }

  /** As written: when the first referencing item matches no resource, later items are not tried. */
  lemma OnlyFirstReferenceTried(x: Element, k: nat)
    requires k < |ItemsOf(x)| && "identifierref" in ItemsOf(x)[k].attributes
    requires forall i :: 0 <= i < k ==> "identifierref" !in ItemsOf(x)[i].attributes
    requires forall j :: 0 <= j < |ResourcesOf(x)| ==>
               Attr(ResourcesOf(x)[j], "identifier") != ItemsOf(x)[k].attributes["identifierref"]
    ensures EntryPointOf(x) == ""
  {
    var items := ItemsOf(x);
    var id := FirstRef(items).value;
    var k' :| 0 <= k' < |items| && "identifierref" in items[k'].attributes
              && id == items[k'].attributes["identifierref"]
              && forall i :: 0 <= i < k' ==> "identifierref" !in items[i].attributes;
    assert k' == k;
  }

  /** A manifest that exists and parses yields exactly the information of the parsed document. */
  lemma ReadInfoParsed(fs: Fs, extractedPath: string, parse: string -> Option<Element>, c: string, x: Element)
    requires ManifestPath(extractedPath) in fs && fs[ManifestPath(extractedPath)] == File(c)
    requires parse(c) == Some(x)
    ensures ReadInfo(fs, extractedPath, parse) == Some(InfoOf(x))
  {
  }

  /** The returned array always has the five keys, the version always "". */
  lemma ReadInfoShape(fs: Fs, extractedPath: string, parse: string -> Option<Element>)
    requires ReadInfo(fs, extractedPath, parse).Some?
    ensures ReadInfo(fs, extractedPath, parse).value.AsArray().Keys == InfoKeys
    ensures ReadInfo(fs, extractedPath, parse).value.AsArray()["version"] == ""
  {
  }
}
