/**
  What the code sees of an uploaded zip: whether the temporary file is
  there, whether `ZipArchive::open` succeeds, and the entries in archive
  order with their raw names and (when readable) their bytes.
 */
module Archive {
  import opened Wrappers

  /** One zip entry; `content` is None when `getFromIndex`/`getFromName` would return false. */
  datatype Entry = Entry(name: string, content: Option<string>)

  /** An archive: whether it opens, the code `open` returns when it does not, and its entries. */
  datatype Zip = Zip(opens: bool, errorCode: nat, entries: seq<Entry>)

  /** The uploaded temporary file: `file_exists(getTempPath())` and the archive stored there. */
  datatype TempFile = TempFile(present: bool, zip: Zip) {
    /** `$zip->open($tempPath) === true`: a missing file never opens. */
    predicate Opens() {
      present && zip.opens
    }
  }

  /** The names of the entries, in archive order (`getNameIndex(0..numFiles-1)`). */
  function Names(entries: seq<Entry>): (r: seq<string>)
    ensures |r| == |entries|
    ensures forall i :: 0 <= i < |entries| ==> r[i] == entries[i].name
  {
    seq(|entries|, i requires 0 <= i < |entries| => entries[i].name)
  }

  /** `getFromName($name)`: the content of the first entry with exactly that name. */
  function FromName(entries: seq<Entry>, name: string): (r: Option<string>)
    ensures r.Some? ==> exists i :: 0 <= i < |entries| && entries[i].name == name
                                    && entries[i].content == r
    ensures (forall i :: 0 <= i < |entries| ==> entries[i].name != name) ==> r.None?
    decreases |entries|
  {
    if entries == [] then None
    else if entries[0].name == name then entries[0].content
    else FromName(entries[1..], name)
  }

  lemma FromNameAppend(entries: seq<Entry>, extra: Entry, name: string)
    requires extra.name != name
    ensures FromName(entries + [extra], name) == FromName(entries, name)
    decreases |entries|
  {
    if entries != [] {
      assert (entries + [extra])[1..] == entries[1..] + [extra];
      FromNameAppend(entries[1..], extra, name);
    }
  }
}

/** The part of a parsed XML document that SimpleXML navigation looks at. */
module Xml {
  import opened Wrappers

  datatype Element = Element(name: string, attributes: map<string, string>, text: string, children: seq<Element>)

  /** `$x->name`: the first child element with that name. */
  function Child(x: Element, name: string): (r: Option<Element>)
    ensures r.Some? ==> r.value in x.children && r.value.name == name
    ensures r.None? ==> forall c :: c in x.children ==> c.name != name
  {
    FirstNamed(x.children, name)
  }

  function FirstNamed(cs: seq<Element>, name: string): (r: Option<Element>)
    ensures r.Some? ==> r.value in cs && r.value.name == name
    ensures r.None? ==> forall c :: c in cs ==> c.name != name
    decreases |cs|
  {
    if cs == [] then None
    else if cs[0].name == name then Some(cs[0])
    else FirstNamed(cs[1..], name)
  }

  /** `isset($x->a->b->...)` succeeds exactly when this is Some. */
  function Path(x: Element, names: seq<string>): Option<Element>
    decreases |names|
  {
    if names == [] then Some(x)
    else match Child(x, names[0])
      case None => None
      case Some(c) => Path(c, names[1..])
  }

  /** `(string) $x->a->b->...`, or "" when the element is missing. */
  function TextAt(x: Element, names: seq<string>): string {
    match Path(x, names)
    case None => ""
    case Some(e) => e.text
  }

  /** `foreach ($x->name as $c)`: every child element with that name, in document order. */
  function ChildrenNamed(x: Element, name: string): (r: seq<Element>)
    ensures forall c :: c in r ==> c in x.children && c.name == name
  {
    Filter(x.children, name)
  }

  function Filter(cs: seq<Element>, name: string): (r: seq<Element>)
    ensures forall c :: c in r ==> c in cs && c.name == name
    decreases |cs|
  {
    if cs == [] then []
    else if cs[0].name == name then [cs[0]] + Filter(cs[1..], name)
    else Filter(cs[1..], name)
  }

  /** `(string) $x['key']`: the attribute value, "" when it is absent. */
  function Attr(x: Element, key: string): string {
    if key in x.attributes then x.attributes[key] else ""
  }
}

/** Omeka's ErrorStore: messages collected per key, in the order they were added. */
module Errors {

  datatype Error = Error(key: string, message: string)

  /** The store after appending one message. */
  function Add(store: map<string, seq<string>>, e: Error): (r: map<string, seq<string>>)
    ensures r.Keys == store.Keys + {e.key}
    ensures r[e.key] == (if e.key in store then store[e.key] else []) + [e.message]
    ensures forall k :: k in store && k != e.key ==> r[k] == store[k]
  {
    store[e.key := (if e.key in store then store[e.key] else []) + [e.message]]
  }

  /** The store after appending the given messages in order. */
  function AddAll(store: map<string, seq<string>>, es: seq<Error>): map<string, seq<string>>
    decreases |es|
  {
    if es == [] then store else AddAll(Add(store, es[0]), es[1..])
  }

  class ErrorStore {
    var errors: map<string, seq<string>>

    constructor ()
      ensures errors == map[]
    {
      errors := map[];
    }

    method AddError(key: string, message: string)
      modifies this
      ensures errors == Add(old(errors), Error(key, message))
    {
      errors := Add(errors, Error(key, message));
    }
  }
}
