/**
 * The Vite build manifest and the result of classifying it, with the
 * reference definition of `ManifestParser::parse` as a fold over the
 * manifest's entries in document order.
 */
module Manifest {
  import opened Wrappers
  import opened OrderedMap
  import opened PhpStrings

  /**
   * One manifest record. `hasSrc` says whether the `src` property is
   * present (its value is never read); an absent `isEntry`, `css` or
   * `dynamicImports` is `None`.
   */
  datatype Entry = Entry(
    file: string,
    hasSrc: bool,
    isEntry: Option<bool>,
    css: Option<seq<string>>,
    dynamicImports: Option<seq<string>>)

  /** The decoded manifest object: original module path to record, in document order. */
  type ManifestData = OMap<Entry>

  /** What decoding the manifest file produced. */
  datatype Document = Malformed | Decoded(data: ManifestData)

  datatype ParseError =
    | InvalidJson
      /** A `dynamicImports` name that is not a key of the manifest. */
    | UnknownImport(name: string)

  /** The four collections handed to the code generator. */
  datatype Collections = Collections(
    preload: seq<string>,
    assets: OMap<string>,
    jsEntries: seq<string>,
    cssEntries: seq<string>)

  const NoCollections := Collections([], [], [], [])

  const AssetRoot := "/assets/"

  /** The public URI of a built file: "/assets/" followed by the file name as written. */
  function AssetUri(file: string): string
  {
    AssetRoot + file
  }

  predicate IsEntryPoint(info: Entry) {
    info.isEntry == Some(true)
  }

  function CssOf(info: Entry): seq<string> {
    if info.css.Some? then info.css.value else []
  }

  function ImportsOf(info: Entry): seq<string> {
    if info.dynamicImports.Some? then info.dynamicImports.value else []
  }

  /** Whether a record makes `parse` store a URI under `key` in the asset map. */
  predicate AddsAsset(item: (string, Entry), key: string) {
    item.1.hasSrc && Basename(item.0) == key
  }

  /** The URIs of a list of built files, in the same order. */
  function AssetUris(files: seq<string>): (r: seq<string>)
    ensures |r| == |files|
    ensures forall k :: 0 <= k < |files| ==> r[k] == AssetUri(files[k])
  {
    if files == [] then []
    else AssetUris(files[..|files| - 1]) + [AssetUri(files[|files| - 1])]
  }

  /**
   * The URIs of the manifest records named by `names`. The first name that is
   * not a key of the manifest is reported.
   */
  function ResolveImports(data: ManifestData, names: seq<string>): (r: Result<seq<string>, ParseError>)
    ensures r.Ok? <==> forall n :: n in names ==> HasKey(data, n)
    ensures r.Ok? ==> |r.value| == |names|
    ensures r.Ok? ==> forall k :: 0 <= k < |names| ==>
              Get(data, names[k]).Some? && r.value[k] == AssetUri(Get(data, names[k]).value.file)
    ensures r.Err? ==> exists k :: 0 <= k < |names| && FirstUnresolved(data, names, k)
                                   && r.error == UnknownImport(names[k])
  {
    if names == [] then Ok([])
    else
      var init := names[..|names| - 1];
      var name := names[|names| - 1];
      match ResolveImports(data, init)
      case Err(e) =>
        assert forall j :: 0 <= j < |init| ==> names[j] == init[j];
        Err(e)
      case Ok(uris) =>
        assert names == init + [name];
        match Get(data, name)
        case None =>
          assert forall j :: 0 <= j < |init| ==> names[j] == init[j];
          Err(UnknownImport(name))
        case Some(target) => Ok(uris + [AssetUri(target.file)])
  }

  /** `names[k]` is the first of `names` that the manifest has no key for. */
  predicate FirstUnresolved(data: ManifestData, names: seq<string>, k: nat)
    requires k < |names|
  {
    !HasKey(data, names[k]) && forall j :: 0 <= j < k ==> HasKey(data, names[j])
  }

  /** The body of the loop in `parse` for one record `(original, info)`. */
  function ProcessEntry(data: ManifestData, acc: Collections, original: string, info: Entry): Result<Collections, ParseError>
  {
    var uri := AssetUri(info.file);
    var assets := if info.hasSrc then Put(acc.assets, Basename(original), uri) else acc.assets;
    if !IsEntryPoint(info) then Ok(acc.(assets := assets))
    else
      match ResolveImports(data, ImportsOf(info))
      case Err(e) => Err(e)
      case Ok(preloaded) =>
        Ok(Collections(acc.preload + preloaded, assets, acc.jsEntries + [uri], acc.cssEntries + AssetUris(CssOf(info))))
  }

  /**
   * The collections after the loop has run over `items`, a prefix of the
   * manifest `data` in which dynamic imports are looked up.
   */
  function ParseItems(data: ManifestData, items: ManifestData): (r: Result<Collections, ParseError>)
    ensures r.Err? ==> r.error.UnknownImport?
  {
    if items == [] then Ok(NoCollections)
    else
      match ParseItems(data, items[..|items| - 1])
      case Err(e) => Err(e)
      case Ok(acc) => ProcessEntry(data, acc, items[|items| - 1].0, items[|items| - 1].1)
  }

  /** `ManifestParser::parse` on the decoded manifest. */
  function ParseSpec(doc: Document): (r: Result<Collections, ParseError>)
    ensures r == Err(InvalidJson) <==> doc.Malformed?
    ensures doc == Decoded([]) ==> r == Ok(NoCollections)
  {
    match doc
    case Malformed => Err(InvalidJson)
    case Decoded(data) => ParseItems(data, data)
  }
}
