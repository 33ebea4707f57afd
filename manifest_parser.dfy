/**
 * `ManifestParser::parse`: one pass over the decoded manifest that fills
 * four accumulators, with inner loops over each entry point's `css` and
 * `dynamicImports` arrays.
 */
module ManifestParser {
  import opened Wrappers
  import opened OrderedMap
  import opened PhpStrings
  import opened Manifest
  import opened ManifestProperties

  method Parse(doc: Document) returns (result: Result<Collections, ParseError>)
    ensures result == ParseSpec(doc)
  {
    if doc.Malformed? {
      return Err(InvalidJson);
    }
    var data := doc.data;
    var preload: seq<string> := [];
    var assets: OMap<string> := [];
    var jsEntries: seq<string> := [];
    var cssEntries: seq<string> := [];
    var i := 0;
    while i < |data|
      invariant 0 <= i <= |data|
      invariant ParseItems(data, data[..i]) == Ok(Collections(preload, assets, jsEntries, cssEntries))
    {
      var (original, info) := data[i];
      assert data[..i + 1][..i] == data[..i];
      var step := ParseRecord(data, preload, assets, jsEntries, cssEntries, original, info);
      if step.Err? {
        ParseItemsErrorPersists(data, data, i + 1);
        return Err(step.error);
      }
      preload, assets, jsEntries, cssEntries := step.value.preload, step.value.assets, step.value.jsEntries, step.value.cssEntries;
      i := i + 1;
    }
    assert data[..i] == data;
    return Ok(Collections(preload, assets, jsEntries, cssEntries));
  }

  /**
   * The body of the loop for the record `(original, info)`: the asset map
   * for a record with `src`, then the three lists for an entry point.
   */
  method ParseRecord(data: ManifestData, preload: seq<string>, assets: OMap<string>,
                     jsEntries: seq<string>, cssEntries: seq<string>, original: string, info: Entry)
    returns (r: Result<Collections, ParseError>)
    ensures r == ProcessEntry(data, Collections(preload, assets, jsEntries, cssEntries), original, info)
  {
    var assetUri := AssetUri(info.file);
    var assets' := assets;
    if info.hasSrc {
      assets' := Put(assets, Basename(original), assetUri);
    }
    if info.isEntry != Some(true) {
      return Ok(Collections(preload, assets', jsEntries, cssEntries));
    }
    var jsEntries' := jsEntries + [assetUri];
    var cssEntries' := cssEntries;
    if info.css.Some? {
      cssEntries' := AppendStyleUris(cssEntries, info.css.value);
    } else {
      assert cssEntries' == cssEntries + AssetUris(CssOf(info));
    }
    var preload' := preload;
    if info.dynamicImports.Some? {
      var outcome := AppendPreloadUris(data, preload, info.dynamicImports.value);
      if outcome.Err? {
        return Err(outcome.error);
      }
      preload' := outcome.value;
    } else {
      assert ResolveImports(data, ImportsOf(info)) == Ok([]);
      assert preload' == preload + [];
    }
    return Ok(Collections(preload', assets', jsEntries', cssEntries'));
  }

  /** The inner loop over an entry point's `css` array. */
  method AppendStyleUris(cssEntries: seq<string>, cssFiles: seq<string>) returns (r: seq<string>)
    ensures r == cssEntries + AssetUris(cssFiles)
  {
    r := cssEntries;
    var j := 0;
    while j < |cssFiles|
      invariant 0 <= j <= |cssFiles|
      invariant r == cssEntries + AssetUris(cssFiles[..j])
    {
      r := r + [AssetUri(cssFiles[j])];
      j := j + 1;
      assert cssFiles[..j][..j - 1] == cssFiles[..j - 1];
    }
    assert cssFiles[..j] == cssFiles;
  }

  /**
   * The inner loop over an entry point's `dynamicImports` array: each name
   * is looked up in the manifest and its record's URI appended; a name that
   * is not a key of the manifest stops the parse.
   */
  method AppendPreloadUris(data: ManifestData, preload: seq<string>, names: seq<string>)
    returns (r: Result<seq<string>, ParseError>)
    ensures ResolveImports(data, names).Ok? ==> r == Ok(preload + ResolveImports(data, names).value)
    ensures ResolveImports(data, names).Err? ==> r == Err(ResolveImports(data, names).error)
  {
    var uris := preload;
    var j := 0;
    assert names[..0] == [];
    while j < |names|
      invariant 0 <= j <= |names|
      invariant ResolveImports(data, names[..j]).Ok?
      invariant uris == preload + ResolveImports(data, names[..j]).value
    {
      var preloadName := names[j];
      var target := Get(data, preloadName);
      assert names[..j + 1][..j] == names[..j];
      if target.None? {
        ResolveImportsErrorPersists(data, names, j + 1);
        return Err(UnknownImport(preloadName));
      }
      uris := uris + [AssetUri(target.value.file)];
      j := j + 1;
    }
    assert names[..j] == names;
    return Ok(uris);
  }
}
