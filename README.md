# Urchin manifest parser, modelled in Dafny

Urchin turns the `manifest.json` that Vite writes at build time into a PHP
helper class. The manifest maps each original module path to its hashed output
file. The helper class exposes four collections to the application:

- the URIs to preload;
- a map from an asset's original basename to its URI;
- the JavaScript entry URIs;
- the CSS entry URIs.

This project models the two pieces of the tool that hold logic:

- `ManifestParser::parse` is one ordered pass over the decoded manifest.
  - A record with `src` writes `"/assets/" + file` into the asset map, under the basename of its key.
  - A record whose `isEntry` is true adds its URI to the JavaScript entries.
  - Such a record also appends the URIs of its `css` array to the CSS entries.
  - It also appends the URI of every record named in its `dynamicImports` array to the preload list.
- `Fs::join` maps every `\` and `/` of each argument to the directory
  separator, right-trims separators, and joins the results with the separator.

Layout:

- `wrappers.dfy`: `Option` and `Result`.
- `ordered_map.dfy`: PHP's ordered hash maps. These are the decoded manifest
  object and the `$assets` array. They are modelled as sequences of key/value
  pairs with `Get` (lookup) and `Put` (assignment: an existing key keeps its
  place, a new key goes last).
- `php_strings.dfy`: the PHP built-ins `str_replace`, `rtrim` and `basename`
  that the core uses, each for the arguments the core passes.
- `fs.dfy`: `Fs::join`, its normalisation, and `Explode`, the split that
  `Join` is proved against.
- `manifest.dfy`: the manifest records and the four collections.
  `ParseItems` and `ParseSpec` are the reference definition of `parse`: a fold
  over the records in document order.
- `manifest_properties.dfy`: what `parse` promises, proved about the fold.
  The lists are stated against definitions that read the manifest front to
  back (`EntryPointFiles`, `CssFiles`, `ImportNames`). The asset map is
  stated as `AssetsOf`, which builds it with the same `Put` step as the fold;
  its meaning is fixed by `AssetsHasKey`, `AssetsLastWriteWins`,
  `AssetsValueWriter`, `AssetsKeysDistinct` and `AssetsInsertionOrder`.
- `manifest_parser.dfy`: `Parse`, the imperative pass with four accumulators,
  the `css` loop and the `dynamicImports` loop. It is proved equal to `ParseSpec`.
- `dangling_import.dfy`: the finding below.

Two points where the model and the code part ways:

- `parse` throws `Exception('manifest.json contains invalid JSON')`; the
  model returns the constructor `InvalidJson`.
- A dynamic import that names no record is not an error in the code: PHP 8
  only warns and the preload list gets `"/assets/"`. The model departs from
  the code here and deliberately rejects such a manifest with
  `UnknownImport(name)`; see "## Findings".

Every function is deterministic, so repeated parses of one manifest give equal results.

## Model

| member | source | states |
|---|---|---|
| OrderedMap.Get | src/Util/ManifestParser.php:51 | A lookup finds nothing exactly when no pair has the key; otherwise it returns a value stored under that key |
| OrderedMap.GetDistinct | src/Util/ManifestParser.php:51 | In a map without repeated keys, looking up any stored key returns the value stored beside it |
| OrderedMap.Put | src/Util/ManifestParser.php:32 | After `$m[$k] = $v` a lookup of k gives v and every other key reads as before; an existing key keeps its position, a new one is appended; distinct keys stay distinct |
| PhpStrings.ReplaceChar | src/Util/Fs.php:7 | Same length; each occurrence of the searched character becomes the replacement, every other character is unchanged |
| PhpStrings.RTrim | src/Util/Fs.php:7 | The result is a prefix of the input, does not end with the trimmed character, and everything cut off is that character |
| PhpStrings.Basename | src/Util/ManifestParser.php:32 | The basename holds no '/', is no longer than the path, and is empty exactly when the path consists only of slashes |
| PhpStrings.BasenameOfName | src/Util/ManifestParser.php:32 | A slash-free non-empty name is its own basename, alone and below any directory |
| PhpStrings.BasenameIgnoresTrailingSlash | src/Util/ManifestParser.php:32 | A trailing '/' does not change the basename |
| PhpStrings.BasenameIdempotent | src/Util/ManifestParser.php:32 | Taking the basename of a basename changes nothing |
| Fs.Normalize | src/Util/Fs.php:7 | A normalised argument is the argument with every slash mapped to the separator, cut after its last non-slash character: only slashes are dropped, and it never ends with a slash |
| Fs.NormalizeAll | src/Util/Fs.php:7 | Each argument is normalised on its own, order and count kept |
| Fs.Join | src/Util/Fs.php:5-9 | No arguments give the empty string; one argument gives that argument normalised |
| Fs.NormalizeUsesOnlySeparator | src/Util/Fs.php:7 | After normalisation the only slash character left is the separator; the other slash never appears |
| Fs.NormalizeKeepsLeadingSeparators | src/Util/Fs.php:7 | Leading slashes before a non-slash character survive as separators, because only the right end is trimmed |
| Fs.NormalizeEmptyIffSlashes | src/Util/Fs.php:7 | An argument normalises to the empty string if and only if it consists only of slashes |
| Fs.NormalizePlain | src/Util/Fs.php:7 | An argument without slashes is left unchanged |
| Fs.NormalizeIdempotent | src/Util/Fs.php:7 | Normalising twice is normalising once |
| Fs.ImplodeInsertsGlue | src/Util/Fs.php:8 | `Implode`, the model of `join(DIRECTORY_SEPARATOR, $paths)`: joining n pieces adds exactly n - 1 glue characters and nothing else, both in length and in the count of the glue character |
| Fs.ImplodeAppend | src/Util/Fs.php:8 | `Implode` of two non-empty runs of pieces is the two results with one glue character between them |
| Fs.JoinSeparatorCount | src/Util/Fs.php:8 | The joined path has the separators of the normalised arguments plus exactly n - 1 more, and their lengths plus n - 1 characters |
| Fs.JoinAppend | src/Util/Fs.php:5-9 | Joining two non-empty runs of arguments is joining each and putting one separator between |
| Fs.ExplodeImplode | src/Util/Fs.php:8 | `Implode` has an inverse: splitting joined pieces at the glue returns the pieces when none of them holds the glue |
| Fs.JoinSplitRoundTrip | src/Util/Fs.php:5-9 | Splitting the joined path at the separator returns the arguments when they hold no slashes |
| Manifest.AssetUris | src/Util/ManifestParser.php:41-44 | One URI per file, in order, each "/assets/" followed by that file name |
| Manifest.ResolveImports | src/Util/ManifestParser.php:49-53 | Succeeds exactly when every name is a manifest key; then one URI per name, in order, each built from the `file` of the record with that key; otherwise reports the first name with no record |
| ManifestProperties.ProcessEntryEffect | src/Util/ManifestParser.php:27-54 | `ProcessEntry`, the reference step for one record: only an entry point can fail, exactly when one of its dynamic imports is unknown, with that error; a record that is not an entry point leaves the three lists alone; the lists only grow; the asset map changes only under the record's basename, and only when it has `src` |
| ManifestProperties.MeaningStep | src/Util/ManifestParser.php:27-54 | After a prefix whose fold matches the characterisations, `ProcessEntry` for the next record succeeds iff it is not an entry point or all its dynamic imports resolve. The lists then grow by that record's file, `css` URIs and resolved imports, and the asset map becomes AssetsOf of the longer prefix |
| Manifest.ParseItems | src/Util/ManifestParser.php:25-56 | The only failure of the loop is an unknown dynamic import |
| Manifest.ParseSpec | src/Util/ManifestParser.php:10-59 | Invalid JSON, and nothing else, fails with InvalidJson; an empty manifest gives four empty collections |
| ManifestProperties.ParseItemsMeaning | src/Util/ManifestParser.php:25-56 | The parse succeeds iff every dynamic import of every entry point names a record. Then the JS entries are the URIs of the entry points' files, the CSS entries those of their concatenated `css` arrays, and the preloads those of the records their concatenated `dynamicImports` name, all in manifest then array order with duplicates kept; the asset map is AssetsOf |
| ManifestProperties.ParseItemsError | src/Util/ManifestParser.php:47-54 | A failed parse names the first dynamic import, in manifest then array order, that has no record |
| ManifestProperties.EntryPointFilesCount | src/Util/ManifestParser.php:35-37 | The entry-point files are as many as the records whose `isEntry` is true |
| ManifestProperties.JsEntriesCount | src/Util/ManifestParser.php:35-37 | The JS entries are exactly as many as the records whose `isEntry` is present and true |
| ManifestProperties.AssetsKeysDistinct | src/Util/ManifestParser.php:30-33 | The asset map never holds a key twice |
| ManifestProperties.AssetsHasKey | src/Util/ManifestParser.php:30-33 | A key is in the asset map iff some record with `src` has that basename; records without `src` add no key |
| ManifestProperties.AssetsLastWriteWins | src/Util/ManifestParser.php:30-33 | The URI under a key is the one from the last record with `src` and that basename |
| ManifestProperties.AssetsValueWriter | src/Util/ManifestParser.php:30-33 | Every URI in the asset map comes from the last record with `src` that has its key's basename |
| ManifestProperties.AssetsHasKeyWitness | src/Util/ManifestParser.php:30-33 | A record with `src` puts its basename into the asset map whatever records follow it |
| ManifestProperties.AssetsInsertionOrder | src/Util/ManifestParser.php:30-33 | Keys stay in the order of their first write: every record writing a later key is preceded by a record writing each earlier key |
| ManifestProperties.JsEntriesVerbatim | src/Util/ManifestParser.php:27-37 | Every JS entry is "/assets/" followed by the `file` of an entry point, unaltered |
| ManifestProperties.CssEntriesVerbatim | src/Util/ManifestParser.php:39-45 | Every CSS entry is "/assets/" followed by an element of an entry point's `css` array, unaltered |
| ManifestProperties.PreloadVerbatim | src/Util/ManifestParser.php:47-54 | There is one preload per dynamic-import name; each is "/assets/" followed by the `file` of the record keyed by that name |
| ManifestProperties.AssetsVerbatim | src/Util/ManifestParser.php:27-33 | Every URI in the asset map is "/assets/" followed by the `file` of a record with `src`, unaltered |
| ManifestProperties.ResolveImportsErrorPersists | src/Util/ManifestParser.php:49-53 | Once a name fails to resolve, the names after it do not change the outcome |
| ManifestProperties.ParseItemsErrorPersists | src/Util/ManifestParser.php:25-56 | Once a record fails, the rest of the manifest does not change the outcome: no partial result |
| ManifestProperties.ScenarioExample | src/Util/ManifestParser.php:25-58 | A worked example: an entry point with one style sheet and one dynamic import of a `src` record gives one URI in each collection |
| ManifestParser.Parse | src/Util/ManifestParser.php:10-59 | The imperative pass with four accumulators returns exactly ParseSpec of its input |
| ManifestParser.ParseRecord | src/Util/ManifestParser.php:27-54 | The loop body for one record updates the four accumulators exactly as the reference step ProcessEntry does, failing when a dynamic import is unknown |
| ManifestParser.AppendStyleUris | src/Util/ManifestParser.php:39-45 | The `css` loop appends the URIs of the array's files, in order |
| ManifestParser.AppendPreloadUris | src/Util/ManifestParser.php:47-54 | The `dynamicImports` loop appends the resolved URIs when every name resolves and otherwise fails with the resolution error |
| DanglingImport.PreloadUriAsWritten | src/Util/ManifestParser.php:51-52 | As written, a known name gives its record's URI and an unknown name gives the bare "/assets/" |
| DanglingImport.DanglingImportAsWritten | src/Util/ManifestParser.php:51-52 | For an entry point importing a missing name, the as-written preload is "/assets/", the URI of no file in the manifest |
| DanglingImport.DanglingImportRejected | src/Util/ManifestParser.php:47-54 | The corrected parse rejects that manifest with UnknownImport naming the missing key |

## Findings

| source | as written | input that shows it | evidently intended | confidence | as-written member | corrected member |
|---|---|---|---|---|---|---|
| src/Util/ManifestParser.php:51-52 | A `dynamicImports` name with no manifest record reads an undefined property, then `file` of null; PHP 8 only warns, and the preload list gets the bare string "/assets/" | `{"main.js": {"file": "main.abc123.js", "isEntry": true, "dynamicImports": ["lazy.js"]}}` | Fail the parse naming the unknown import, since every preload must be the URI of a manifest record | medium, not executed | DanglingImport.DanglingImportAsWritten | Manifest.ResolveImports |

## Left out

- Reading the manifest file (`file_get_contents`) and decoding it (`json_decode`, `json_last_error`). The model takes a `Document`: either `Malformed` or the decoded object.
- Manifests that are valid JSON but not of the documented shape. Not modelled:
  - a top level that is not an object;
  - a record without `file`;
  - an `isEntry` that is not a boolean (PHP would apply truthiness);
  - a `css` or `dynamicImports` value that is `null` or not an array.
- Repeated keys in the JSON text. `json_decode` keeps one value per key, so a decoded manifest has distinct keys. If a `ManifestData` repeats a key anyway, `Get` reads the first pair.
- PHP array keys that look like integers. PHP stores a basename such as `"123"` under the integer key 123. The asset map keeps every key as a string.
- `basename` on Windows also splits at `\`, and its multibyte handling depends on the locale. The model covers the POSIX behaviour only.
- `DIRECTORY_SEPARATOR` is a host constant. `Fs.Join` takes it as the parameter `sep`, restricted to '/' and '\'.
- The CLI commands (`GenerateHelperClassCommand`, `GenerateHelperCommand`). They parse arguments, call `realpath` and `file_exists`, generate code with Nette PhpGenerator and `var_export`, read the wall-clock time, write files and optionally `unlink` the manifest. These commands call `parse` with four by-reference arguments. The model follows the one-argument form that returns the four collections.
- `bin/create-phar.php` (packaging) and `src/bootstrap.php` (application wiring).
