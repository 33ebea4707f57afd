/**
 * The preload lookup as written: `$data->{$preload_name}->file` on a name
 * that is not a key of the manifest reads an undefined property (PHP 8
 * only warns and yields null), then reads `file` of null (again only a
 * warning and null), and "/assets/$preload_file" turns null into "". The
 * model in module Manifest reports UnknownImport instead.
 */
module DanglingImport {
  import opened Wrappers
  import opened OrderedMap
  import opened Manifest

  /** One preload URI as the PHP code computes it, dangling names included. */
  function PreloadUriAsWritten(data: ManifestData, name: string): (r: string)
    ensures HasKey(data, name) ==> r == AssetUri(Get(data, name).value.file)
    ensures !HasKey(data, name) ==> r == AssetRoot
  {
    match Get(data, name)
    case Some(target) => AssetUri(target.file)
    case None =>
      assert AssetRoot + "" == AssetRoot;
      AssetUri("")
  }

  /** An entry point whose dynamic import names a record the manifest does not have. */
  const DanglingManifest: ManifestData :=
    [("main.js", Entry("main.abc123.js", false, Some(true), None, Some(["lazy.js"])))]

  /**
   * As written, the dangling name yields the bare asset root, which is not
   * the URI of any file of the manifest.
   */
  lemma DanglingImportAsWritten()
    ensures PreloadUriAsWritten(DanglingManifest, "lazy.js") == "/assets/"
    ensures forall i :: 0 <= i < |DanglingManifest| ==>
              PreloadUriAsWritten(DanglingManifest, "lazy.js") != AssetUri(DanglingManifest[i].1.file)
  {
    assert DanglingManifest[0].0 != "lazy.js";
    assert !HasKey(DanglingManifest, "lazy.js");
    assert |AssetUri(DanglingManifest[0].1.file)| > |AssetRoot|;
  }

  /** The corrected parse rejects the same manifest, naming the dangling import. */
  lemma DanglingImportRejected()
    ensures ParseSpec(Decoded(DanglingManifest)) == Err(UnknownImport("lazy.js"))
  {
    var data := DanglingManifest;
    assert data[0].0 != "lazy.js";
    assert !HasKey(data, "lazy.js");
    var names := ["lazy.js"];
    assert names[..0] == [];
    assert ResolveImports(data, names) == Err(UnknownImport("lazy.js"));
    assert ImportsOf(data[0].1) == names;
    assert data[..0] == [];
  }
}
