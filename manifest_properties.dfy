/**
 * What `ManifestParser::parse` promises about its four collections, proved
 * about the fold in module Manifest. The three lists are stated against
 * definitions that read the manifest front to back; the asset map is stated
 * as AssetsOf, whose meaning the Assets* lemmas below fix.
 */
module ManifestProperties {
  import opened Wrappers
  import opened OrderedMap
  import opened PhpStrings
  import opened Manifest

  /** The `file` of every entry point, in manifest order. */
  function EntryPointFiles(items: ManifestData): seq<string>
  {
    if items == [] then []
    else (if IsEntryPoint(items[0].1) then [items[0].1.file] else []) + EntryPointFiles(items[1..])
  }

  /** How many records have `isEntry` present and true. */
  function EntryPointCount(items: ManifestData): nat
  {
    if items == [] then 0
    else (if IsEntryPoint(items[0].1) then 1 else 0) + EntryPointCount(items[1..])
  }

  /** The `css` arrays of the entry points, one after the other. */
  function CssFiles(items: ManifestData): seq<string>
  {
    if items == [] then []
    else (if IsEntryPoint(items[0].1) then CssOf(items[0].1) else []) + CssFiles(items[1..])
  }

  /** The `dynamicImports` arrays of the entry points, one after the other. */
  function ImportNames(items: ManifestData): seq<string>
  {
    if items == [] then []
    else (if IsEntryPoint(items[0].1) then ImportsOf(items[0].1) else []) + ImportNames(items[1..])
  }

  /** `uris` holds "/assets/" + each of `files`, position by position. */
  predicate UrisOf(uris: seq<string>, files: seq<string>)
  {
    |uris| == |files| && forall k :: 0 <= k < |uris| ==> uris[k] == AssetUri(files[k])
  }

  /** `uris` holds the URI of the record each of `names` is the key of, position by position. */
  predicate ResolvedUris(data: ManifestData, uris: seq<string>, names: seq<string>)
  {
    && |uris| == |names|
    && forall k :: 0 <= k < |names| ==>
         Get(data, names[k]).Some? && uris[k] == AssetUri(Get(data, names[k]).value.file)
  }

  predicate AllResolve(data: ManifestData, names: seq<string>)
  {
    forall n :: n in names ==> HasKey(data, n)
  }

  /** The asset map on its own: every record with `src` writes its URI under its basename. */
  function AssetsOf(items: ManifestData): OMap<string>
  {
    if items == [] then []
    else
      var init := AssetsOf(items[..|items| - 1]);
      var item := items[|items| - 1];
      if item.1.hasSrc then Put(init, Basename(item.0), AssetUri(item.1.file)) else init
  }

  /** Appending a record to a non-empty run keeps its head and appends to its tail. */
  lemma AppendShape(items: ManifestData, item: (string, Entry))
    requires items != []
    ensures (items + [item])[0] == items[0]
    ensures (items + [item])[1..] == items[1..] + [item]
  {
  }

  lemma {:induction false} EntryPointFilesAppend(items: ManifestData, item: (string, Entry))
    ensures EntryPointFiles(items + [item]) == EntryPointFiles(items) + (if IsEntryPoint(item.1) then [item.1.file] else [])
  {
    if items != [] {
      AppendShape(items, item);
      EntryPointFilesAppend(items[1..], item);
    } else {
      assert items + [item] == [item];
    }
  }

  lemma {:induction false} EntryPointCountAppend(items: ManifestData, item: (string, Entry))
    ensures EntryPointCount(items + [item]) == EntryPointCount(items) + (if IsEntryPoint(item.1) then 1 else 0)
  {
    if items != [] {
      AppendShape(items, item);
      EntryPointCountAppend(items[1..], item);
    } else {
      assert items + [item] == [item];
    }
  }

  lemma {:induction false} CssFilesAppend(items: ManifestData, item: (string, Entry))
    ensures CssFiles(items + [item]) == CssFiles(items) + (if IsEntryPoint(item.1) then CssOf(item.1) else [])
  {
    if items != [] {
      AppendShape(items, item);
      CssFilesAppend(items[1..], item);
    } else {
      assert items + [item] == [item];
    }
  }

  lemma {:induction false} ImportNamesAppend(items: ManifestData, item: (string, Entry))
    ensures ImportNames(items + [item]) == ImportNames(items) + (if IsEntryPoint(item.1) then ImportsOf(item.1) else [])
  {
    if items != [] {
      AppendShape(items, item);
      ImportNamesAppend(items[1..], item);
    } else {
      assert items + [item] == [item];
    }
  }

  /** The four front-to-back readings grow by what one more record contributes. */
  lemma CharacterisationsAppend(items: ManifestData, item: (string, Entry))
    ensures EntryPointFiles(items + [item]) == EntryPointFiles(items) + (if IsEntryPoint(item.1) then [item.1.file] else [])
    ensures EntryPointCount(items + [item]) == EntryPointCount(items) + (if IsEntryPoint(item.1) then 1 else 0)
    ensures CssFiles(items + [item]) == CssFiles(items) + (if IsEntryPoint(item.1) then CssOf(item.1) else [])
    ensures ImportNames(items + [item]) == ImportNames(items) + (if IsEntryPoint(item.1) then ImportsOf(item.1) else [])
  {
    EntryPointFilesAppend(items, item);
    EntryPointCountAppend(items, item);
    CssFilesAppend(items, item);
    ImportNamesAppend(items, item);
  }

  /**
   * The fold succeeds exactly when every dynamic import of every entry point
   * names a record of the manifest; then the script entries, the style
   * entries and the preloads are the URIs of what the manifest lists, in
   * manifest order and then array order, and the asset map is AssetsOf.
   */
  lemma {:induction false} ParseItemsMeaning(data: ManifestData, items: ManifestData)
    ensures ParseItems(data, items).Ok? <==> AllResolve(data, ImportNames(items))
    ensures ParseItems(data, items).Ok? ==>
              && UrisOf(ParseItems(data, items).value.jsEntries, EntryPointFiles(items))
              && UrisOf(ParseItems(data, items).value.cssEntries, CssFiles(items))
              && ResolvedUris(data, ParseItems(data, items).value.preload, ImportNames(items))
              && ParseItems(data, items).value.assets == AssetsOf(items)
  {
    if items != [] {
      var init := items[..|items| - 1];
      var item := items[|items| - 1];
      assert init + [item] == items;
      ParseItemsMeaning(data, init);
      CharacterisationsAppend(init, item);
      var extra := if IsEntryPoint(item.1) then ImportsOf(item.1) else [];
      AllResolveAppend(data, ImportNames(init), extra);
      if ParseItems(data, init).Ok? {
        MeaningStep(data, items, ParseItems(data, init).value);
      }
    }
  }

  /** One more record, after a prefix whose fold succeeded with the characterised collections. */
  lemma MeaningStep(data: ManifestData, items: ManifestData, acc: Collections)
    requires items != []
    requires ParseItems(data, items[..|items| - 1]) == Ok(acc)
    requires UrisOf(acc.jsEntries, EntryPointFiles(items[..|items| - 1]))
    requires UrisOf(acc.cssEntries, CssFiles(items[..|items| - 1]))
    requires ResolvedUris(data, acc.preload, ImportNames(items[..|items| - 1]))
    requires acc.assets == AssetsOf(items[..|items| - 1])
    ensures ParseItems(data, items).Ok? <==> (!IsEntryPoint(items[|items| - 1].1) || AllResolve(data, ImportsOf(items[|items| - 1].1)))
    ensures ParseItems(data, items).Ok? ==>
              && ParseItems(data, items).value.assets == AssetsOf(items)
              && UrisOf(ParseItems(data, items).value.jsEntries,
                        EntryPointFiles(items[..|items| - 1]) + (if IsEntryPoint(items[|items| - 1].1) then [items[|items| - 1].1.file] else []))
              && UrisOf(ParseItems(data, items).value.cssEntries,
                        CssFiles(items[..|items| - 1]) + (if IsEntryPoint(items[|items| - 1].1) then CssOf(items[|items| - 1].1) else []))
              && ResolvedUris(data, ParseItems(data, items).value.preload,
                              ImportNames(items[..|items| - 1]) + (if IsEntryPoint(items[|items| - 1].1) then ImportsOf(items[|items| - 1].1) else []))
  {
    var init := items[..|items| - 1];
    var item := items[|items| - 1];
    var r := ParseItems(data, items);
    assert r == ProcessEntry(data, acc, item.0, item.1);
    if IsEntryPoint(item.1) {
      var res := ResolveImports(data, ImportsOf(item.1));
      if res.Ok? {
        UrisOfAppend(acc.jsEntries, EntryPointFiles(init), [AssetUri(item.1.file)], [item.1.file]);
        UrisOfAppend(acc.cssEntries, CssFiles(init), AssetUris(CssOf(item.1)), CssOf(item.1));
        ResolvedUrisAppend(data, acc.preload, ImportNames(init), res.value, ImportsOf(item.1));
      }
    } else {
      assert acc.jsEntries + [] == acc.jsEntries;
    }
  }

  /**
   * One record's effect: only an entry point can fail, and only on an
   * unknown dynamic import; the three lists only grow, and a record that is
   * not an entry point leaves them alone; the asset map changes at most
   * under the record's basename.
   */
  lemma ProcessEntryEffect(data: ManifestData, acc: Collections, original: string, info: Entry)
    ensures var r := ProcessEntry(data, acc, original, info);
            && (r.Err? <==> IsEntryPoint(info) && ResolveImports(data, ImportsOf(info)).Err?)
            && (r.Err? ==> r.error == ResolveImports(data, ImportsOf(info)).error)
            && (!IsEntryPoint(info) ==>
                  (r.Ok? && r.value.preload == acc.preload
                   && r.value.jsEntries == acc.jsEntries && r.value.cssEntries == acc.cssEntries))
            && (r.Ok? ==>
                  (acc.preload <= r.value.preload && acc.jsEntries <= r.value.jsEntries
                   && acc.cssEntries <= r.value.cssEntries))
            && (r.Ok? ==>
                  Get(r.value.assets, Basename(original)) ==
                  (if info.hasSrc then Some(AssetUri(info.file)) else Get(acc.assets, Basename(original))))
            && (r.Ok? ==> forall k :: k != Basename(original) ==> Get(r.value.assets, k) == Get(acc.assets, k))
  {
  }

  lemma UrisOfAppend(u1: seq<string>, f1: seq<string>, u2: seq<string>, f2: seq<string>)
    requires UrisOf(u1, f1) && UrisOf(u2, f2)
    ensures UrisOf(u1 + u2, f1 + f2)
  {
    assert forall k :: |u1| <= k < |u1 + u2| ==> (u1 + u2)[k] == u2[k - |u1|] && (f1 + f2)[k] == f2[k - |u1|];
  }

  lemma ResolvedUrisAppend(data: ManifestData, u1: seq<string>, n1: seq<string>, u2: seq<string>, n2: seq<string>)
    requires ResolvedUris(data, u1, n1) && ResolvedUris(data, u2, n2)
    ensures ResolvedUris(data, u1 + u2, n1 + n2)
  {
    assert forall k :: |u1| <= k < |u1 + u2| ==> (u1 + u2)[k] == u2[k - |u1|] && (n1 + n2)[k] == n2[k - |u1|];
  }

  lemma AllResolveAppend(data: ManifestData, a: seq<string>, b: seq<string>)
    ensures AllResolve(data, a + b) <==> AllResolve(data, a) && AllResolve(data, b)
  {
    assert forall n :: n in a + b <==> n in a || n in b;
  }

  /**
   * A failed fold reports the first dynamic import, in manifest order and
   * then array order, that names no record.
   */
  lemma {:induction false} ParseItemsError(data: ManifestData, items: ManifestData)
    requires ParseItems(data, items).Err?
    ensures exists k :: 0 <= k < |ImportNames(items)| && FirstUnresolved(data, ImportNames(items), k)
                        && ParseItems(data, items).error == UnknownImport(ImportNames(items)[k])
  {
    var init := items[..|items| - 1];
    var item := items[|items| - 1];
    assert init + [item] == items;
    ImportNamesAppend(init, item);
    var names := ImportNames(init);
    var extra := if IsEntryPoint(item.1) then ImportsOf(item.1) else [];
    assert ImportNames(items) == names + extra;
    if ParseItems(data, init).Err? {
      ParseItemsError(data, init);
      var k :| 0 <= k < |names| && FirstUnresolved(data, names, k)
               && ParseItems(data, init).error == UnknownImport(names[k]);
      FirstUnresolvedBefore(data, names, extra, k);
      assert ParseItems(data, items).error == UnknownImport(ImportNames(items)[k]);
    } else {
      ParseItemsMeaning(data, init);
      var acc := ParseItems(data, init).value;
      assert ParseItems(data, items) == ProcessEntry(data, acc, item.0, item.1);
      assert IsEntryPoint(item.1) && ResolveImports(data, extra).Err?;
      var k :| 0 <= k < |extra| && FirstUnresolved(data, extra, k)
               && ResolveImports(data, extra).error == UnknownImport(extra[k]);
      FirstUnresolvedAfter(data, names, extra, k);
      assert ParseItems(data, items).error == UnknownImport(ImportNames(items)[|names| + k]);
    }
  }

  /** The first unresolved name of `a` stays the first one when more names follow. */
  lemma FirstUnresolvedBefore(data: ManifestData, a: seq<string>, b: seq<string>, k: nat)
    requires k < |a| && FirstUnresolved(data, a, k)
    ensures FirstUnresolved(data, a + b, k) && (a + b)[k] == a[k]
  {
    assert forall j :: 0 <= j < k ==> (a + b)[j] == a[j];
  }

  /** After names that all resolve, the first unresolved name of `b` is the first one overall. */
  lemma FirstUnresolvedAfter(data: ManifestData, a: seq<string>, b: seq<string>, k: nat)
    requires AllResolve(data, a) && k < |b| && FirstUnresolved(data, b, k)
    ensures FirstUnresolved(data, a + b, |a| + k) && (a + b)[|a| + k] == b[k]
  {
    forall j | 0 <= j < |a| + k
      ensures HasKey(data, (a + b)[j])
    {
      if j < |a| {
        assert (a + b)[j] == a[j] && a[j] in a;
      } else {
        assert (a + b)[j] == b[j - |a|];
      }
    }
  }

  /** `js_entries` has one URI per record whose `isEntry` is true. */
  lemma {:induction false} EntryPointFilesCount(items: ManifestData)
    ensures |EntryPointFiles(items)| == EntryPointCount(items)
  {
    if items != [] {
      EntryPointFilesCount(items[1..]);
    }
  }

  lemma JsEntriesCount(data: ManifestData)
    requires ParseSpec(Decoded(data)).Ok?
    ensures |ParseSpec(Decoded(data)).value.jsEntries| == EntryPointCount(data)
  {
    ParseItemsMeaning(data, data);
    EntryPointFilesCount(data);
  }

  /** The asset map never holds a key twice. */
  lemma {:induction false} AssetsKeysDistinct(items: ManifestData)
    ensures KeysDistinct(AssetsOf(items))
  {
    if items != [] {
      AssetsKeysDistinct(items[..|items| - 1]);
    }
  }

  /** One more record changes a lookup only when that record writes the key. */
  lemma AssetsStep(items: ManifestData, key: string)
    requires items != []
    ensures Get(AssetsOf(items), key) ==
              if AddsAsset(items[|items| - 1], key) then Some(AssetUri(items[|items| - 1].1.file))
              else Get(AssetsOf(items[..|items| - 1]), key)
  {
  }

  /** One more record adds a key to the asset map only when that record writes it. */
  lemma AssetsHasKeyStep(items: ManifestData, key: string)
    requires items != []
    ensures HasKey(AssetsOf(items), key) <==>
              AddsAsset(items[|items| - 1], key) || HasKey(AssetsOf(items[..|items| - 1]), key)
  {
    AssetsStep(items, key);
  }

  /** A record with `src` puts its basename into the asset map, whatever follows it. */
  lemma {:induction false} AssetsHasKeyWitness(items: ManifestData, key: string, i: nat)
    requires i < |items| && AddsAsset(items[i], key)
    ensures HasKey(AssetsOf(items), key)
  {
    var init := items[..|items| - 1];
    if i < |init| {
      assert init[i] == items[i];
      AssetsHasKeyWitness(init, key, i);
    }
    AssetsHasKeyStep(items, key);
  }

  /** A key is in the asset map exactly when some record with `src` has that basename. */
  lemma AssetsHasKey(items: ManifestData, key: string)
    ensures HasKey(AssetsOf(items), key) <==> exists i :: 0 <= i < |items| && AddsAsset(items[i], key)
  {
    if HasKey(AssetsOf(items), key) {
      AssetsValueWriter(items, key);
    }
    forall i | 0 <= i < |items| && AddsAsset(items[i], key)
      ensures HasKey(AssetsOf(items), key)
    {
      AssetsHasKeyWitness(items, key, i);
    }
  }

  /** Record `i` is the last one of `items` that writes `key` into the asset map. */
  predicate LastWriter(items: ManifestData, key: string, i: int)
  {
    0 <= i < |items| && AddsAsset(items[i], key) && forall j :: i < j < |items| ==> !AddsAsset(items[j], key)
  }

  /** Last write wins: the URI under a key comes from the last record with `src` and that basename. */
  lemma {:induction false} AssetsLastWriteWins(items: ManifestData, key: string, i: int)
    requires LastWriter(items, key, i)
    ensures Get(AssetsOf(items), key) == Some(AssetUri(items[i].1.file))
  {
    var init := items[..|items| - 1];
    AssetsStep(items, key);
    if i < |init| {
      assert !AddsAsset(items[|items| - 1], key);
      assert forall j :: i < j < |init| ==> init[j] == items[j];
      AssetsLastWriteWins(init, key, i);
    }
  }

  /** Every URI in the asset map was written by the last record with `src` and that basename. */
  lemma {:induction false} AssetsValueWriter(items: ManifestData, key: string)
    requires HasKey(AssetsOf(items), key)
    ensures exists i :: LastWriter(items, key, i) && Get(AssetsOf(items), key) == Some(AssetUri(items[i].1.file))
  {
    var init := items[..|items| - 1];
    var last := |items| - 1;
    AssetsStep(items, key);
    if AddsAsset(items[last], key) {
      assert LastWriter(items, key, last);
    } else {
      AssetsValueWriter(init, key);
      var i :| LastWriter(init, key, i) && Get(AssetsOf(init), key) == Some(AssetUri(init[i].1.file));
      LastWriterExtends(items, key, i);
    }
  }

  lemma LastWriterExtends(items: ManifestData, key: string, i: int)
    requires items != [] && !AddsAsset(items[|items| - 1], key)
    requires LastWriter(items[..|items| - 1], key, i)
    ensures LastWriter(items, key, i) && items[i] == items[..|items| - 1][i]
  {
    var init := items[..|items| - 1];
    assert forall j :: 0 <= j < |init| ==> items[j] == init[j];
    assert AddsAsset(items[i], key);
    assert forall j :: i < j < |items| ==> !AddsAsset(items[j], key);
  }


  /** One more record keeps every key where it was and may add one new key at the end. */
  lemma AssetsKeysStep(items: ManifestData)
    requires items != []
    ensures var m := AssetsOf(items[..|items| - 1]);
            var r := AssetsOf(items);
            && |m| <= |r| <= |m| + 1
            && (forall p :: 0 <= p < |m| ==> r[p].0 == m[p].0)
            && (|r| == |m| + 1 ==> AddsAsset(items[|items| - 1], r[|m|].0) && !HasKey(m, r[|m|].0))
  {
  }

  /** Some record before position j writes `key` into the asset map. */
  predicate WrittenBefore(items: ManifestData, key: string, j: int)
  {
    exists i :: 0 <= i < j && i < |items| && AddsAsset(items[i], key)
  }

  /**
   * Keys keep the order in which they were first written: a key placed
   * later in the asset map first appears later in the manifest.
   */
  lemma {:induction false} AssetsInsertionOrder(items: ManifestData, a: nat, b: nat, j: nat)
    requires a < b < |AssetsOf(items)|
    requires j < |items| && AddsAsset(items[j], AssetsOf(items)[b].0)
    ensures WrittenBefore(items, AssetsOf(items)[a].0, j)
  {
    var init := items[..|items| - 1];
    var m := AssetsOf(init);
    AssetsKeysStep(items);
    if b < |m| {
      assert HasKey(m, m[b].0);
      WriterInPrefix(items, m[b].0);
      var j' := PriorWriter(items, m[b].0, j);
      AssetsInsertionOrder(init, a, b, j');
      WrittenBeforeExtends(items, m[a].0, j', j);
    } else {
      // The key at b is new, so only the last record wrote it; the key at a was there before.
      NewKeyOnlyFromLast(items, AssetsOf(items)[b].0, j);
      assert HasKey(m, m[a].0);
      WriterInPrefix(items, m[a].0);
    }
  }

  /** Given a writer of `key` among the earlier records, one no later than record j writes it. */
  lemma PriorWriter(items: ManifestData, key: string, j: nat) returns (j': nat)
    requires items != [] && j < |items| && AddsAsset(items[j], key)
    requires WrittenBefore(items, key, |items| - 1)
    ensures j' <= j && j' < |items| - 1 && AddsAsset(items[..|items| - 1][j'], key)
  {
    var init := items[..|items| - 1];
    if j < |init| {
      j' := j;
    } else {
      j' :| 0 <= j' < |items| - 1 && j' < |items| && AddsAsset(items[j'], key);
    }
    assert init[j'] == items[j'];
  }

  lemma WrittenBeforeExtends(items: ManifestData, key: string, j': nat, j: nat)
    requires items != [] && j' <= j
    requires WrittenBefore(items[..|items| - 1], key, j')
    ensures WrittenBefore(items, key, j)
  {
    var init := items[..|items| - 1];
    var i :| 0 <= i < j' && i < |init| && AddsAsset(init[i], key);
    assert items[i] == init[i];
  }

  /** A key already in the asset map before the last record was written by an earlier record. */
  lemma WriterInPrefix(items: ManifestData, key: string)
    requires items != [] && HasKey(AssetsOf(items[..|items| - 1]), key)
    ensures WrittenBefore(items, key, |items| - 1)
  {
    var init := items[..|items| - 1];
    AssetsHasKey(init, key);
    var i :| 0 <= i < |init| && AddsAsset(init[i], key);
    assert items[i] == init[i];
  }

  lemma NewKeyOnlyFromLast(items: ManifestData, key: string, j: nat)
    requires items != [] && !HasKey(AssetsOf(items[..|items| - 1]), key)
    requires j < |items| && AddsAsset(items[j], key)
    ensures j == |items| - 1
  {
    var init := items[..|items| - 1];
    AssetsHasKey(init, key);
    assert forall t :: 0 <= t < |init| ==> init[t] == items[t];
  }

  lemma {:induction false} EntryPointFilesFrom(items: ManifestData, k: nat)
    requires k < |EntryPointFiles(items)|
    ensures exists i :: 0 <= i < |items| && IsEntryPoint(items[i].1) && EntryPointFiles(items)[k] == items[i].1.file
  {
    if IsEntryPoint(items[0].1) && k == 0 {
      assert EntryPointFiles(items)[0] == items[0].1.file;
    } else {
      var head := if IsEntryPoint(items[0].1) then 1 else 0;
      EntryPointFilesFrom(items[1..], k - head);
      var i :| 0 <= i < |items[1..]| && IsEntryPoint(items[1..][i].1)
               && EntryPointFiles(items[1..])[k - head] == items[1..][i].1.file;
      assert items[i + 1] == items[1..][i];
    }
  }

  lemma {:induction false} CssFilesFrom(items: ManifestData, k: nat)
    requires k < |CssFiles(items)|
    ensures exists i, n :: 0 <= i < |items| && IsEntryPoint(items[i].1) && 0 <= n < |CssOf(items[i].1)|
                           && CssFiles(items)[k] == CssOf(items[i].1)[n]
  {
    var head := if IsEntryPoint(items[0].1) then CssOf(items[0].1) else [];
    if k < |head| {
      assert CssFiles(items)[k] == CssOf(items[0].1)[k];
    } else {
      CssFilesFrom(items[1..], k - |head|);
      var i, n :| 0 <= i < |items[1..]| && IsEntryPoint(items[1..][i].1) && 0 <= n < |CssOf(items[1..][i].1)|
                  && CssFiles(items[1..])[k - |head|] == CssOf(items[1..][i].1)[n];
      assert items[i + 1] == items[1..][i];
    }
  }

  /** `uri` is "/assets/" + the `file` of an entry point of `data`. */
  predicate IsEntryPointUri(data: ManifestData, uri: string)
  {
    exists i :: 0 <= i < |data| && IsEntryPoint(data[i].1) && uri == AssetUri(data[i].1.file)
  }

  /** `uri` is "/assets/" + an element of the `css` array of an entry point of `data`. */
  predicate IsEntryPointCssUri(data: ManifestData, uri: string)
  {
    exists i, n :: 0 <= i < |data| && IsEntryPoint(data[i].1) && 0 <= n < |CssOf(data[i].1)|
                   && uri == AssetUri(CssOf(data[i].1)[n])
  }

  /** Each script entry is "/assets/" + the `file` of an entry point, as written. */
  lemma JsEntriesVerbatim(data: ManifestData)
    requires ParseSpec(Decoded(data)).Ok?
    ensures forall uri :: uri in ParseSpec(Decoded(data)).value.jsEntries ==> IsEntryPointUri(data, uri)
  {
    ParseItemsMeaning(data, data);
    var js := ParseItems(data, data).value.jsEntries;
    assert UrisOf(js, EntryPointFiles(data));
    forall k | 0 <= k < |js|
      ensures IsEntryPointUri(data, js[k])
    {
      EntryPointFilesFrom(data, k);
      var i :| 0 <= i < |data| && IsEntryPoint(data[i].1) && EntryPointFiles(data)[k] == data[i].1.file;
      assert js[k] == AssetUri(data[i].1.file);
    }
  }

  /** Each style entry is "/assets/" + an element of an entry point's `css` array, as written. */
  lemma CssEntriesVerbatim(data: ManifestData)
    requires ParseSpec(Decoded(data)).Ok?
    ensures forall uri :: uri in ParseSpec(Decoded(data)).value.cssEntries ==> IsEntryPointCssUri(data, uri)
  {
    ParseItemsMeaning(data, data);
    var css := ParseItems(data, data).value.cssEntries;
    assert UrisOf(css, CssFiles(data));
    forall k | 0 <= k < |css|
      ensures IsEntryPointCssUri(data, css[k])
    {
      CssFilesFrom(data, k);
      var i, n :| 0 <= i < |data| && IsEntryPoint(data[i].1) && 0 <= n < |CssOf(data[i].1)|
                  && CssFiles(data)[k] == CssOf(data[i].1)[n];
      assert css[k] == AssetUri(CssOf(data[i].1)[n]);
    }
  }

  /** Each preload is "/assets/" + the `file` of the record its dynamic import names. */
  lemma PreloadVerbatim(data: ManifestData)
    requires ParseSpec(Decoded(data)).Ok?
    ensures |ParseSpec(Decoded(data)).value.preload| == |ImportNames(data)|
    ensures forall k :: 0 <= k < |ParseSpec(Decoded(data)).value.preload| ==>
              exists i :: 0 <= i < |data| && data[i].0 == ImportNames(data)[k]
                          && ParseSpec(Decoded(data)).value.preload[k] == AssetUri(data[i].1.file)
  {
    ParseItemsMeaning(data, data);
  }

  /** `uri` is "/assets/" + the `file` of some record with `src`, as written. */
  predicate SrcRecordUri(data: ManifestData, uri: string)
  {
    exists i :: 0 <= i < |data| && data[i].1.hasSrc && uri == AssetUri(data[i].1.file)
  }

  /** Each URI in the asset map is "/assets/" + the `file` of a record with `src`, as written. */
  lemma AssetsVerbatim(data: ManifestData)
    requires ParseSpec(Decoded(data)).Ok?
    ensures forall k :: 0 <= k < |ParseSpec(Decoded(data)).value.assets| ==>
              SrcRecordUri(data, ParseSpec(Decoded(data)).value.assets[k].1)
  {
    ParseItemsMeaning(data, data);
    forall k | 0 <= k < |AssetsOf(data)|
      ensures SrcRecordUri(data, AssetsOf(data)[k].1)
    {
      WrittenByRecord(data, k);
    }
  }

  /** The pair at position k of the asset map was written by some record with `src`. */
  lemma WrittenByRecord(data: ManifestData, k: nat)
    requires k < |AssetsOf(data)|
    ensures SrcRecordUri(data, AssetsOf(data)[k].1)
  {
    var m := AssetsOf(data);
    AssetsKeysDistinct(data);
    GetDistinct(m, k);
    AssetsValueWriter(data, m[k].0);
    var i :| LastWriter(data, m[k].0, i) && Get(m, m[k].0) == Some(AssetUri(data[i].1.file));
    assert data[i].1.hasSrc && m[k].1 == AssetUri(data[i].1.file);
  }

  /** Once a dynamic import fails to resolve, later names do not change the outcome. */
  lemma {:induction false} ResolveImportsErrorPersists(data: ManifestData, names: seq<string>, n: nat)
    requires n <= |names| && ResolveImports(data, names[..n]).Err?
    ensures ResolveImports(data, names) == ResolveImports(data, names[..n])
  {
    if n < |names| {
      var init := names[..|names| - 1];
      assert init[..n] == names[..n];
      ResolveImportsErrorPersists(data, init, n);
    } else {
      assert names[..n] == names;
    }
  }

  /** Once a record fails, the records after it do not change the outcome: parse aborts. */
  lemma {:induction false} ParseItemsErrorPersists(data: ManifestData, items: ManifestData, n: nat)
    requires n <= |items| && ParseItems(data, items[..n]).Err?
    ensures ParseItems(data, items) == ParseItems(data, items[..n])
  {
    if n < |items| {
      var init := items[..|items| - 1];
      assert init[..n] == items[..n];
      ParseItemsErrorPersists(data, init, n);
    } else {
      assert items[..n] == items;
    }
  }

  const ExampleMain: (string, Entry) :=
    ("main.js", Entry("main.abc123.js", false, Some(true), Some(["main.def456.css"]), Some(["lazy.js"])))
  const ExampleLazy: (string, Entry) := ("lazy.js", Entry("lazy.ghi789.js", true, None, None, None))
  /** An entry point with a style sheet and a dynamic import of a source asset. */
  const ExampleManifest: ManifestData := [ExampleMain, ExampleLazy]
  const ExampleAfterMain :=
    Collections([AssetUri("lazy.ghi789.js")], [], [AssetUri("main.abc123.js")], [AssetUri("main.def456.css")])

  lemma ExampleFirstRecord()
    ensures ParseItems(ExampleManifest, ExampleManifest[..1]) == Ok(ExampleAfterMain)
  {
    var data := ExampleManifest;
    var nothing: seq<string> := [];
    var names, css := ["lazy.js"], ["main.def456.css"];
    var lazy, main, style := AssetUri("lazy.ghi789.js"), AssetUri("main.abc123.js"), AssetUri("main.def456.css");
    assert nothing + [lazy] == [lazy] && nothing + [main] == [main] && nothing + [style] == [style];
    // "lazy.js" is the key of the second record; each array of the first record has one element.
    IndexOfFirst(data, "lazy.js", 1);
    assert names[..0] == [] && css[..0] == [];
    assert ResolveImports(data, names) == Ok(nothing + [lazy]);
    assert AssetUris(css) == nothing + [style];
    assert ImportsOf(ExampleMain.1) == names && CssOf(ExampleMain.1) == css;
    // The fold over the one-record prefix is that record's step from empty collections.
    assert ExampleManifest[..1] == [ExampleMain] && ExampleManifest[..1][..0] == [];
    assert ParseItems(data, ExampleManifest[..1]) == ProcessEntry(data, NoCollections, ExampleMain.0, ExampleMain.1);
    assert ProcessEntry(data, NoCollections, ExampleMain.0, ExampleMain.1)
           == Ok(Collections(nothing + [lazy], [], nothing + [main], nothing + [style]));
  }

  lemma ExampleSecondRecord()
    ensures ProcessEntry(ExampleManifest, ExampleAfterMain, ExampleLazy.0, ExampleLazy.1)
            == Ok(ExampleAfterMain.(assets := [("lazy.js", AssetUri("lazy.ghi789.js"))]))
  {
    assert '/' !in "lazy.js";
    BasenameOfName([], "lazy.js");
    var uri := AssetUri("lazy.ghi789.js");
    var empty: OMap<string> := [];
    assert Put(empty, "lazy.js", uri) == empty + [("lazy.js", uri)];
    assert empty + [("lazy.js", uri)] == [("lazy.js", uri)];
    assert ExampleAfterMain.assets == empty;
  }

  /** The worked example: the four collections for ExampleManifest. */
  lemma ScenarioExample()
    ensures ParseSpec(Decoded(ExampleManifest)) == Ok(Collections(
              [AssetUri("lazy.ghi789.js")],
              [("lazy.js", AssetUri("lazy.ghi789.js"))],
              [AssetUri("main.abc123.js")],
              [AssetUri("main.def456.css")]))
  {
    var data := ExampleManifest;
    ExampleFirstRecord();
    ExampleSecondRecord();
    assert data[..|data| - 1] == data[..1] && data[|data| - 1] == ExampleLazy;
    assert ParseItems(data, data) == ProcessEntry(data, ExampleAfterMain, ExampleLazy.0, ExampleLazy.1);
  }
}
