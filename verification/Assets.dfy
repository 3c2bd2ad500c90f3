/**
  The video assets of a content row, grouped by type. Both operations read the row, change their copy of its
  asset list, and store the copy if the row can still be written.
 */
module Assets {

  datatype AssetType = Trailer | Teaser | Clip | Promo | Bts

  datatype AssetKey = AssetKey(id: string, value: string)

  datatype Asset = Asset(assetType: AssetType, keys: seq<AssetKey>)

  /** What becomes of one file: its key once it is stored, or nothing. */
  datatype Upload = Done(key: AssetKey) | Failed

  /** One group per type, and no group without keys. */
  ghost predicate Tidy(assets: seq<Asset>) {
    && (forall i, j :: 0 <= i < j < |assets| ==> assets[i].assetType != assets[j].assetType)
    && (forall i :: 0 <= i < |assets| ==> assets[i].keys != [])
  }

  function GroupFrom(assets: seq<Asset>, t: AssetType, start: nat): (i: nat)
    requires start <= |assets|
    ensures start <= i <= |assets| && (i < |assets| ==> assets[i].assetType == t)
    ensures forall j :: start <= j < i ==> assets[j].assetType != t
    decreases |assets| - start
  {
    if start < |assets| && assets[start].assetType != t then GroupFrom(assets, t, start + 1) else start
  }

  function KeyFrom(keys: seq<AssetKey>, id: string, start: nat): (i: nat)
    requires start <= |keys|
    ensures start <= i <= |keys| && (i < |keys| ==> keys[i].id == id)
    ensures forall j :: start <= j < i ==> keys[j].id != id
    decreases |keys| - start
  {
    if start < |keys| && keys[start].id != id then KeyFrom(keys, id, start + 1) else start
  }

  /** The first group of a type, or the length of the list. */
  function GroupIndex(assets: seq<Asset>, t: AssetType): nat {
    GroupFrom(assets, t, 0)
  }

  /** The first key of that id, or the length of the list. */
  function KeyIndex(keys: seq<AssetKey>, id: string): nat {
    KeyFrom(keys, id, 0)
  }

  /** The keys shown for a type. */
  function KeysOf(assets: seq<Asset>, t: AssetType): seq<AssetKey> {
    var i := GroupIndex(assets, t);
    if i < |assets| then assets[i].keys else []
  }

  /** The keys of the files before the first one that fails. */
  function Uploaded(uploads: seq<Upload>): (keys: seq<AssetKey>)
    ensures |keys| <= |uploads| && (forall i :: 0 <= i < |keys| ==> uploads[i] == Done(keys[i]))
    ensures |keys| < |uploads| ==> uploads[|keys|].Failed?
  {
    if uploads == [] || uploads[0].Failed? then [] else [uploads[0].key] + Uploaded(uploads[1..])
  }

  function WithKeys(assets: seq<Asset>, t: AssetType, keys: seq<AssetKey>): seq<Asset> {
    var i := GroupIndex(assets, t);
    if keys == [] then assets
    else if i < |assets| then assets[i := Asset(t, assets[i].keys + keys)]
    else assets + [Asset(t, keys)]
  }

  predicate HasKey(assets: seq<Asset>, t: AssetType, id: string) {
    KeyIndex(KeysOf(assets, t), id) < |KeysOf(assets, t)|
  }

  function Dropped(keys: seq<AssetKey>, k: nat): (rest: seq<AssetKey>)
    requires k < |keys|
    ensures |rest| == |keys| - 1 && forall i :: 0 <= i < |rest| ==> rest[i] == if i < k then keys[i] else keys[i + 1]
  {
    keys[..k] + keys[k + 1..]
  }

  /** Without the first key of that id, and without the group if that was its only one. */
  function WithoutKey(assets: seq<Asset>, t: AssetType, id: string): seq<Asset>
    requires HasKey(assets, t, id)
  {
    var i := GroupIndex(assets, t);
    var k := KeyIndex(assets[i].keys, id);
    var keys := Dropped(assets[i].keys, k);
    if keys == [] then assets[..i] + assets[i + 1..] else assets[i := Asset(t, keys)]
  }

  datatype Reply = Saved | NotSaved | NotFound

  class StoredAssets {
    var assets: seq<Asset>

    constructor ()
      ensures assets == []
    {
      assets := [];
    }

    /** `writable` says whether the conditional write of the row succeeds. */
    method UploadAssets(t: AssetType, uploads: seq<Upload>, writable: bool) returns (paths: seq<string>, reply: Reply, complete: bool)
      modifies this
      ensures assets == if writable then WithKeys(old(assets), t, Uploaded(uploads)) else old(assets)
      ensures reply == if writable || Uploaded(uploads) == [] then Saved else NotSaved
      ensures complete <==> reply == Saved && |Uploaded(uploads)| == |uploads|
      ensures |paths| == |Uploaded(uploads)| && forall i :: 0 <= i < |paths| ==> paths[i] == Uploaded(uploads)[i].value
    {
      var newKeys, failed;
      newKeys, paths, failed := UploadFiles(uploads);
      if |newKeys| > 0 {
        var changed := AppendKeys(assets, t, newKeys);
        if !writable {
          return paths, NotSaved, false;
        }
        assets := changed;
      }
      return paths, Saved, !failed;
    }

    method DeleteAssetKey(t: AssetType, id: string, writable: bool) returns (reply: Reply)
      modifies this
      ensures reply == if !HasKey(old(assets), t, id) then NotFound else if writable then Saved else NotSaved
      ensures assets == if reply == Saved then WithoutKey(old(assets), t, id) else old(assets)
    {
      var i := FindGroup(assets, t);
      if i == |assets| {
        return NotFound;
      }
      var k := FindKey(assets[i].keys, id);
      if k == |assets[i].keys| {
        return NotFound;
      }
      var keys := assets[i].keys[..k] + assets[i].keys[k + 1..];
      var changed := assets[i := Asset(t, keys)];
      if |keys| == 0 {
        changed := changed[..i] + changed[i + 1..];
        assert changed == assets[..i] + assets[i + 1..];
      }
      if !writable {
        return NotSaved;
      }
      assets := changed;
      return Saved;
    }
  }

  /** Stores the files one after the other and stops at the first that fails. */
  method UploadFiles(uploads: seq<Upload>) returns (newKeys: seq<AssetKey>, paths: seq<string>, failed: bool)
    ensures newKeys == Uploaded(uploads) && (failed <==> |newKeys| < |uploads|)
    ensures |paths| == |newKeys| && forall i :: 0 <= i < |paths| ==> paths[i] == newKeys[i].value
  {
    newKeys, paths, failed := [], [], false;
    for i := 0 to |uploads|
      invariant !failed && |newKeys| == i && forall j :: 0 <= j < i ==> uploads[j] == Done(newKeys[j])
      invariant |paths| == i && forall j :: 0 <= j < i ==> paths[j] == newKeys[j].value
    {
      if uploads[i].Failed? {
        failed := true;
        break;
      }
      newKeys, paths := newKeys + [uploads[i].key], paths + [uploads[i].key.value];
    }
    assert |Uploaded(uploads)| == |newKeys|;
  }

  method FindGroup(assets: seq<Asset>, t: AssetType) returns (i: nat)
    ensures i == GroupIndex(assets, t)
  {
    i := 0;
    while i < |assets|
      invariant i <= |assets| && forall j :: 0 <= j < i ==> assets[j].assetType != t
    {
      if assets[i].assetType == t {
        return;
      }
      i := i + 1;
    }
  }

  method FindKey(keys: seq<AssetKey>, id: string) returns (k: nat)
    ensures k == KeyIndex(keys, id)
  {
    k := 0;
    while k < |keys|
      invariant k <= |keys| && forall j :: 0 <= j < k ==> keys[j].id != id
    {
      if keys[k].id == id {
        return;
      }
      k := k + 1;
    }
  }

  method AppendKeys(assets: seq<Asset>, t: AssetType, keys: seq<AssetKey>) returns (changed: seq<Asset>)
    requires keys != []
    ensures changed == WithKeys(assets, t, keys)
  {
    var i := FindGroup(assets, t);
    if i < |assets| {
      changed := assets[i := Asset(t, assets[i].keys + keys)];
    } else {
      changed := assets + [Asset(t, keys)];
    }
  }

  /** One position is enough to know the first group. */
  lemma GroupIs(assets: seq<Asset>, t: AssetType, i: nat)
    requires i <= |assets| && (i < |assets| ==> assets[i].assetType == t)
    requires forall j :: 0 <= j < i ==> assets[j].assetType != t
    ensures GroupIndex(assets, t) == i
  {
  }

  lemma KeyIs(keys: seq<AssetKey>, id: string, i: nat)
    requires i <= |keys| && (i < |keys| ==> keys[i].id == id)
    requires forall j :: 0 <= j < i ==> keys[j].id != id
    ensures KeyIndex(keys, id) == i
  {
  }

  /** New keys for the first group of a type leave every type where it is. */
  lemma GroupReplaced(assets: seq<Asset>, i: nat, keys: seq<AssetKey>, t: AssetType)
    requires i < |assets| && i == GroupIndex(assets, assets[i].assetType)
    ensures KeysOf(assets[i := Asset(assets[i].assetType, keys)], t) == if assets[i].assetType == t then keys else KeysOf(assets, t)
  {
    GroupIs(assets[i := Asset(assets[i].assetType, keys)], t, GroupIndex(assets, t));
  }

  lemma GroupAppended(assets: seq<Asset>, added: Asset, t: AssetType)
    requires GroupIndex(assets, added.assetType) == |assets|
    ensures KeysOf(assets + [added], t) == if added.assetType == t then added.keys else KeysOf(assets, t)
  {
    var i := GroupIndex(assets, t);
    GroupIs(assets + [added], t, if i < |assets| || added.assetType == t then i else |assets| + 1);
  }

  lemma RemovalKeepsTidy(assets: seq<Asset>, i: nat)
    requires Tidy(assets) && i < |assets|
    ensures Tidy(assets[..i] + assets[i + 1..])
  {
  }

  lemma GroupRemoved(assets: seq<Asset>, i: nat, t: AssetType)
    requires Tidy(assets) && i < |assets|
    ensures KeysOf(assets[..i] + assets[i + 1..], t) == if assets[i].assetType == t then [] else KeysOf(assets, t)
  {
    var rest, o := assets[..i] + assets[i + 1..], GroupIndex(assets, t);
    if assets[i].assetType == t {
      forall j | 0 <= j < |rest| ensures rest[j].assetType != t {
        assert rest[j] == if j < i then assets[j] else assets[j + 1];
      }
      GroupIs(rest, t, |rest|);
    } else {
      var r := if o < i then o else o - 1;
      forall j | 0 <= j < r ensures rest[j].assetType != t {
        assert rest[j] == if j < i then assets[j] else assets[j + 1];
      }
      GroupIs(rest, t, r);
    }
  }

  lemma UploadKeepsTidy(assets: seq<Asset>, t: AssetType, keys: seq<AssetKey>)
    requires Tidy(assets)
    ensures Tidy(WithKeys(assets, t, keys))
  {
  }

  /** An upload adds its keys behind those of its own type and touches no other type. */
  lemma UploadKeys(assets: seq<Asset>, t: AssetType, keys: seq<AssetKey>, other: AssetType)
    ensures KeysOf(WithKeys(assets, t, keys), other) == KeysOf(assets, other) + if other == t then keys else []
  {
    var i := GroupIndex(assets, t);
    assert KeysOf(assets, other) + [] == KeysOf(assets, other);
    if keys != [] {
      if i < |assets| {
        GroupReplaced(assets, i, assets[i].keys + keys, other);
      } else {
        GroupAppended(assets, Asset(t, keys), other);
        assert [] + keys == keys;
      }
    } else {
      assert KeysOf(assets, other) + keys == KeysOf(assets, other);
    }
  }

  /** A deletion takes the one key out of a tidy list, keeps the order of the others and touches no other type. */
  lemma DeleteKeys(assets: seq<Asset>, t: AssetType, id: string, other: AssetType)
    requires Tidy(assets) && HasKey(assets, t, id)
    ensures Tidy(WithoutKey(assets, t, id))
    ensures KeysOf(WithoutKey(assets, t, id), other)
            == if other == t then Dropped(KeysOf(assets, t), KeyIndex(KeysOf(assets, t), id)) else KeysOf(assets, other)
  {
    var i := GroupIndex(assets, t);
    var keys := Dropped(assets[i].keys, KeyIndex(assets[i].keys, id));
    if keys == [] {
      RemovalKeepsTidy(assets, i);
      GroupRemoved(assets, i, other);
    } else {
      GroupReplaced(assets, i, keys, other);
    }
  }

  /** Deleting the only key of an upload restores the list exactly when the type did not have an empty group before. */
  lemma DeleteUndoesUploadIff(assets: seq<Asset>, t: AssetType, key: AssetKey)
    requires !HasKey(assets, t, key.id)
    ensures HasKey(WithKeys(assets, t, [key]), t, key.id)
    ensures WithoutKey(WithKeys(assets, t, [key]), t, key.id) == assets
            <==> (GroupIndex(assets, t) < |assets| ==> KeysOf(assets, t) != [])
  {
    var before, i := KeysOf(assets, t), GroupIndex(assets, t);
    GroupIs(WithKeys(assets, t, [key]), t, i);
    KeyIs(before + [key], key.id, |before|);
    assert KeysOf(WithKeys(assets, t, [key]), t) == before + [key];
    assert (before + [key])[..|before|] + (before + [key])[|before| + 1..] == before;
  }

  datatype Edit = UploadEdit(t: AssetType, uploads: seq<Upload>) | DeleteEdit(t: AssetType, id: string)

  /** What a call leaves behind when its write succeeds. */
  function AfterEdit(assets: seq<Asset>, e: Edit): seq<Asset> {
    match e
    case UploadEdit(t, uploads) => WithKeys(assets, t, Uploaded(uploads))
    case DeleteEdit(t, id) => if HasKey(assets, t, id) then WithoutKey(assets, t, id) else assets
  }

  function AfterEdits(assets: seq<Asset>, edits: seq<Edit>): seq<Asset> {
    if edits == [] then assets else AfterEdit(AfterEdits(assets, edits[..|edits| - 1]), edits[|edits| - 1])
  }

  /** The keys of one type after a call, for a type that has a list of its own. */
  function KeysAfterEdit(keys: seq<AssetKey>, t: AssetType, e: Edit): seq<AssetKey> {
    match e
    case UploadEdit(u, uploads) => if u == t then keys + Uploaded(uploads) else keys
    case DeleteEdit(u, id) => if u == t && KeyIndex(keys, id) < |keys| then Dropped(keys, KeyIndex(keys, id)) else keys
  }

  function KeysAfter(keys: seq<AssetKey>, t: AssetType, edits: seq<Edit>): seq<AssetKey> {
    if edits == [] then keys else KeysAfterEdit(KeysAfter(keys, t, edits[..|edits| - 1]), t, edits[|edits| - 1])
  }

  lemma EditKeepsTidy(assets: seq<Asset>, e: Edit, t: AssetType)
    requires Tidy(assets)
    ensures Tidy(AfterEdit(assets, e))
    ensures KeysOf(AfterEdit(assets, e), t) == KeysAfterEdit(KeysOf(assets, t), t, e)
  {
    match e
    case UploadEdit(u, uploads) =>
      UploadKeepsTidy(assets, u, Uploaded(uploads));
      UploadKeys(assets, u, Uploaded(uploads), t);
      assert KeysOf(assets, t) + [] == KeysOf(assets, t);
    case DeleteEdit(u, id) =>
      if HasKey(assets, u, id) {
        DeleteKeys(assets, u, id, t);
      }
  }

  /**
    Over any sequence of calls a tidy list stays tidy, and the keys of each type are what they would be if every
    type had a list of its own.
   */
  lemma {:induction false} EditsKeepTidy(assets: seq<Asset>, edits: seq<Edit>, t: AssetType)
    requires Tidy(assets)
    ensures Tidy(AfterEdits(assets, edits))
    ensures KeysOf(AfterEdits(assets, edits), t) == KeysAfter(KeysOf(assets, t), t, edits)
  {
    if edits != [] {
      EditsKeepTidy(assets, edits[..|edits| - 1], t);
      EditKeepsTidy(AfterEdits(assets, edits[..|edits| - 1]), edits[|edits| - 1], t);
    }
  }
}
