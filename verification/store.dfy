/** The item store of store/useStore.ts: an ordered list of item records and its four operations.
    Each operation maps the current list to the next one together with the paths it hands to the
    fire-and-forget `deleteImage`, in the order the calls are made. */
module Store {
  import opened Wrappers
  import Seqs

  datatype ItemKind = Preset | Custom

  datatype Item = Item(
    id: string,
    name: string,
    kind: ItemKind,
    iconUri: string,
    locationImageUri: Option<string>,
    updatedAt: int)

  /** The list after an operation and the delete requests it emitted. */
  datatype Step = Step(items: seq<Item>, deletes: seq<string>)

  ghost predicate UniqueIds(items: seq<Item>)
  {
    forall i, j :: 0 <= i < j < |items| ==> items[i].id != items[j].id
  }

  ghost predicate HasId(items: seq<Item>, id: string)
  {
    exists i :: 0 <= i < |items| && items[i].id == id
  }

  /** The position `items.find(i => i.id === id)` stops at: the first record with that id. */
  function FirstIndex(items: seq<Item>, id: string): (r: Option<nat>)
    ensures r.Some? ==> r.value < |items| && items[r.value].id == id
    ensures r.Some? ==> forall j :: 0 <= j < r.value ==> items[j].id != id
    ensures r.None? <==> !HasId(items, id)
  {
    if |items| == 0 then None
    else if items[0].id == id then Some(0)
    else
      match FirstIndex(items[1..], id)
      case None =>
        assert forall j :: 1 <= j < |items| ==> items[j] == items[1..][j - 1];
        None
      case Some(k) => Some(k + 1)
  }

  /** `items.find(i => i.id === id)` */
  function Find(items: seq<Item>, id: string): (r: Option<Item>)
    ensures r.None? <==> !HasId(items, id)
    ensures r.Some? ==> r.value in items && r.value.id == id
    ensures r.Some? ==> forall j :: 0 <= j < |items| && items[j] != r.value ==>
      items[j].id == id ==> exists i :: 0 <= i < j && items[i] == r.value
  {
    match FirstIndex(items, id)
    case None => None
    case Some(k) => Some(items[k])
  }

  /** `addItem(item)`: appends, with no check on the id. */
  function AddItem(items: seq<Item>, item: Item): (r: Step)
    ensures |r.items| == |items| + 1
    ensures r.items[..|items|] == items && r.items[|items|] == item
    ensures r.deletes == []
  {
    Step(items + [item], [])
  }

  /** The `items.map` of `updateLocation`: every record with the id gets the new photo and time. */
  function SetLocation(items: seq<Item>, id: string, newImageUri: string, now: int): (r: seq<Item>)
    ensures |r| == |items|
    ensures forall i :: 0 <= i < |items| ==>
      r[i] == if items[i].id == id then items[i].(locationImageUri := Some(newImageUri), updatedAt := now) else items[i]
  {
    if |items| == 0 then []
    else
      var head := if items[0].id == id then items[0].(locationImageUri := Some(newImageUri), updatedAt := now) else items[0];
      [head] + SetLocation(items[1..], id, newImageUri, now)
  }

  /** `updateLocation(id, newImageUri)` at time `now`. */
  function UpdateLocation(items: seq<Item>, id: string, newImageUri: string, now: int): (r: Step)
    ensures |r.items| == |items|
    ensures forall i :: 0 <= i < |items| ==>
      && r.items[i].id == items[i].id
      && r.items[i].name == items[i].name
      && r.items[i].kind == items[i].kind
      && r.items[i].iconUri == items[i].iconUri
    ensures forall i :: 0 <= i < |items| && items[i].id == id ==>
      r.items[i].locationImageUri == Some(newImageUri) && r.items[i].updatedAt == now
    ensures forall i :: 0 <= i < |items| && items[i].id != id ==> r.items[i] == items[i]
    ensures !HasId(items, id) ==> r == Step(items, [])
    ensures |r.deletes| <= 1
    ensures r.deletes != [] <==>
      FirstIndex(items, id).Some? && Truthy(items[FirstIndex(items, id).value].locationImageUri)
    ensures r.deletes != [] ==>
      r.deletes[0] == items[FirstIndex(items, id).value].locationImageUri.value
  {
    var deletes :=
      match Find(items, id)
      case Some(item) => if Truthy(item.locationImageUri) then [item.locationImageUri.value] else []
      case None => [];
    var updated := SetLocation(items, id, newImageUri, now);
    assert !HasId(items, id) ==> updated == items;
    Step(updated, deletes)
  }

  /** The files `deleteItem` asks to remove for the record it found: a custom icon, then the photo. */
  function OwnedFiles(item: Item): (r: seq<string>)
    ensures forall f :: f in r <==>
      f != "" && ((item.kind == Custom && f == item.iconUri) || item.locationImageUri == Some(f))
    ensures |r| <= 2
    ensures item.kind == Custom && item.iconUri != "" ==> |r| > 0 && r[0] == item.iconUri
  {
    (if item.iconUri != "" && item.kind == Custom then [item.iconUri] else [])
    + (if Truthy(item.locationImageUri) then [item.locationImageUri.value] else [])
  }

  /** The test of `deleteItem`'s `filter`. */
  function KeepOther(id: string): Item -> bool
  {
    (x: Item) => x.id != id
  }

  /** `deleteItem(id)`: drops every record with the id; only the first one's files are deleted. */
  function DeleteItem(items: seq<Item>, id: string): (r: Step)
    ensures forall x :: x in r.items <==> x in items && x.id != id
    ensures Seqs.IsSubsequence(r.items, items)
    ensures !HasId(items, id) ==> r == Step(items, [])
    ensures HasId(items, id) ==>
      var found := items[FirstIndex(items, id).value];
      var icon := found.kind == Custom && found.iconUri != "";
      var photo := Truthy(found.locationImageUri);
      && |r.deletes| == (if icon then 1 else 0) + (if photo then 1 else 0)
      && (icon ==> r.deletes[0] == found.iconUri)
      && (photo ==> r.deletes[|r.deletes| - 1] == found.locationImageUri.value)
  {
    var deletes :=
      match Find(items, id)
      case Some(item) => OwnedFiles(item)
      case None => [];
    var kept := Seqs.Filter(items, KeepOther(id));
    Seqs.FilterIsSubsequence(items, KeepOther(id));
    if FirstIndex(items, id).None? then
      Seqs.FilterKeepsAll(items, KeepOther(id));
      Step(kept, deletes)
    else
      Step(kept, deletes)
  }

  /** The nine records `initializeDefaults` writes, stamped with `now`. */
  function DefaultItems(now: int): (r: seq<Item>)
    ensures |r| == 9
    ensures forall i :: 0 <= i < |r| ==>
      && r[i].kind == Preset && r[i].iconUri == "preset:" + r[i].name
      && r[i].locationImageUri == None && r[i].updatedAt == now
  {
    [ Item("default-1", "Keys", Preset, "preset:Keys", None, now),
      Item("default-2", "Wallet", Preset, "preset:Wallet", None, now),
      Item("default-3", "Glasses", Preset, "preset:Glasses", None, now),
      Item("default-4", "Remote", Preset, "preset:Remote", None, now),
      Item("default-5", "Bag", Preset, "preset:Bag", None, now),
      Item("default-6", "Headphones", Preset, "preset:Headphones", None, now),
      Item("default-7", "Umbrella", Preset, "preset:Umbrella", None, now),
      Item("default-8", "Watch", Preset, "preset:Watch", None, now),
      Item("default-9", "Game", Preset, "preset:Game", None, now) ]
  }

  /** The list the store starts with before anything is rehydrated; the source writes it out
      separately from `initializeDefaults`. */
  function InitialItems(now: int): (r: seq<Item>)
    ensures r == DefaultItems(now)
  {
    [ Item("default-1", "Keys", Preset, "preset:Keys", None, now),
      Item("default-2", "Wallet", Preset, "preset:Wallet", None, now),
      Item("default-3", "Glasses", Preset, "preset:Glasses", None, now),
      Item("default-4", "Remote", Preset, "preset:Remote", None, now),
      Item("default-5", "Bag", Preset, "preset:Bag", None, now),
      Item("default-6", "Headphones", Preset, "preset:Headphones", None, now),
      Item("default-7", "Umbrella", Preset, "preset:Umbrella", None, now),
      Item("default-8", "Watch", Preset, "preset:Watch", None, now),
      Item("default-9", "Game", Preset, "preset:Game", None, now) ]
  }

  /** `"default-" + n` for a single digit `n`. */
  function DefaultId(n: nat): string
    requires 1 <= n <= 9
  {
    "default-" + [(('0' as int) + n) as char]
  }

  /** Distinct digits give distinct default ids. */
  lemma DefaultIdsDistinct(n: nat, m: nat)
    requires 1 <= n <= 9 && 1 <= m <= 9 && n != m
    ensures DefaultId(n) != DefaultId(m)
  {
    assert DefaultId(n)[8] != DefaultId(m)[8];
  }

  /** The shape of the `i`-th default record. */
  lemma DefaultItemShape(now: int, i: nat)
    requires i < 9
    ensures var x := DefaultItems(now)[i];
      && x.id == DefaultId(i + 1)
      && x.kind == Preset
      && x.iconUri == "preset:" + x.name
      && x.locationImageUri == None
      && x.updatedAt == now
  {
  }

  /** `initializeDefaults()`: replaces whatever was there by the defaults, deleting no file. */
  function InitializeDefaults(items: seq<Item>, now: int): (r: Step)
    ensures |r.items| == 9
    ensures forall i :: 0 <= i < 9 ==>
      && r.items[i].id == DefaultId(i + 1)
      && r.items[i].kind == Preset
      && r.items[i].iconUri == "preset:" + r.items[i].name
      && r.items[i].locationImageUri == None
      && r.items[i].updatedAt == now
    ensures UniqueIds(r.items)
    ensures r.deletes == []
  {
    var d := DefaultItems(now);
    forall i | 0 <= i < 9
      ensures && d[i].id == DefaultId(i + 1) && d[i].kind == Preset
              && d[i].iconUri == "preset:" + d[i].name
              && d[i].locationImageUri == None && d[i].updatedAt == now
    {
      DefaultItemShape(now, i);
    }
    assert UniqueIds(d) by {
      forall i, j | 0 <= i < j < 9 ensures d[i].id != d[j].id {
        DefaultIdsDistinct(i + 1, j + 1);
      }
    }
    Step(d, [])
  }

  /** `deleteItem` removes every copy of every record with the id and keeps each other record
      exactly as often as it occurred. */
  lemma DeleteItemCounts(items: seq<Item>, id: string)
    ensures forall x :: multiset(DeleteItem(items, id).items)[x] == if x.id == id then 0 else multiset(items)[x]
  {
    Seqs.FilterCounts(items, KeepOther(id));
  }

  /** The starting list and `initializeDefaults` agree on every record apart from its timestamp. */
  lemma InitialItemsAreDefaults(items: seq<Item>, t1: int, t2: int)
    ensures |InitialItems(t1)| == |InitializeDefaults(items, t2).items|
    ensures forall i :: 0 <= i < |InitialItems(t1)| ==>
      InitialItems(t1)[i].(updatedAt := t2) == InitializeDefaults(items, t2).items[i]
  {
  }

  /** Adding a record whose id is new and then deleting that id gives back the list, and asks
      for the deletion of the files the record owned. */
  lemma AddThenDeleteRestores(items: seq<Item>, item: Item)
    requires !HasId(items, item.id)
    ensures DeleteItem(AddItem(items, item).items, item.id) == Step(items, OwnedFiles(item))
  {
    var added := items + [item];
    Seqs.FilterAppend(items, [item], KeepOther(item.id));
    Seqs.FilterKeepsAll(items, KeepOther(item.id));
    assert added[|items|] == item;
    assert FirstIndex(added, item.id) == Some(|items|);
  }

  /** Appending a record with a new id keeps ids unique. */
  lemma AddItemKeepsUnique(items: seq<Item>, item: Item)
    requires UniqueIds(items) && !HasId(items, item.id)
    ensures UniqueIds(AddItem(items, item).items)
  {
  }

  /** `updateLocation` never touches ids, so it keeps them unique. */
  lemma UpdateLocationKeepsUnique(items: seq<Item>, id: string, newImageUri: string, now: int)
    requires UniqueIds(items)
    ensures UniqueIds(UpdateLocation(items, id, newImageUri, now).items)
  {
  }

  /** `deleteItem` keeps ids unique. */
  lemma DeleteItemKeepsUnique(items: seq<Item>, id: string)
    requires UniqueIds(items)
    ensures UniqueIds(DeleteItem(items, id).items)
  {
    Seqs.FilterKeepsDistinct(items, (x: Item) => x.id, KeepOther(id));
  }

  /** With unique ids, deleting an id that is present removes exactly one record: the one found. */
  lemma DeleteUniqueRemovesOne(items: seq<Item>, id: string)
    requires UniqueIds(items) && HasId(items, id)
    ensures var k := FirstIndex(items, id).value;
      DeleteItem(items, id).items == items[..k] + items[k + 1..]
  {
    var k := FirstIndex(items, id).value;
    forall i | 0 <= i < |items| && i != k ensures KeepOther(id)(items[i]) {
      if i > k { assert items[k].id != items[i].id; }
    }
    Seqs.FilterDropsOne(items, KeepOther(id), k);
  }

  /** A run of `addItem` calls. */
  function AddAll(items: seq<Item>, added: seq<Item>): (r: seq<Item>)
    ensures r == items + added
    decreases |added|
  {
    if |added| == 0 then items
    else
      assert items + added == (items + [added[0]]) + added[1..];
      AddAll(AddItem(items, added[0]).items, added[1..])
  }

  /** A run of `deleteItem` calls. */
  function DeleteAll(items: seq<Item>, ids: seq<string>): seq<Item>
    decreases |ids|
  {
    if |ids| == 0 then items else DeleteAll(DeleteItem(items, ids[0]).items, ids[1..])
  }

  /** Deleting a run of ids, in any order, removes exactly the records carrying one of them. */
  lemma {:induction false} DeleteAllRemovesListed(items: seq<Item>, ids: seq<string>)
    ensures DeleteAll(items, ids) == Seqs.Filter(items, (x: Item) => x.id !in ids)
    decreases |ids|
  {
    if |ids| == 0 {
      Seqs.FilterKeepsAll(items, (x: Item) => x.id !in ids);
    } else {
      var once := DeleteItem(items, ids[0]).items;
      DeleteAllRemovesListed(once, ids[1..]);
      assert forall x: Item :: (x.id !in ids) == (x.id != ids[0] && x.id !in ids[1..]) by {
        assert ids == [ids[0]] + ids[1..];
      }
      Seqs.FilterFilter(items, KeepOther(ids[0]), (x: Item) => x.id !in ids[1..], (x: Item) => x.id !in ids);
    }
  }

  /** Starting empty, adding records and then deleting every one of their ids, in any order,
      empties the store again. */
  lemma AddAllThenDeleteAll(added: seq<Item>, ids: seq<string>)
    requires forall i :: 0 <= i < |added| ==> added[i].id in ids
    ensures |AddAll([], added)| == |added|
    ensures DeleteAll(AddAll([], added), ids) == []
  {
    assert [] + added == added;
    DeleteAllRemovesListed(added, ids);
    Seqs.FilterRejectsAll(added, (x: Item) => x.id !in ids);
  }

  /** Replacing a record's photo by the path it already holds still asks for that path to be
      deleted: the record then names a file that the request removes. */
  lemma UpdateToSamePathDeletesIt(items: seq<Item>, id: string, now: int)
    requires HasId(items, id)
    requires Truthy(items[FirstIndex(items, id).value].locationImageUri)
    ensures var k := FirstIndex(items, id).value;
      var path := items[k].locationImageUri.value;
      var r := UpdateLocation(items, id, path, now);
      r.deletes == [path] && r.items[k].locationImageUri == Some(path)
  {
  }
}
