/** The pure parts of the item list screen (app/index.tsx): the icon an item is drawn with, the
    search filter, the "recently updated" test and the effect that reseeds an empty store. */
module IndexScreen {
  import opened Wrappers
  import opened Strings
  import opened Icons
  import Store
  import Seqs

  /** The ten `preset:` tokens `getPresetIcon` compares for equality, in the order it tries them. */
  const TokenIcons: seq<(string, Icon)> := [
    ("preset:Keys", Key), ("preset:Wallet", Wallet), ("preset:Glasses", Glasses),
    ("preset:Remote", Tv), ("preset:Bag", Briefcase), ("preset:Headphones", Headphones),
    ("preset:Umbrella", Umbrella), ("preset:Watch", Watch), ("preset:Game", Gamepad2),
    ("preset:Default", Package)
  ]

  /** The five legacy asset filenames `getPresetIcon` looks for as substrings, in order. */
  const LegacyIcons: seq<(string, Icon)> := [
    ("car-keys.png", Key), ("wallet.png", Wallet), ("glasses.png", Glasses),
    ("tv-remote.png", Tv), ("backpack.png", Briefcase)
  ]

  /** `getPresetIcon(uri)`: the chain of tests of the source, first match wins; None is null. */
  function GetPresetIcon(uri: string): (r: Option<Icon>)
    ensures uri == "" ==> r.None?
    ensures '.' !in uri && r.Some? ==> IsPrefix("preset:", uri)
  {
    assert '.' !in uri ==> forall j :: 0 <= j < |LegacyIcons| ==> !Contains(uri, LegacyIcons[j].0) by {
      if '.' !in uri {
        forall j | 0 <= j < |LegacyIcons| ensures !Contains(uri, LegacyIcons[j].0) {
          assert '.' in LegacyIcons[j].0;
          if Contains(uri, LegacyIcons[j].0) { ContainsHasChars(uri, LegacyIcons[j].0, '.'); }
        }
      }
    }
    assert LegacyIcons[0].0 == "car-keys.png" && LegacyIcons[1].0 == "wallet.png" && LegacyIcons[2].0 == "glasses.png";
    assert LegacyIcons[3].0 == "tv-remote.png" && LegacyIcons[4].0 == "backpack.png";
    if uri == "preset:Keys" || Contains(uri, "car-keys.png") then Some(Key)
    else if uri == "preset:Wallet" || Contains(uri, "wallet.png") then Some(Wallet)
    else if uri == "preset:Glasses" || Contains(uri, "glasses.png") then Some(Glasses)
    else if uri == "preset:Remote" || Contains(uri, "tv-remote.png") then Some(Tv)
    else if uri == "preset:Bag" || Contains(uri, "backpack.png") then Some(Briefcase)
    else if uri == "preset:Headphones" then Some(Headphones)
    else if uri == "preset:Umbrella" then Some(Umbrella)
    else if uri == "preset:Watch" then Some(Watch)
    else if uri == "preset:Game" then Some(Gamepad2)
    else if uri == "preset:Default" then Some(Package)
    else None
  }

  /** No token has a `.` in it, while every legacy filename does. */
  lemma TokensAreNotFilenames(k: nat, j: nat)
    requires k < |TokenIcons| && j < |LegacyIcons|
    ensures !Contains(TokenIcons[k].0, LegacyIcons[j].0)
  {
    assert '.' in LegacyIcons[j].0;
    assert '.' !in TokenIcons[k].0;
    if Contains(TokenIcons[k].0, LegacyIcons[j].0) {
      ContainsHasChars(TokenIcons[k].0, LegacyIcons[j].0, '.');
    }
  }

  /** Each of the ten tokens is drawn with its icon. */
  lemma GetPresetIconOfToken(k: nat)
    requires k < |TokenIcons|
    ensures GetPresetIcon(TokenIcons[k].0) == Some(TokenIcons[k].1)
  {
    forall j | 0 <= j < |LegacyIcons| ensures !Contains(TokenIcons[k].0, LegacyIcons[j].0) {
      TokensAreNotFilenames(k, j);
    }
    var t := TokenIcons[k].0;
    assert !Contains(t, "car-keys.png") && !Contains(t, "wallet.png") && !Contains(t, "glasses.png")
      && !Contains(t, "tv-remote.png") && !Contains(t, "backpack.png") by {
      assert LegacyIcons[0].0 == "car-keys.png" && LegacyIcons[1].0 == "wallet.png";
      assert LegacyIcons[2].0 == "glasses.png" && LegacyIcons[3].0 == "tv-remote.png";
      assert LegacyIcons[4].0 == "backpack.png";
    }
    assert TokenIcons[0].0 == "preset:Keys" && TokenIcons[1].0 == "preset:Wallet";
    assert TokenIcons[2].0 == "preset:Glasses" && TokenIcons[3].0 == "preset:Remote";
    assert TokenIcons[4].0 == "preset:Bag" && TokenIcons[5].0 == "preset:Headphones";
    assert TokenIcons[6].0 == "preset:Umbrella" && TokenIcons[7].0 == "preset:Watch";
    assert TokenIcons[8].0 == "preset:Game" && TokenIcons[9].0 == "preset:Default";
  }

  /** A uri holding the `k`-th legacy filename, and none of the earlier ones, is drawn with that
      filename's icon. */
  lemma GetPresetIconOfLegacy(uri: string, k: nat)
    requires k < |LegacyIcons|
    requires Contains(uri, LegacyIcons[k].0)
    requires forall j :: 0 <= j < k ==> !Contains(uri, LegacyIcons[j].0)
    ensures GetPresetIcon(uri) == Some(LegacyIcons[k].1)
  {
    forall t | 0 <= t < |TokenIcons| ensures uri != TokenIcons[t].0 {
      TokensAreNotFilenames(t, k);
    }
    assert uri != TokenIcons[0].0 && uri != TokenIcons[1].0 && uri != TokenIcons[2].0;
    assert uri != TokenIcons[3].0 && uri != TokenIcons[4].0;
    if k == 0 {
    } else if k == 1 {
      assert !Contains(uri, LegacyIcons[0].0);
    } else if k == 2 {
      assert !Contains(uri, LegacyIcons[0].0) && !Contains(uri, LegacyIcons[1].0);
    } else if k == 3 {
      assert !Contains(uri, LegacyIcons[0].0) && !Contains(uri, LegacyIcons[1].0);
      assert !Contains(uri, LegacyIcons[2].0);
    } else {
      assert !Contains(uri, LegacyIcons[0].0) && !Contains(uri, LegacyIcons[1].0);
      assert !Contains(uri, LegacyIcons[2].0) && !Contains(uri, LegacyIcons[3].0);
    }
  }

  /** Every other string is drawn with no preset icon. */
  lemma GetPresetIconNone(uri: string)
    ensures GetPresetIcon(uri).None? <==>
      && (forall k :: 0 <= k < |TokenIcons| ==> uri != TokenIcons[k].0)
      && (forall j :: 0 <= j < |LegacyIcons| ==> !Contains(uri, LegacyIcons[j].0))
  {
    assert TokenIcons[0].0 == "preset:Keys" && TokenIcons[1].0 == "preset:Wallet";
    assert TokenIcons[2].0 == "preset:Glasses" && TokenIcons[3].0 == "preset:Remote";
    assert TokenIcons[4].0 == "preset:Bag" && TokenIcons[5].0 == "preset:Headphones";
    assert TokenIcons[6].0 == "preset:Umbrella" && TokenIcons[7].0 == "preset:Watch";
    assert TokenIcons[8].0 == "preset:Game" && TokenIcons[9].0 == "preset:Default";
    assert LegacyIcons[0].0 == "car-keys.png" && LegacyIcons[1].0 == "wallet.png";
    assert LegacyIcons[2].0 == "glasses.png" && LegacyIcons[3].0 == "tv-remote.png";
    assert LegacyIcons[4].0 == "backpack.png";
  }

  /** The search test: the lowercased name includes the lowercased search text. */
  function Matches(searchText: string): Store.Item -> bool
  {
    (item: Store.Item) => Contains(Lower(item.name), Lower(searchText))
  }

  /** `filteredItems` */
  function FilterItems(items: seq<Store.Item>, searchText: string): (r: seq<Store.Item>)
    ensures Seqs.IsSubsequence(r, items)
    ensures forall x :: x in r <==> x in items && Contains(Lower(x.name), Lower(searchText))
    ensures forall x :: multiset(r)[x] == if Contains(Lower(x.name), Lower(searchText)) then multiset(items)[x] else 0
  {
    Seqs.FilterIsSubsequence(items, Matches(searchText));
    Seqs.FilterCounts(items, Matches(searchText));
    Seqs.Filter(items, Matches(searchText))
  }

  /** An empty search shows every item, in order. */
  lemma EmptySearchKeepsAll(items: seq<Store.Item>)
    ensures FilterItems(items, "") == items
  {
    forall i | 0 <= i < |items| ensures Matches("")(items[i]) {
      ContainsEmpty(Lower(items[i].name));
    }
    Seqs.FilterKeepsAll(items, Matches(""));
  }

  /** `isRecent`: updated less than 24 hours (in milliseconds) before `now`. */
  predicate IsRecent(now: int, updatedAt: int): (b: bool)
    ensures b <==> updatedAt > now - 86_400_000
  {
    now - updatedAt < 24 * 60 * 60 * 1000
  }

  /** After its photo is replaced at `t`, a record shows as recent at any later reading exactly
      while less than 86 400 000 ms have passed since `t`. */
  lemma RecentAfterUpdate(items: seq<Store.Item>, id: string, newImageUri: string, t: int, later: int, i: nat)
    requires i < |items| && items[i].id == id && t <= later
    ensures IsRecent(later, Store.UpdateLocation(items, id, newImageUri, t).items[i].updatedAt)
      <==> later - t < 86_400_000
  {
  }

  /** A record whose photo was just replaced shows as recent. */
  lemma UpdatedIsRecent(items: seq<Store.Item>, id: string, newImageUri: string, now: int, i: nat)
    requires i < |items| && items[i].id == id
    ensures IsRecent(now, Store.UpdateLocation(items, id, newImageUri, now).items[i].updatedAt)
  {
  }

  /** The effect of the screen: an empty list is replaced by the defaults; any other is kept. */
  function EnsureDefaults(items: seq<Store.Item>, now: int): (r: seq<Store.Item>)
    ensures |r| > 0
    ensures |items| > 0 ==> r == items
    ensures |items| == 0 ==> r == Store.DefaultItems(now) && Store.UniqueIds(r)
  {
    if |items| == 0 then Store.InitializeDefaults(items, now).items else items
  }

  /** Running the effect again changes nothing. */
  lemma EnsureDefaultsIdempotent(items: seq<Store.Item>, now: int, later: int)
    ensures EnsureDefaults(EnsureDefaults(items, now), later) == EnsureDefaults(items, now)
  {
  }

  /** Deleting the last item empties the list, and the effect then brings the defaults back. */
  lemma DeletingLastItemReseeds(item: Store.Item, now: int)
    ensures var emptied := Store.DeleteItem([item], item.id).items;
      emptied == [] && EnsureDefaults(emptied, now) == Store.InitializeDefaults(emptied, now).items
  {
  }
}
