/** How the pieces fit together: the delete requests the store emits, run against the image file
    manager, and the photo of a new item followed from capture to deletion. */
module Lifecycle {
  import opened Wrappers
  import opened Strings
  import FileSystem
  import Store
  import AddItemScreen
  import IndexScreen

  /** The paths among `paths` that `deleteImage` actually hands to the filesystem. */
  ghost function Managed(p: FileSystem.Platform, paths: seq<string>): set<string>
  {
    set i | 0 <= i < |paths| && paths[i] != "" && IsPrefix(FileSystem.ImagesDir(p), paths[i]) :: paths[i]
  }

  /** A single path is handed on exactly when it passes the guard. */
  lemma ManagedOne(p: FileSystem.Platform, path: string)
    ensures Managed(p, [path]) == if path != "" && IsPrefix(FileSystem.ImagesDir(p), path) then {path} else {}
  {
    if path != "" && IsPrefix(FileSystem.ImagesDir(p), path) {
      assert [path][0] == path;
    }
  }

  /** The emitted `deleteImage` calls, each run to completion, in the order they were made. */
  function ApplyDeletes(p: FileSystem.Platform, disk: FileSystem.Disk, paths: seq<string>): (r: FileSystem.Disk)
    ensures forall k :: k in r.files ==> k in disk.files && r.files[k] == disk.files[k]
    ensures forall k :: k in Managed(p, paths) ==> k !in r.files
    ensures (forall i :: 0 <= i < |paths| ==> paths[i] !in disk.dirs) ==>
      r == FileSystem.Disk(disk.files - Managed(p, paths), disk.dirs)
    decreases |paths|
  {
    if |paths| == 0 then
      assert Managed(p, paths) == {};
      assert disk.files - {} == disk.files;
      disk
    else
      var once := FileSystem.DeleteImage(p, disk, paths[0]).disk;
      var r := ApplyDeletes(p, once, paths[1..]);
      assert Managed(p, paths) == Managed(p, [paths[0]]) + Managed(p, paths[1..]) by {
        forall k | k in Managed(p, paths) ensures k in Managed(p, [paths[0]]) + Managed(p, paths[1..]) {
          var i :| 0 <= i < |paths| && paths[i] != "" && IsPrefix(FileSystem.ImagesDir(p), paths[i]) && paths[i] == k;
          if i == 0 { assert [paths[0]][0] == k; } else { assert paths[1..][i - 1] == k; }
        }
        forall k | k in Managed(p, paths[1..]) ensures k in Managed(p, paths) {
          var i :| 0 <= i < |paths[1..]| && paths[1..][i] != "" && IsPrefix(FileSystem.ImagesDir(p), paths[1..][i]) && paths[1..][i] == k;
          assert paths[i + 1] == k;
        }
      }
      assert (forall i :: 0 <= i < |paths| ==> paths[i] !in disk.dirs) ==>
        r == FileSystem.Disk(disk.files - Managed(p, paths), disk.dirs) by {
        if forall i :: 0 <= i < |paths| ==> paths[i] !in disk.dirs {
          assert paths[0] !in disk.dirs;
          assert forall i :: 0 <= i < |paths[1..]| ==> paths[1..][i] == paths[i + 1];
          assert once.dirs == disk.dirs;
          ManagedOne(p, paths[0]);
          assert disk.files - {} == disk.files;
        }
      }
      r
  }

  /** After `deleteItem`, and once its delete requests have run, the found record's custom icon and
      photo files are gone when they lie in the managed directory; every file it did not own is
      untouched. */
  lemma DeleteItemRemovesOwnedFiles(p: FileSystem.Platform, disk: FileSystem.Disk, items: seq<Store.Item>, id: string)
    requires Store.HasId(items, id)
    requires var found := items[Store.FirstIndex(items, id).value];
      && (found.kind == Store.Custom ==> found.iconUri !in disk.dirs)
      && (found.locationImageUri.Some? ==> found.locationImageUri.value !in disk.dirs)
    ensures var found := items[Store.FirstIndex(items, id).value];
      var r := ApplyDeletes(p, disk, Store.DeleteItem(items, id).deletes);
      var dir := FileSystem.ImagesDir(p);
      && r.dirs == disk.dirs
      && (found.kind == Store.Custom && found.iconUri != "" && IsPrefix(dir, found.iconUri) ==> found.iconUri !in r.files)
      && (Truthy(found.locationImageUri) && IsPrefix(dir, found.locationImageUri.value) ==>
            found.locationImageUri.value !in r.files)
      && (forall k :: k in disk.files && (found.kind == Store.Custom ==> k != found.iconUri)
                      && Some(k) != found.locationImageUri ==>
            k in r.files && r.files[k] == disk.files[k])
  {
  }

  /** Every preset of the add-item screen is drawn, on the list screen, with the icon it was picked by. */
  lemma PresetIconsAgree(i: nat)
    requires i < |AddItemScreen.Presets|
    ensures IndexScreen.GetPresetIcon(AddItemScreen.Presets[i].id) == Some(AddItemScreen.Presets[i].icon)
  {
    IndexScreen.GetPresetIconOfToken(i);
    assert AddItemScreen.Presets[i].id == IndexScreen.TokenIcons[i].0;
    assert AddItemScreen.Presets[i].icon == IndexScreen.TokenIcons[i].1;
  }

  /** The default records are the presets, in order, and each is drawn with its preset's icon. */
  lemma DefaultsArePresets(items: seq<Store.Item>, now: int, i: nat)
    requires i < 9
    ensures var d := Store.InitializeDefaults(items, now).items[i];
      && d.name == AddItemScreen.Presets[i].name
      && d.iconUri == AddItemScreen.Presets[i].id
      && IndexScreen.GetPresetIcon(d.iconUri) == Some(AddItemScreen.Presets[i].icon)
  {
    AddItemScreen.PresetsWellFormed();
    PresetIconsAgree(i);
    var d := Store.InitializeDefaults(items, now).items[i];
    assert d.name == AddItemScreen.Presets[i].name;
  }

  /** A record `handleSave` builds, with a preset chosen from the table or none at all, always
      has an icon the list screen can draw. */
  lemma SavedIconIsDrawn(selectedPreset: Option<string>)
    requires selectedPreset.Some? ==>
      exists i :: 0 <= i < |AddItemScreen.Presets| && AddItemScreen.Presets[i].id == selectedPreset.value
    ensures IndexScreen.GetPresetIcon(AddItemScreen.ResolveIcon(selectedPreset)).Some?
  {
  }

  /** A new item's photo from capture to deletion: the captured image is saved under
      `loc_<uuid>.jpg`, `handleSave` stores that path in a record with a second, independent uuid
      as its id, and deleting that item gives back the old list and removes exactly that file. */
  lemma CapturedPhotoLifecycle(p: FileSystem.Platform, disk: FileSystem.Disk, manipulatedUri: string,
                               uuid: string, itemId: string, photo: Option<string>, items: seq<Store.Item>,
                               name: string, selectedPreset: Option<string>, now: int, unnamed: string)
    requires manipulatedUri in disk.files
    requires '/' !in uuid && FileSystem.ImagesDir(p) !in disk.files
    requires var dest := FileSystem.Dest(p, AddItemScreen.CaptureFilename(uuid));
      manipulatedUri != dest && dest !in disk.dirs
    requires !Store.HasId(items, itemId)
    ensures var dest := FileSystem.Dest(p, AddItemScreen.CaptureFilename(uuid));
      var captured := AddItemScreen.HandleCameraCapture(p, disk, Some(manipulatedUri), uuid, photo);
      var saved := AddItemScreen.HandleSave(items, name, selectedPreset, captured.photo, itemId, now, unnamed);
      var removed := Store.DeleteItem(saved.items, itemId);
      && captured.photo == Some(dest)
      && captured.disk.files == disk.files[dest := disk.files[manipulatedUri]]
      && !saved.alerted
      && saved.items[|items|].locationImageUri == Some(dest)
      && removed == Store.Step(items, [dest])
      && ApplyDeletes(p, captured.disk, removed.deletes) == FileSystem.Disk(captured.disk.files - {dest}, captured.disk.dirs)
  {
    var dest := FileSystem.Dest(p, AddItemScreen.CaptureFilename(uuid));
    var captured := AddItemScreen.HandleCameraCapture(p, disk, Some(manipulatedUri), uuid, photo);
    var saved := AddItemScreen.HandleSave(items, name, selectedPreset, captured.photo, itemId, now, unnamed);
    assert Truthy(captured.photo);
    assert saved.items == items + [saved.items[|items|]];
    Store.AddThenDeleteRestores(items, saved.items[|items|]);
    PrefixOfConcat(FileSystem.ImagesDir(p), AddItemScreen.CaptureFilename(uuid));
    assert Managed(p, [dest]) == {dest};
    assert dest !in captured.disk.dirs;
  }
}
