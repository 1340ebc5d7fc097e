# where_item: the item store and its image files, in Dafny

where_item is a small mobile app for recording where personal items (keys, wallet, …) are
kept. The user keeps a list of items. Each item has a name, an icon and an optional
"location photo". This project models the logic that owns that data:

- **The item store** (`store/useStore.ts`). This is an ordered list of `Item` records with
  `addItem`, `updateLocation`, `deleteItem` and `initializeDefaults`. Each operation is a pure
  function from the current list to a `Step`. A `Step` holds the next list and the paths handed
  to the fire-and-forget `deleteImage` calls, in the order they are made.
- **The image file manager** (`utils/fileSystem.ts`). The device filesystem is a value `Disk`:
  a map from path to file bytes plus a set of directories. `IMAGES_DIR` is computed from a
  `Platform` (document and cache directory) the way the source computes it. `saveImage` is an
  overwriting copy into that directory. `deleteImage` is a delete guarded by a prefix check and
  is idempotent.
- **Pure helpers inside the screens.** From `app/add-item.tsx`: the `PRESETS` table, the
  `loc_<uuid>.jpg` filename, and the record `handleSave` builds. From `app/index.tsx`:
  `getPresetIcon`, the search filter, the 24-hour "recent" test, and the effect that reseeds an
  empty list.
- **Lifecycle.** Lemmas that run the store's delete requests against the file manager. They
  follow a captured photo from `saveImage` through `handleSave` to `deleteItem`.

The clock (`Date.now()`), `Crypto.randomUUID()`, the output path of the image resizer, and the
translated "unnamed item" label are parameters.

Details of the code the model keeps exactly:

- `find` stops at the first record with the id. So `updateLocation` and `deleteItem` delete
  only that record's files. `map` still updates every record with the id, and `filter` removes
  every one of them.
- The store never enforces unique ids. Uniqueness is proved to be *preserved* (for `addItem`,
  only when the new id is fresh). It is not assumed.
- A delete is emitted only for a *non-empty* path (JavaScript truthiness). This applies to the
  old photo in `updateLocation`, and to the photo and the custom icon in `deleteItem`.
- `updatedAt` is set to the clock reading, so it grows only if the clock moved forward.
- `deleteAsync` on a directory deletes everything under it. So a path equal to `IMAGES_DIR`
  passes `deleteImage`'s guard and empties the directory. The same thing happens in
  `saveImage` with an empty filename (`SaveEmptyFilenameClearsDirectory`).
- `saveImage` deletes the destination before copying. Saving a managed file onto its own path
  therefore loses the file (`SaveOntoItselfLosesFile`).
- `updateLocation` with the path the record already holds still emits a delete of that path
  (`UpdateToSamePathDeletesIt`). The add-item screen never calls `updateLocation`. The detail screen names its file `location_<id>_<Date.now()>.jpg`,
  so it does this only when `Date.now()` repeats for the same item.
- `deleteAsync` on a directory removes the directory and what lies under `dir/`. A sibling whose
  name merely starts with the directory's name survives.
- `copyAsync` rejects when the destination's directory does not exist. So `saveImage` fails when
  a regular file sits at `IMAGES_DIR`: `ensureDirExists` then sees that something exists and
  creates nothing.

## Model

| member | source | states |
|---|---|---|
| Strings.Lower | app/index.tsx:35 | the lowercased string has the same length, and each character is that character lowercased |
| Strings.ContainsEmpty | app/index.tsx:35 | every string includes the empty string |
| Seqs.Filter | store/useStore.ts:61 | `filter` keeps exactly the passing elements and never grows the list |
| Seqs.FilterIsSubsequence | store/useStore.ts:61 | the survivors of `filter` appear in their original order, the same relative order as in the input |
| Seqs.FilterCounts | store/useStore.ts:61 | each passing element is kept exactly as many times as it occurs; failing ones vanish |
| FileSystem.ImagesDir | utils/fileSystem.ts:3 | `IMAGES_DIR` always ends in `images/` (so in `/`), and starts with the document directory when one is reported |
| FileSystem.EnsureDirExists | utils/fileSystem.ts:6-11 | afterwards something exists at the directory path; files are untouched; no other directory changes; nothing changes if the path already existed |
| FileSystem.UnderDir | utils/fileSystem.ts:42 | the prefix of everything under a directory ends in `/` and extends the directory's path by at most that `/` |
| FileSystem.DeletePath | utils/fileSystem.ts:42 | an idempotent delete: nothing is left at the path, only the path (or, for a directory, what lies under `dir/`) is removed, and surviving files keep their bytes |
| FileSystem.Parent | utils/fileSystem.ts:30 | the directory part of a path is a prefix of it, ends in `/` (or is empty), and is followed by no `/` |
| FileSystem.ParentOfJoin | utils/fileSystem.ts:22 | a name without `/` appended to a directory path lies directly in that directory |
| FileSystem.CopyFile | utils/fileSystem.ts:30 | the copy rejects exactly when the source file is missing or the destination's directory does not exist; otherwise the destination receives the source's bytes and nothing else changes |
| FileSystem.Dest | utils/fileSystem.ts:22 | the destination starts with `IMAGES_DIR` and continues with the filename; a filename without `/` lies directly in `IMAGES_DIR`; a non-empty filename never names `IMAGES_DIR` itself |
| FileSystem.PrepareDest | utils/fileSystem.ts:21-28 | after `ensureDirExists` and the overwrite delete nothing is at the destination, no file is added or altered, and `IMAGES_DIR` exists for a non-empty filename; for a destination that is not a directory, exactly the destination entry goes and `IMAGES_DIR` is added if it was missing |
| FileSystem.SaveImage | utils/fileSystem.ts:20-32 | returns `IMAGES_DIR + filename`; fails when the source is missing, is the destination itself, or a regular file occupies `IMAGES_DIR`; on success the destination holds the source's bytes inside an existing directory; whatever the outcome, a destination that is not a directory is the only file entry that can change; for a fresh destination the directories are the old ones plus `IMAGES_DIR` if it was missing |
| FileSystem.DeleteImage | utils/fileSystem.ts:38-44 | a delete is issued exactly for a non-empty path starting with `IMAGES_DIR`; otherwise the disk is unchanged; a deleted file path leaves only that entry gone |
| FileSystem.DeleteImageIdempotent | utils/fileSystem.ts:42 | deleting the same path twice has the effect of deleting it once |
| FileSystem.DeleteAbsentImage | utils/fileSystem.ts:42 | deleting a path with nothing at it succeeds and changes nothing |
| FileSystem.SlashlessNeverDeleted | utils/fileSystem.ts:40-43 | a string without `/`, such as a `preset:` token, never reaches the filesystem and leaves the disk unchanged |
| FileSystem.SaveThenDelete | utils/fileSystem.ts:20-44 | every path `saveImage` returns passes `deleteImage`'s guard, and deleting it removes exactly that entry |
| FileSystem.SaveThenDeleteRestoresFiles | utils/fileSystem.ts:20-44 | saving to a free name without `/`, with no file occupying `IMAGES_DIR`, and then deleting the returned path gives back the original files |
| FileSystem.SaveTwiceKeepsSecond | utils/fileSystem.ts:24-30 | two saves under one name leave one file holding the second source's bytes; the first save leaves no other trace among the files |
| FileSystem.SaveOntoItselfLosesFile | utils/fileSystem.ts:24-30 | saving a managed file onto its own path rejects and the file is gone |
| FileSystem.SaveEmptyFilenameClearsDirectory | utils/fileSystem.ts:22-27 | with an empty filename, no file under `IMAGES_DIR` survives the save except one at `IMAGES_DIR` itself |
| Store.Find | store/useStore.ts:40-52 | `find` yields nothing exactly when no record has the id; otherwise a record of the list with the id, and every other record with the id comes after an occurrence of it |
| Store.FirstIndex | store/useStore.ts:40 | `find` yields the first record with the id, or nothing exactly when no record has it |
| Store.AddItem | store/useStore.ts:37 | `addItem` appends: length grows by one, earlier records are unchanged, the new record is last, nothing is deleted |
| Store.SetLocation | store/useStore.ts:45-47 | `map` replaces each record with the id by one with the new photo and time and leaves every other record as it was |
| Store.UpdateLocation | store/useStore.ts:38-49 | the length is kept; ids, names, kinds and icons never change; every record with the id gets the photo and `now`; other records are unchanged; an absent id changes nothing and deletes nothing; at most one delete is emitted, for the first match's old photo, exactly when that photo is non-empty |
| Store.DeleteItem | store/useStore.ts:50-62 | the result holds exactly the records with another id, in their original order; an absent id changes nothing and deletes nothing; for the first match, its custom non-empty icon is deleted first and its non-empty photo last, and nothing else is deleted |
| Store.OwnedFiles | store/useStore.ts:54-59 | the files a deleted record owns are exactly its non-empty custom icon and its non-empty photo, at most two, the icon first |
| Store.DeleteItemCounts | store/useStore.ts:61 | every record with the id is removed, however often it occurs; each other record is kept exactly as often as it occurred |
| Store.DefaultItems | store/useStore.ts:64-74 | nine records, each a preset with icon `preset:` + its name, no photo, stamped `now` |
| Store.InitialItems | store/useStore.ts:26-36 | the starting list is the same nine records `initializeDefaults` writes |
| Store.DefaultIdsDistinct | store/useStore.ts:65-73 | `default-1` … `default-9` are pairwise distinct |
| Store.DefaultItemShape | store/useStore.ts:65-73 | the i-th default has id `default-(i+1)`, kind preset, icon `preset:` + its name, no photo, and time `now` |
| Store.InitializeDefaults | store/useStore.ts:63-75 | whatever the prior list, the result has exactly 9 records with ids `default-1`…`default-9`, all preset, icon `preset:` + name, no photo, stamped `now`, ids unique; no file is deleted |
| Store.InitialItemsAreDefaults | store/useStore.ts:26-36 | the starting list equals `initializeDefaults`' list, record by record, apart from timestamps |
| Store.AddThenDeleteRestores | store/useStore.ts:37-61 | adding a record with a new id and deleting that id gives back the original list, and deletes exactly the files the record owned |
| Store.AddItemKeepsUnique | store/useStore.ts:37 | appending a record whose id is new keeps ids unique |
| Store.UpdateLocationKeepsUnique | store/useStore.ts:45-47 | `updateLocation` keeps ids unique |
| Store.DeleteItemKeepsUnique | store/useStore.ts:61 | `deleteItem` keeps ids unique |
| Store.DeleteUniqueRemovesOne | store/useStore.ts:61 | with unique ids, deleting a present id removes exactly the found record and keeps the rest in order |
| Store.AddAll | store/useStore.ts:37 | a run of `addItem` calls appends the records in call order |
| Store.DeleteAllRemovesListed | store/useStore.ts:50-62 | a run of `deleteItem` calls, in any order, leaves exactly the records whose id was not listed |
| Store.AddAllThenDeleteAll | store/useStore.ts:37-61 | from an empty store, n adds give n records, and deleting all their ids, in any order, empties it again |
| Store.UpdateToSamePathDeletesIt | store/useStore.ts:40-47 | replacing a photo by the path it already has emits a delete of that very path, which the record then still names |
| AddItemScreen.Presets | app/add-item.tsx:14-24 | the nine presets of the add screen, each a name, a drawn icon and the token `preset:` + name; its properties are stated by `PresetsWellFormed` and `PresetIconsAgree` |
| AddItemScreen.FindPreset | app/add-item.tsx:73 | the preset found has the id and is in the table; nothing is found exactly when no preset has the id |
| AddItemScreen.PresetsWellFormed | app/add-item.tsx:14-24 | every preset id is `preset:` + its non-empty name; names and ids are pairwise distinct |
| AddItemScreen.FindEachPreset | app/add-item.tsx:73 | looking up a preset's own id finds exactly that preset |
| AddItemScreen.CaptureFilename | app/add-item.tsx:54 | the filename is `loc_`, then the uuid, then `.jpg`; it contains `/` exactly when the uuid does |
| AddItemScreen.CaptureFilenameInjective | app/add-item.tsx:54 | distinct uuids give distinct filenames, so captures never overwrite each other |
| AddItemScreen.HandleCameraCapture | app/add-item.tsx:41-65 | a rejected resize shows the alert and touches nothing; on failure the alert is shown and the previous photo stays; on success the shown photo is the path `saveImage` returned and holds the captured bytes; a missing image fails, and so does a regular file occupying `IMAGES_DIR`; a fresh destination with a `/`-free uuid and a usable `IMAGES_DIR` succeeds and only that file is added; no file other than the destination is ever removed or altered |
| AddItemScreen.ResolveName | app/add-item.tsx:73 | a typed name wins; else the chosen preset's name; else the unnamed label |
| AddItemScreen.ChosenPresetNamesItem | app/add-item.tsx:73 | with no typed name, choosing a preset from the table names the item after that preset |
| AddItemScreen.ResolveIcon | app/add-item.tsx:75 | the chosen preset id, else `preset:Default` |
| AddItemScreen.HandleSave | app/add-item.tsx:67-87 | without a (non-empty) photo the list is unchanged and the alert is shown; with one, exactly one record is appended, with the new uuid, resolved name, kind preset, resolved icon, that photo and `now` |
| IndexScreen.GetPresetIcon | app/index.tsx:8-21 | an empty uri draws no preset icon, and a uri without `.` (so no legacy filename) draws one only if it is a `preset:` token |
| IndexScreen.TokensAreNotFilenames | app/index.tsx:10-19 | no preset token includes any legacy filename |
| IndexScreen.GetPresetIconOfToken | app/index.tsx:10-19 | each of the ten `preset:` tokens (nine presets and `Default`) is drawn with its icon |
| IndexScreen.GetPresetIconOfLegacy | app/index.tsx:10-14 | a uri including a legacy filename, and none of the earlier ones, is drawn with that filename's icon |
| IndexScreen.GetPresetIconNone | app/index.tsx:8-21 | the result is null exactly when the uri is no token and includes no legacy filename |
| IndexScreen.FilterItems | app/index.tsx:34-36 | the shown items are a subsequence of the list in order; an item is shown exactly when its lowercased name includes the lowercased search text, and then as often as it occurs in the list |
| IndexScreen.EmptySearchKeepsAll | app/index.tsx:34-36 | an empty search shows every item in order |
| IndexScreen.IsRecent | app/index.tsx:39 | recent means updated less than 24 hours, 86 400 000 ms, before the clock reading |
| IndexScreen.RecentAfterUpdate | store/useStore.ts:45-47 | a record whose photo was replaced at `t` shows as recent at a later reading exactly while less than 86 400 000 ms have passed since `t` |
| IndexScreen.UpdatedIsRecent | app/index.tsx:39 | a record whose photo was just replaced shows as recent |
| IndexScreen.EnsureDefaults | app/index.tsx:28-32 | the list after the effect is never empty; a non-empty list is kept; an empty one becomes exactly the nine default records, with unique ids |
| IndexScreen.EnsureDefaultsIdempotent | app/index.tsx:28-32 | running the effect again changes nothing |
| IndexScreen.DeletingLastItemReseeds | app/index.tsx:28-32 | deleting the only item empties the list, and the effect then restores the defaults |
| Lifecycle.ManagedOne | utils/fileSystem.ts:39-43 | a single path reaches the filesystem exactly when it is non-empty and starts with `IMAGES_DIR` |
| Lifecycle.ApplyDeletes | store/useStore.ts:42 | running the emitted deletes only removes files, removes every path that passed the guard, and, when no path is a directory, removes exactly those paths |
| Lifecycle.DeleteItemRemovesOwnedFiles | store/useStore.ts:52-61 | after `deleteItem` and its deletes, the found record's managed custom icon and managed photo are gone, directories are unchanged, and every file it did not own is untouched; a preset record's icon path is never deleted |
| Lifecycle.PresetIconsAgree | app/add-item.tsx:14-24 | every preset in the add screen's table is drawn on the list screen with the icon it was chosen by |
| Lifecycle.DefaultsArePresets | store/useStore.ts:63-75 | the i-th default record has the i-th preset's name and id, and is drawn with its icon |
| Lifecycle.SavedIconIsDrawn | app/add-item.tsx:75 | a record saved with a preset from the table, or with none, always has an icon the list can draw |
| Lifecycle.CapturedPhotoLifecycle | app/add-item.tsx:41-87 | a captured photo is saved as `loc_<uuid>.jpg`; `handleSave` stores that path in a record whose id is a second, independent uuid; deleting the new item restores the old list and deletes exactly that file |

## Left out

- Rendering, styling and navigation are not modelled: the JSX of the screens, `router.back()`, `app/_layout.tsx`, and `components/CameraView.tsx`, which yields the temporary photo path. They are UI and device plumbing.
- The detail screen `app/item/[id].tsx` is not part of this model. It calls `updateLocation` with a `location_<id>_<time>.jpg` path. `Store.UpdateLocation` covers the store side of that call.
- `manipulateAsync` (resize and JPEG compression) is a foreign call with a float quality. Its outcome is the `manipulated` parameter: the output path, or None when it rejects.
- `Crypto.randomUUID()` and `Date.now()` are parameters. The source reads the clock once per record literal and once per updated record; each operation takes a single reading `now`. The lemmas that need a fresh uuid take that as a hypothesis.
- Zustand `persist` and AsyncStorage JSON serialization are library internals. The persisted snapshot is taken to equal the in-memory list.
- Asynchronous ordering and failures of the fire-and-forget deletes are not modelled. `Lifecycle.ApplyDeletes` runs them to completion, in the order they were emitted.
- `i18n.t` lookups are not modelled. The unnamed-item label is the parameter `unnamed`; the alert texts are a boolean `alerted`. `console.error` and `setIsProcessing` are not modelled.
- FileSystem.EnsureDirExists: `intermediates: true` also creates missing parent directories. The model adds only the managed directory itself, because parent directories play no part in any other operation.
- FileSystem.SaveImage: a rejection of `makeDirectoryAsync` or of the overwrite `deleteAsync` is not modelled; those calls always succeed. The disk is a flat map and set, so it does not enforce that every parent of a path is a directory.
- FileSystem.CopyFile: only regular files are copied. A directory as the source counts as missing. Paths are compared as plain strings, with no normalisation.
- Strings.Lower: `toLowerCase` is modelled for ASCII letters only. Full Unicode case mapping, which can change a string's length, is not modelled.
