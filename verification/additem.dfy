/** The pure parts of the add-item screen (app/add-item.tsx): the preset table, the filename a
    captured photo is saved under, and the record `handleSave` adds to the store. */
module AddItemScreen {
  import opened Wrappers
  import opened Strings
  import opened Icons
  import Store
  import FileSystem

  datatype Preset = Preset(name: string, icon: Icon, id: string)

  /** `PRESETS` */
  const Presets: seq<Preset> := [
    Preset("Keys", Key, "preset:Keys"),
    Preset("Wallet", Wallet, "preset:Wallet"),
    Preset("Glasses", Glasses, "preset:Glasses"),
    Preset("Remote", Tv, "preset:Remote"),
    Preset("Bag", Briefcase, "preset:Bag"),
    Preset("Headphones", Headphones, "preset:Headphones"),
    Preset("Umbrella", Umbrella, "preset:Umbrella"),
    Preset("Watch", Watch, "preset:Watch"),
    Preset("Game", Gamepad2, "preset:Game")
  ]

  /** `presets.find(p => p.id === id)` */
  function FindPreset(presets: seq<Preset>, id: string): (r: Option<Preset>)
    ensures r.Some? ==> r.value in presets && r.value.id == id
    ensures r.None? <==> forall i :: 0 <= i < |presets| ==> presets[i].id != id
  {
    if |presets| == 0 then None
    else if presets[0].id == id then Some(presets[0])
    else
      var r := FindPreset(presets[1..], id);
      assert forall i :: 1 <= i < |presets| ==> presets[i] == presets[1..][i - 1];
      r
  }

  /** Every preset id is `preset:` followed by the preset's non-empty name, and no two presets
      share a name or an id. */
  lemma PresetsWellFormed()
    ensures forall i :: 0 <= i < |Presets| ==>
      Presets[i].name != "" && Presets[i].id == "preset:" + Presets[i].name
    ensures forall i, j :: 0 <= i < j < |Presets| ==> Presets[i].name != Presets[j].name
    ensures forall i, j :: 0 <= i < j < |Presets| ==> Presets[i].id != Presets[j].id
  {
  }

  /** Looking up a preset's own id finds exactly that preset. */
  lemma FindEachPreset(i: nat)
    requires i < |Presets|
    ensures FindPreset(Presets, Presets[i].id) == Some(Presets[i])
  {
    PresetsWellFormed();
    var r := FindPreset(Presets, Presets[i].id);
    var k :| 0 <= k < |Presets| && Presets[k] == r.value;
    assert k == i;
  }

  /** The filename `handleCameraCapture` saves a photo under: `loc_<uuid>.jpg`. */
  function CaptureFilename(uuid: string): (r: string)
    ensures |r| == |uuid| + 8
    ensures r[..4] == "loc_" && r[4..|r| - 4] == uuid && r[|r| - 4..] == ".jpg"
    ensures '/' !in uuid <==> '/' !in r
  {
    assert forall i :: 0 <= i < |uuid| ==> ("loc_" + uuid + ".jpg")[i + 4] == uuid[i];
    "loc_" + uuid + ".jpg"
  }

  /** Distinct uuids give distinct filenames, so one capture never overwrites another's photo. */
  lemma CaptureFilenameInjective(a: string, b: string)
    requires CaptureFilename(a) == CaptureFilename(b)
    ensures a == b
  {
  }

  /** The state `handleCameraCapture` leaves: the disk, the screen's `locationPhotoUri`, and
      whether the failure alert was shown. */
  datatype Capture = Capture(disk: FileSystem.Disk, photo: Option<string>, alerted: bool)

  /** `handleCameraCapture`, from the outcome of the resizer (the path of the resized image, or
      None when `manipulateAsync` rejects) and a fresh uuid. On failure the photo shown before stays. */
  function HandleCameraCapture(p: FileSystem.Platform, disk: FileSystem.Disk, manipulated: Option<string>,
                               uuid: string, photo: Option<string>): (r: Capture)
    ensures manipulated.None? ==> r == Capture(disk, photo, true)
    ensures r.alerted ==> r.photo == photo
    ensures var dest := FileSystem.Dest(p, CaptureFilename(uuid));
      !r.alerted ==>
        && manipulated.Some? && manipulated.value in disk.files
        && r.photo == Some(dest) && dest in r.disk.files
        && r.disk.files[dest] == disk.files[manipulated.value]
    ensures manipulated.Some? && manipulated.value !in disk.files ==> r.alerted
    ensures '/' !in uuid && FileSystem.ImagesDir(p) in disk.files && FileSystem.ImagesDir(p) !in disk.dirs ==> r.alerted
    ensures var dest := FileSystem.Dest(p, CaptureFilename(uuid));
      manipulated.Some? && manipulated.value in disk.files && manipulated.value != dest && dest !in disk.dirs
      && '/' !in uuid && FileSystem.ImagesDir(p) !in disk.files ==>
        !r.alerted && r.disk.files == disk.files[dest := disk.files[manipulated.value]]
    ensures var dest := FileSystem.Dest(p, CaptureFilename(uuid));
      dest !in disk.dirs ==>
        forall k :: k != dest ==>
          && (k in r.disk.files <==> k in disk.files)
          && (k in r.disk.files ==> r.disk.files[k] == disk.files[k])
  {
    match manipulated
    case None => Capture(disk, photo, true)
    case Some(uri) =>
      var saved := FileSystem.SaveImage(p, disk, uri, CaptureFilename(uuid));
      match saved.result
      case Success(path) => Capture(saved.disk, Some(path), false)
      case Failure(_) => Capture(saved.disk, photo, true)
  }

  /** `finalName`: the typed name, else the chosen preset's name, else the unnamed label. */
  function ResolveName(name: string, selectedPreset: Option<string>, unnamed: string): (r: string)
    ensures name != "" ==> r == name
    ensures name == "" && Truthy(selectedPreset) && FindPreset(Presets, selectedPreset.value).Some? ==>
      r == FindPreset(Presets, selectedPreset.value).value.name
    ensures name == "" && !(Truthy(selectedPreset) && FindPreset(Presets, selectedPreset.value).Some?) ==>
      r == unnamed
  {
    if name != "" then name
    else
      var fromPreset :=
        if Truthy(selectedPreset) then
          match FindPreset(Presets, selectedPreset.value)
          case Some(preset) => Some(preset.name)
          case None => None
        else Some(unnamed);
      PresetsWellFormed();
      if Truthy(fromPreset) then fromPreset.value else unnamed
  }

  /** With no typed name, choosing a preset names the item after that preset. */
  lemma ChosenPresetNamesItem(i: nat, unnamed: string)
    requires i < |Presets|
    ensures ResolveName("", Some(Presets[i].id), unnamed) == Presets[i].name
  {
    FindEachPreset(i);
    PresetsWellFormed();
  }

  /** `finalIconUri`: the chosen preset id, else the generic default preset. */
  function ResolveIcon(selectedPreset: Option<string>): (r: string)
    ensures Truthy(selectedPreset) ==> r == selectedPreset.value
    ensures !Truthy(selectedPreset) ==> r == "preset:Default"
  {
    if Truthy(selectedPreset) then selectedPreset.value else "preset:Default"
  }

  /** The state `handleSave` leaves: the store's list and whether the photo-required alert was shown. */
  datatype Submission = Submission(items: seq<Store.Item>, alerted: bool)

  /** `handleSave`, with a fresh uuid and the clock reading `now`. */
  function HandleSave(items: seq<Store.Item>, name: string, selectedPreset: Option<string>,
                      locationPhotoUri: Option<string>, uuid: string, now: int, unnamed: string): (r: Submission)
    ensures !Truthy(locationPhotoUri) ==> r == Submission(items, true)
    ensures Truthy(locationPhotoUri) ==>
      && !r.alerted
      && |r.items| == |items| + 1
      && r.items[..|items|] == items
      && r.items[|items|] == Store.Item(uuid, ResolveName(name, selectedPreset, unnamed), Store.Preset,
                                        ResolveIcon(selectedPreset), locationPhotoUri, now)
  {
    if !Truthy(locationPhotoUri) then Submission(items, true)
    else
      var item := Store.Item(uuid, ResolveName(name, selectedPreset, unnamed), Store.Preset,
                             ResolveIcon(selectedPreset), locationPhotoUri, now);
      Submission(Store.AddItem(items, item).items, false)
  }
}
