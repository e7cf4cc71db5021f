/** `DropzoneController`: the HTTP endpoints behind the upload area and the
    photo manager. Each endpoint is a method over the disk and the photos
    table; request validation failures and `findOrFail` misses are the
    `ValidationFailed` and `NotFound` outcomes. */
module DropzoneController {
  import opened Php
  import opened Text
  import opened Storage
  import opened Photos
  import opened HasPhotosTrait

  // ---------------------------------------------------------------------------
  // Requests
  // ---------------------------------------------------------------------------

  /** An uploaded file as the request sees it. `isImage` is the outcome of the
      `image` rule; `probe` is what `getimagesize` reports on the temporary
      file, and `decodable` whether GD can later decode the stored copy. */
  datatype UploadedFile = UploadedFile(clientName: string, clientExtension: string, mimeType: string,
                                       size: int, isImage: bool, probe: Option<ImageInfo>, decodable: bool)

  /** The fields of an upload request; `dimensions` is `None` when the field
      is absent and `Some("")` when it was sent empty. */
  datatype UploadRequest = UploadRequest(file: UploadedFile, modelId: int, modelType: string,
                                         directory: string, dimensions: Option<string>)

  /** The JSON answer of a successful upload. */
  datatype Uploaded = Uploaded(photo: Photo, url: string, thumbnail: Link)

  /** The characters PHP's `trim` removes. */
  predicate IsTrimmed(c: char) {
    c == ' ' || c == '\t' || c == '\n' || c == '\r' || c == '\0' || c == '\U{000B}'
  }

  /** The `required` rule on a string: something is left after trimming. */
  predicate Filled(s: string) {
    exists k :: 0 <= k < |s| && !IsTrimmed(s[k])
  }

  /** The validation rules of `upload` (lines 21-27); `max` on a file is in
      kilobytes of 1024 bytes. */
  predicate UploadIsValid(req: UploadRequest, cfg: Config) {
    && req.file.isImage
    && req.file.size <= cfg.maxFilesize * 1024
    && Filled(req.modelType)
    && Filled(req.directory)
  }

  // ---------------------------------------------------------------------------
  // processImage (lines 187-232)
  // ---------------------------------------------------------------------------

  /** Where `processImage` writes the thumbnail of a stored path. */
  function ProcessThumbnailPath(path: string, thumbnailDims: string): string {
    Dirname(path) + "/thumbnails/" + thumbnailDims + "/" + Basename(path)
  }

  /** For a photo's own path this is the path `getThumbnailUrl` looks for. */
  lemma ProcessThumbnailPathIsPhotoThumbnail(p: Photo, thumbnailDims: string)
    requires p.directory != [] && p.directory[|p.directory| - 1] != '/'
    requires p.filename != [] && '/' !in p.filename
    ensures ProcessThumbnailPath(Path(p), thumbnailDims) == ThumbnailPath(p, thumbnailDims)
  {
    PathSplitsBack(p);
  }

  /** The disk after a call, and how the call ended. */
  datatype Outcome<T> = Outcome(result: Call<T>, files: map<string, Blob>, dirs: set<string>)

  /** The pre-resize step: with `pre_resize` on, the stored image is
      replaced by Glide's `fit=max` rendition of it. */
  function PreResizeSpec(files: map<string, Blob>, dirs: set<string>, cfg: Config, path: string, dims: string): Outcome<()> {
    if !cfg.preResize then Outcome(Returns(()), files, dirs)
    else
      var parts := Split(dims, 'x');
      if |parts| < 2 then Outcome(Throws(UndefinedKey), files, dirs)
      else Outcome(Returns(()), files[path := Resized(GlideParams(parts[0], parts[1], "max", cfg.quality))], dirs + Ancestors(path))
  }

  /** The directory `processImage` creates for a thumbnail size. */
  function ThumbnailDimDir(path: string, thumbnailDims: string): string {
    Dirname(path) + "/thumbnails/" + thumbnailDims
  }

  /** The thumbnail step once its directory and file path are known. */
  function ThumbnailWrite(files: map<string, Blob>, dirs: set<string>, cfg: Config, dimDir: string, thumb: string): Outcome<()> {
    if !cfg.thumbnailsEnabled then Outcome(Returns(()), files, dirs)
    else
      var t := Split(cfg.thumbnailDimensions, 'x');
      if |t| < 2 then Outcome(Throws(UndefinedKey), files, dirs)
      else
        Outcome(Returns(()),
                files[thumb := Resized(GlideParams(t[0], t[1], "crop", cfg.quality))],
                dirs + Ancestors(dimDir) + {dimDir} + Ancestors(thumb))
  }

  /** The thumbnail step: with thumbnails on, Glide's `fit=crop` rendition is
      written into `<dirname>/thumbnails/<dims>/<basename>`. */
  function ThumbnailSpec(files: map<string, Blob>, dirs: set<string>, cfg: Config, path: string): Outcome<()> {
    ThumbnailWrite(files, dirs, cfg, ThumbnailDimDir(path, cfg.thumbnailDimensions),
                   ProcessThumbnailPath(path, cfg.thumbnailDimensions))
  }

  /** What `processImage` does to a disk: nothing for empty dimensions or
      without Glide, else the two steps in turn. `[$w, $h] = explode('x', ...)`
      on a string without an 'x' is an undefined key. */
  function ProcessImageSpec(files: map<string, Blob>, dirs: set<string>, cfg: Config, path: string,
                            dims: Option<string>): Outcome<()>
  {
    if IsEmpty(dims) || !cfg.glide then Outcome(Returns(()), files, dirs)
    else
      var pre := PreResizeSpec(files, dirs, cfg, path, dims.value);
      if pre.result.Throws? then pre else ThumbnailSpec(pre.files, pre.dirs, cfg, path)
  }

  /** Empty dimensions, or no Glide, leave the disk as it was. */
  lemma ProcessImageSkips(files: map<string, Blob>, dirs: set<string>, cfg: Config, path: string, dims: Option<string>)
    requires IsEmpty(dims) || !cfg.glide
    ensures ProcessImageSpec(files, dirs, cfg, path, dims) == Outcome(Returns(()), files, dirs)
  {
  }

  /** `processImage` throws exactly when Glide is present, dimensions are
      given, and a dimension string it has to split holds no 'x'. */
  lemma ProcessImageThrowsIff(files: map<string, Blob>, dirs: set<string>, cfg: Config, path: string, dims: Option<string>)
    ensures ProcessImageSpec(files, dirs, cfg, path, dims).result.Throws? <==>
            !IsEmpty(dims) && cfg.glide &&
            ((cfg.preResize && 'x' !in dims.value) || (cfg.thumbnailsEnabled && 'x' !in cfg.thumbnailDimensions))
    ensures ProcessImageSpec(files, dirs, cfg, path, dims).result.Throws? ==>
            ProcessImageSpec(files, dirs, cfg, path, dims).result.error == UndefinedKey
  {
    if dims.Some? {
      SplitCount(dims.value, 'x');
    }
    SplitCount(cfg.thumbnailDimensions, 'x');
  }

  /** Only the stored path and its thumbnail are written; every other file is
      left as it was, and no file or directory disappears. */
  lemma ProcessImageWritesOnlyItsPaths(files: map<string, Blob>, dirs: set<string>, cfg: Config, path: string,
                                       dims: Option<string>, f: string)
    requires f != path && f != ProcessThumbnailPath(path, cfg.thumbnailDimensions)
    ensures var o := ProcessImageSpec(files, dirs, cfg, path, dims);
            && (f in o.files ==> f in files)
            && (f in files ==> f in o.files && o.files[f] == files[f])
            && dirs <= o.dirs
  {
    if !IsEmpty(dims) && cfg.glide {
      PreResizeKeeps(files, dirs, cfg, path, dims.value, f);
      var pre := PreResizeSpec(files, dirs, cfg, path, dims.value);
      if pre.result.Returns? {
        var dimDir := ThumbnailDimDir(path, cfg.thumbnailDimensions);
        var thumb := ProcessThumbnailPath(path, cfg.thumbnailDimensions);
        assert ProcessImageSpec(files, dirs, cfg, path, dims) == ThumbnailWrite(pre.files, pre.dirs, cfg, dimDir, thumb);
        ThumbnailWriteKeeps(pre.files, pre.dirs, cfg, dimDir, thumb, f);
      }
    }
  }

  lemma PreResizeKeeps(files: map<string, Blob>, dirs: set<string>, cfg: Config, path: string, dims: string, f: string)
    requires f != path
    ensures var o := PreResizeSpec(files, dirs, cfg, path, dims);
            (f in o.files ==> f in files) && (f in files ==> f in o.files && o.files[f] == files[f]) && dirs <= o.dirs
  {
  }

  lemma ThumbnailWriteKeeps(files: map<string, Blob>, dirs: set<string>, cfg: Config, dimDir: string, thumb: string, f: string)
    requires f != thumb
    ensures var o := ThumbnailWrite(files, dirs, cfg, dimDir, thumb);
            (f in o.files ==> f in files) && (f in files ==> f in o.files && o.files[f] == files[f]) && dirs <= o.dirs
  {
  }

  /** With Glide present and well-formed dimensions, processing a photo's
      stored path leaves a cropped thumbnail exactly where the Photo model
      looks, so its thumbnail URL is the static one. */
  lemma ProcessedThumbnailIsServed(files: map<string, Blob>, dirs: set<string>, cfg: Config, p: Photo, dims: Option<string>)
    requires cfg.glide && cfg.thumbnailsEnabled && !IsEmpty(dims)
    requires cfg.preResize ==> 'x' in dims.value
    requires 'x' in cfg.thumbnailDimensions
    requires p.directory != [] && p.directory[|p.directory| - 1] != '/'
    requires p.filename != [] && '/' !in p.filename
    ensures var o := ProcessImageSpec(files, dirs, cfg, Path(p), dims);
            var thumb := ThumbnailPath(p, cfg.thumbnailDimensions);
            && o.result == Returns(())
            && thumb in o.files && o.files[thumb].Resized? && o.files[thumb].params.fit == "crop"
            && ThumbnailUrl(p, cfg, None, o.files.Keys + o.dirs) == Returns(Static("/storage/" + thumb))
  {
    ProcessThumbnailPathIsPhotoThumbnail(p, cfg.thumbnailDimensions);
    SplitCount(dims.value, 'x');
    SplitCount(cfg.thumbnailDimensions, 'x');
  }

  /** `processImage($disk, $path, $dimensions)`. */
  method ProcessImage(disk: Disk, cfg: Config, path: string, dims: Option<string>) returns (r: Call<()>)
    requires disk.Valid()
    modifies disk
    ensures disk.Valid()
    ensures Outcome(r, disk.files, disk.dirs) == ProcessImageSpec(old(disk.files), old(disk.dirs), cfg, path, dims)
  {
    if IsEmpty(dims) || !cfg.glide {
      return Returns(());
    }
    ghost var pre := PreResizeSpec(disk.files, disk.dirs, cfg, path, dims.value);
    if cfg.preResize {
      var parts := Split(dims.value, 'x');
      if |parts| < 2 {
        return Throws(UndefinedKey);
      }
      disk.Put(path, Resized(GlideParams(parts[0], parts[1], "max", cfg.quality)));
    }
    assert pre.result.Returns? && disk.files == pre.files && disk.dirs == pre.dirs;
    if cfg.thumbnailsEnabled {
      var t := Split(cfg.thumbnailDimensions, 'x');
      if |t| < 2 {
        return Throws(UndefinedKey);
      }
      var directory := Dirname(path);
      var filename := Basename(path);
      var thumbnailPath := directory + "/thumbnails/" + cfg.thumbnailDimensions + "/" + filename;
      assert thumbnailPath == ProcessThumbnailPath(path, cfg.thumbnailDimensions);
      disk.MakeDirectory(directory + "/thumbnails/" + cfg.thumbnailDimensions);
      disk.Put(thumbnailPath, Resized(GlideParams(t[0], t[1], "crop", cfg.quality)));
    }
    return Returns(());
  }

  // ---------------------------------------------------------------------------
  // upload (lines 19-81)
  // ---------------------------------------------------------------------------

  /** The row `Photo::create` inserts: the next position after the owner's
      existing photos, and the main flag only for an owner without photos. */
  function NewRecord(id: int, req: UploadRequest, filename: string, info: ImageInfo, rows: seq<Photo>): (r: Photo)
    ensures r.id == id && r.owner == Owner(req.modelId, req.modelType)
    ensures r.isMain <==> !HasPhotos(rows, r.owner)
    ensures r.sortOrder == |PhotosOf(rows, r.owner)| + 1
  {
    var owner := Owner(req.modelId, req.modelType);
    var count := |Owned(rows, owner)|;
    assert |PhotosOf(rows, owner)| == count by {
      assert |multiset(PhotosOf(rows, owner))| == |multiset(Owned(rows, owner))|;
    }
    Photo(id, owner, filename, req.file.clientName, req.directory, req.file.clientExtension,
          req.file.mimeType, req.file.size, info.width, info.height, count + 1, count == 0)
  }

  /** Appending the new record keeps the table invariants: its id is fresh,
      and it is main only when its owner has no other photo. */
  lemma NewRecordKeepsInvariants(rows: seq<Photo>, nextId: int, req: UploadRequest, filename: string, info: ImageInfo)
    requires UniqueIds(rows) && AtMostOneMainPerOwner(rows)
    requires forall k :: 0 <= k < |rows| ==> rows[k].id < nextId
    ensures var r := rows + [NewRecord(nextId, req, filename, info, rows)];
            && UniqueIds(r) && AtMostOneMainPerOwner(r)
            && forall k :: 0 <= k < |r| ==> r[k].id < nextId + 1
  {
    var p := NewRecord(nextId, req, filename, info, rows);
    if p.isMain {
      forall k | 0 <= k < |rows| ensures rows[k].owner != p.owner {
        assert rows[k] in rows;
      }
    }
  }

  /** The first photo of an owner becomes its main photo; a later upload
      leaves an existing main photo in place. */
  lemma UploadKeepsOrSetsMain(rows: seq<Photo>, nextId: int, req: UploadRequest, filename: string, info: ImageInfo)
    requires UniqueIds(rows) && AtMostOneMainPerOwner(rows)
    requires forall k :: 0 <= k < |rows| ==> rows[k].id < nextId
    ensures var p := NewRecord(nextId, req, filename, info, rows);
            var r := rows + [p];
            && (!HasPhotos(rows, p.owner) ==> MainPhoto(r, p.owner) == Some(p))
            && (forall m :: m in rows && m.owner == p.owner && m.isMain ==> MainPhoto(r, p.owner) == Some(m))
  {
    var p := NewRecord(nextId, req, filename, info, rows);
    var r := rows + [p];
    NewRecordKeepsInvariants(rows, nextId, req, filename, info);
    if !HasPhotos(rows, p.owner) {
      MainPhotoIsTheFlaggedOne(r, p.owner, |rows|);
    }
    forall m | m in rows && m.owner == p.owner && m.isMain ensures MainPhoto(r, p.owner) == Some(m) {
      var k :| 0 <= k < |rows| && rows[k] == m;
      assert r[k] == m;
      MainPhotoIsTheFlaggedOne(r, p.owner, k);
    }
  }

  /** `upload(Request $request)`. The uploaded file is stored under
      `<uuid>.<client extension>` and processed before the record exists, so
      a failure in processing or in reading the temporary file's size leaves
      the stored files behind without a row. */
  method Upload(disk: Disk, table: PhotoTable, cfg: Config, req: UploadRequest, uuid: string) returns (r: Call<Uploaded>)
    requires disk.Valid() && table.Valid()
    modifies disk, table
    ensures disk.Valid() && table.Valid()
    ensures !UploadIsValid(req, cfg) ==> r == Throws(ValidationFailed) && unchanged(disk) && unchanged(table)
    ensures UploadIsValid(req, cfg) ==>
      var filename := uuid + "." + req.file.clientExtension;
      var fullPath := req.directory + "/" + filename;
      var dims := if req.dimensions.None? then Some(cfg.defaultDimensions) else req.dimensions;
      var o := ProcessImageSpec(old(disk.files)[fullPath := Stored(req.file.probe, req.file.decodable)],
                                old(disk.dirs) + Ancestors(fullPath), cfg, fullPath, dims);
      && disk.files == o.files && disk.dirs == o.dirs
      && (o.result.Throws? ==> r == Throws(o.result.error) && unchanged(table))
      && (o.result.Returns? && req.file.probe.None? ==> r == Throws(OffsetOnBool) && unchanged(table))
      && (o.result.Returns? && req.file.probe.Some? ==>
            var p := NewRecord(old(table.nextId), req, filename, req.file.probe.value, old(table.rows));
            && table.rows == old(table.rows) + [p]
            && table.nextId == old(table.nextId) + 1
            && r == match ThumbnailUrl(p, cfg, None, disk.files.Keys + disk.dirs)
                    case Throws(e) => Throws(e)
                    case Returns(link) => Returns(Uploaded(p, Url(p), link)))
  {
    if !UploadIsValid(req, cfg) {
      return Throws(ValidationFailed);
    }
    var dims := if req.dimensions.None? then Some(cfg.defaultDimensions) else req.dimensions;
    var filename := uuid + "." + req.file.clientExtension;
    var fullPath := req.directory + "/" + filename;
    disk.Put(fullPath, Stored(req.file.probe, req.file.decodable));
    var processed := ProcessImage(disk, cfg, fullPath, dims);
    if processed.Throws? {
      return Throws(processed.error);
    }
    if req.file.probe.None? {
      // getimagesize gave false, and `$imageSize[0]` indexes it
      return Throws(OffsetOnBool);
    }
    var p := NewRecord(table.nextId, req, filename, req.file.probe.value, table.rows);
    NewRecordKeepsInvariants(table.rows, table.nextId, req, filename, req.file.probe.value);
    table.rows := table.rows + [p];
    table.nextId := table.nextId + 1;
    var thumbnail := ThumbnailUrl(p, cfg, None, disk.Paths());
    match thumbnail
    case Throws(e) => r := Throws(e);
    case Returns(link) => r := Returns(Uploaded(p, Url(p), link));
  }

  // ---------------------------------------------------------------------------
  // destroy (lines 90-105)
  // ---------------------------------------------------------------------------

  /** `destroy($id)`. `classes` are the `photoable_type` strings that name a
      loadable model class, and `owners` the owning records that exist. */
  method Destroy(disk: Disk, table: PhotoTable, cfg: Config, id: int, classes: set<string>, owners: set<Owner>)
    returns (r: Call<bool>)
    requires disk.Valid() && table.Valid()
    modifies disk, table
    ensures disk.Valid() && table.Valid()
    ensures Find(old(table.rows), id).None? ==> r == Throws(NotFound) && unchanged(disk) && unchanged(table)
    ensures Find(old(table.rows), id).Some? && Find(old(table.rows), id).value.owner.kind !in classes ==>
              r == Throws(ClassNotFound) && unchanged(disk) && unchanged(table)
    ensures Find(old(table.rows), id).Some? && Find(old(table.rows), id).value.owner.kind in classes &&
            Find(old(table.rows), id).value.owner !in owners ==>
              r == Throws(NotFound) && unchanged(disk) && unchanged(table)
    ensures Find(old(table.rows), id).Some? && Find(old(table.rows), id).value.owner.kind in classes &&
            Find(old(table.rows), id).value.owner in owners ==>
              var p := Find(old(table.rows), id).value;
              && r == Returns(true)
              && disk.files == FilesAfterDelete(old(disk.files), old(disk.dirs), p, cfg.thumbnailsEnabled)
              && disk.dirs == old(disk.dirs)
              && table.rows == Without(old(table.rows), id) && table.nextId == old(table.nextId)
  {
    var found := Find(table.rows, id);
    if found.None? {
      return Throws(NotFound);
    }
    var p := found.value;
    // `$modelClass::findOrFail` on a string that names no class
    if p.owner.kind !in classes {
      return Throws(ClassNotFound);
    }
    if p.owner !in owners {
      return Throws(NotFound);
    }
    var success := DeletePhoto(disk, table, p, cfg);
    return Returns(success);
  }

  /** After `destroy` succeeds the id is gone and every other row remains. */
  lemma DestroyRemovesOnlyThatRow(rows: seq<Photo>, id: int)
    ensures Find(Without(rows, id), id).None?
    ensures forall x :: x in rows && x.id != id ==> x in Without(rows, id)
  {
  }

  // ---------------------------------------------------------------------------
  // setMain and checkIsMain (lines 114-154)
  // ---------------------------------------------------------------------------

  /** `$photo->update(['is_main' => $flag])`: an update by primary key. */
  function SetFlag(rows: seq<Photo>, id: int, flag: bool): (r: seq<Photo>)
    ensures |r| == |rows|
  {
    seq(|rows|, i requires 0 <= i < |rows| => if rows[i].id == id then rows[i].(isMain := flag) else rows[i])
  }

  /** What `setMain($id)` does to the rows of a found photo: a main photo is
      unflagged; otherwise the owner's photos are unflagged and this one
      flagged. */
  function SetMainRows(rows: seq<Photo>, p: Photo): seq<Photo> {
    if p.isMain then SetFlag(rows, p.id, false) else SetFlag(ClearMain(rows, p.owner), p.id, true)
  }

  /** The rows with one id all belong to one owner when ids are unique. */
  lemma FoundOwner(rows: seq<Photo>, id: int)
    requires UniqueIds(rows) && Find(rows, id).Some?
    ensures forall k :: 0 <= k < |rows| && rows[k].id == id ==> rows[k] == Find(rows, id).value
  {
    var p := Find(rows, id).value;
    forall k | 0 <= k < |rows| && rows[k].id == id ensures rows[k] == p {
      SameIdSameRow(rows, rows[k], p);
    }
  }

  /** Flagging a photo through the controller does what the trait's
      `setMainPhoto` does for its owner. */
  lemma SetMainAgreesWithTrait(rows: seq<Photo>, id: int)
    requires UniqueIds(rows) && Find(rows, id).Some? && !Find(rows, id).value.isMain
    ensures var p := Find(rows, id).value;
            SetMainRows(rows, p) == MarkMain(ClearMain(rows, p.owner), p.owner, id)
  {
    FoundOwner(rows, id);
  }

  /** `setMain` keeps both table invariants. */
  lemma SetMainKeepsInvariants(rows: seq<Photo>, id: int)
    requires UniqueIds(rows) && AtMostOneMainPerOwner(rows) && Find(rows, id).Some?
    ensures UniqueIds(SetMainRows(rows, Find(rows, id).value))
    ensures AtMostOneMainPerOwner(SetMainRows(rows, Find(rows, id).value))
  {
    var p := Find(rows, id).value;
    if p.isMain {
      var r := SetFlag(rows, id, false);
      assert forall k :: 0 <= k < |rows| ==> r[k].id == rows[k].id && r[k].owner == rows[k].owner;
    } else {
      SetMainAgreesWithTrait(rows, id);
      SetMainRowsKeepInvariants(rows, p.owner, id);
    }
  }

  /** `checkIsMain($id)`. */
  function CheckIsMain(rows: seq<Photo>, id: int): (r: Call<bool>)
    ensures r.Throws? <==> forall k :: 0 <= k < |rows| ==> rows[k].id != id
  {
    match Find(rows, id)
    case None => Throws(NotFound)
    case Some(p) => Returns(p.isMain)
  }

  /** `setMain` toggles: afterwards `checkIsMain` reports the opposite of
      what it reported before, and two calls on a photo that was not main
      leave its owner with no main photo at all. */
  lemma SetMainToggles(rows: seq<Photo>, id: int)
    requires UniqueIds(rows) && Find(rows, id).Some?
    ensures var p := Find(rows, id).value;
            var once := SetMainRows(rows, p);
            && CheckIsMain(once, id) == Returns(!p.isMain)
            && (!p.isMain ==> SetMainRows(once, Find(once, id).value) == ClearMain(rows, p.owner))
  {
    var p := Find(rows, id).value;
    var once := SetMainRows(rows, p);
    FoundOwner(rows, id);
    assert forall k :: 0 <= k < |rows| ==> once[k].id == rows[k].id && once[k].owner == rows[k].owner;
    var q := Find(once, id).value;
    var j :| 0 <= j < |once| && once[j] == q;
    assert rows[j].id == id;
    assert q.isMain == !p.isMain;
    if !p.isMain {
      assert SetMainRows(once, q) == SetFlag(once, id, false);
    }
  }

  /** `setMain($id)`. */
  method SetMain(table: PhotoTable, id: int) returns (r: Call<bool>)
    requires table.Valid()
    modifies table
    ensures table.Valid() && table.nextId == old(table.nextId)
    ensures Find(old(table.rows), id).None? ==> r == Throws(NotFound) && table.rows == old(table.rows)
    ensures Find(old(table.rows), id).Some? ==>
              r == Returns(true) && table.rows == SetMainRows(old(table.rows), Find(old(table.rows), id).value)
  {
    var found := Find(table.rows, id);
    if found.None? {
      return Throws(NotFound);
    }
    var p := found.value;
    SetMainKeepsInvariants(table.rows, id);
    if p.isMain {
      table.rows := SetFlag(table.rows, id, false);
      return Returns(true);
    }
    table.rows := ClearMain(table.rows, p.owner);
    table.rows := SetFlag(table.rows, id, true);
    return Returns(true);
  }

  // ---------------------------------------------------------------------------
  // reorder (lines 162-177)
  // ---------------------------------------------------------------------------

  datatype OrderItem = OrderItem(id: int, order: int)

  /** `photos` is a non-empty array and every id exists. */
  predicate ReorderIsValid(rows: seq<Photo>, items: seq<OrderItem>) {
    |items| > 0 && forall k :: 0 <= k < |items| ==> Find(rows, items[k].id).Some?
  }

  /** `Photo::where('id', $id)->update(['sort_order' => $order])`. */
  function SetSortOrder(rows: seq<Photo>, id: int, order: int): (r: seq<Photo>)
    ensures |r| == |rows|
  {
    seq(|rows|, i requires 0 <= i < |rows| => if rows[i].id == id then rows[i].(sortOrder := order) else rows[i])
  }

  /** The updates of `items` applied in turn. */
  function ApplyOrders(rows: seq<Photo>, items: seq<OrderItem>): (r: seq<Photo>)
    ensures |r| == |rows|
  {
    if items == [] then rows
    else
      var last := items[|items| - 1];
      SetSortOrder(ApplyOrders(rows, items[..|items| - 1]), last.id, last.order)
  }

  /** The order the last item naming `id` assigns, or `current` when none does. */
  function LastOrder(items: seq<OrderItem>, id: int, current: int): int {
    if items == [] then current
    else if items[|items| - 1].id == id then items[|items| - 1].order
    else LastOrder(items[..|items| - 1], id, current)
  }

  /** Each row ends up with the order of the last item naming it, and nothing
      but `sort_order` changes. */
  lemma {:induction false} ApplyOrdersSpec(rows: seq<Photo>, items: seq<OrderItem>)
    ensures var r := ApplyOrders(rows, items);
            forall k :: 0 <= k < |rows| ==> r[k] == rows[k].(sortOrder := LastOrder(items, rows[k].id, rows[k].sortOrder))
  {
    if items != [] {
      ApplyOrdersSpec(rows, items[..|items| - 1]);
    }
  }

  /** The orders the photo manager sends, `index + 1` for each id in grid
      order, put each photo at its position when the ids are distinct. */
  lemma ReorderByPosition(rows: seq<Photo>, ids: seq<int>)
    requires forall i, j :: 0 <= i < j < |ids| ==> ids[i] != ids[j]
    ensures var items := seq(|ids|, i requires 0 <= i < |ids| => OrderItem(ids[i], i + 1));
            var r := ApplyOrders(rows, items);
            && (forall k, i :: 0 <= k < |rows| && 0 <= i < |ids| && rows[k].id == ids[i] ==> r[k].sortOrder == i + 1)
            && (forall k :: 0 <= k < |rows| && rows[k].id !in ids ==> r[k] == rows[k])
  {
    var items := seq(|ids|, i requires 0 <= i < |ids| => OrderItem(ids[i], i + 1));
    ApplyOrdersSpec(rows, items);
    forall k, i | 0 <= k < |rows| && 0 <= i < |ids| && rows[k].id == ids[i]
      ensures LastOrder(items, rows[k].id, rows[k].sortOrder) == i + 1
    {
      LastOrderOfDistinct(ids, i, rows[k].sortOrder);
    }
    forall k | 0 <= k < |rows| && rows[k].id !in ids
      ensures LastOrder(items, rows[k].id, rows[k].sortOrder) == rows[k].sortOrder
    {
      LastOrderOfAbsent(ids, rows[k].id, rows[k].sortOrder);
    }
  }

  lemma {:induction false} LastOrderOfDistinct(ids: seq<int>, i: int, current: int)
    requires forall a, b :: 0 <= a < b < |ids| ==> ids[a] != ids[b]
    requires 0 <= i < |ids|
    ensures LastOrder(seq(|ids|, j requires 0 <= j < |ids| => OrderItem(ids[j], j + 1)), ids[i], current) == i + 1
  {
    var items := seq(|ids|, j requires 0 <= j < |ids| => OrderItem(ids[j], j + 1));
    if i < |ids| - 1 {
      var init := ids[..|ids| - 1];
      assert items[..|items| - 1] == seq(|init|, j requires 0 <= j < |init| => OrderItem(init[j], j + 1));
      LastOrderOfDistinct(init, i, current);
    }
  }

  lemma {:induction false} LastOrderOfAbsent(ids: seq<int>, id: int, current: int)
    requires id !in ids
    ensures LastOrder(seq(|ids|, j requires 0 <= j < |ids| => OrderItem(ids[j], j + 1)), id, current) == current
  {
    var items := seq(|ids|, j requires 0 <= j < |ids| => OrderItem(ids[j], j + 1));
    if ids != [] {
      var init := ids[..|ids| - 1];
      assert items[..|items| - 1] == seq(|init|, j requires 0 <= j < |init| => OrderItem(init[j], j + 1));
      LastOrderOfAbsent(init, id, current);
    }
  }

  /** Changing `sort_order` alone keeps both table invariants. */
  lemma ApplyOrdersKeepsInvariants(rows: seq<Photo>, items: seq<OrderItem>)
    requires UniqueIds(rows) && AtMostOneMainPerOwner(rows)
    ensures UniqueIds(ApplyOrders(rows, items)) && AtMostOneMainPerOwner(ApplyOrders(rows, items))
    ensures forall k :: 0 <= k < |rows| ==> ApplyOrders(rows, items)[k].id == rows[k].id
  {
    ApplyOrdersSpec(rows, items);
    var r := ApplyOrders(rows, items);
    assert forall k :: 0 <= k < |rows| ==> r[k].id == rows[k].id && r[k].owner == rows[k].owner && r[k].isMain == rows[k].isMain;
  }

  /** `reorder(Request $request)`. */
  method Reorder(table: PhotoTable, items: seq<OrderItem>) returns (r: Call<bool>)
    requires table.Valid()
    modifies table
    ensures table.Valid() && table.nextId == old(table.nextId)
    ensures !ReorderIsValid(old(table.rows), items) ==> r == Throws(ValidationFailed) && table.rows == old(table.rows)
    ensures ReorderIsValid(old(table.rows), items) ==> r == Returns(true) && table.rows == ApplyOrders(old(table.rows), items)
  {
    if !ReorderIsValid(table.rows, items) {
      return Throws(ValidationFailed);
    }
    ApplyOrdersKeepsInvariants(table.rows, items);
    ghost var rows := table.rows;
    for i := 0 to |items|
      invariant table.rows == ApplyOrders(rows, items[..i])
      invariant table.nextId == old(table.nextId)
    {
      assert items[..i + 1][..i] == items[..i];
      table.rows := SetSortOrder(table.rows, items[i].id, items[i].order);
    }
    assert items[..|items|] == items;
    return Returns(true);
  }
}
