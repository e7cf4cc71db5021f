/** The `Photo` model: one row of the `photos` table, the path and URL it is
    served under, the thumbnail URL decision, and `deletePhoto`, which removes
    the original, the thumbnail of the same name in every dimension directory,
    and the row. The table itself is a class holding the rows. */
module Photos {
  import opened Php
  import opened Text
  import opened Storage

  /** The owning record: `photoable_id` and `photoable_type`. */
  datatype Owner = Owner(id: int, kind: string)

  datatype Photo = Photo(id: int, owner: Owner, filename: string, originalFilename: string,
                         directory: string, extension: string, mimeType: string,
                         size: int, width: int, height: int, sortOrder: int, isMain: bool)

  /** The `dropzone.images` configuration, plus whether the Glide add-on's
      facade class exists (`class_exists`). */
  datatype Config = Config(thumbnailsEnabled: bool, thumbnailDimensions: string,
                           defaultDimensions: string, preResize: bool, quality: int,
                           maxFilesize: int, glide: bool)

  /** The values shipped in config/dropzone.php, without Glide. */
  const Defaults := Config(true, "288x288", "1920x1080", true, 90, 10000, false)

  // ---------------------------------------------------------------------------
  // Paths and URLs (lines 81-128)
  // ---------------------------------------------------------------------------

  /** `getPath()`. */
  function Path(p: Photo): string {
    p.directory + "/" + p.filename
  }

  /** `getUrl()`: a relative URL under the public storage link. */
  function Url(p: Photo): string {
    "/storage/" + Path(p)
  }

  function ThumbnailDirectory(p: Photo): string {
    p.directory + "/thumbnails"
  }

  /** Where the thumbnail for a dimension string lives. */
  function ThumbnailPath(p: Photo, dims: string): string {
    ThumbnailDirectory(p) + "/" + dims + "/" + p.filename
  }

  /** What `getThumbnailUrl` hands back: a URL string, or the `dropzone.image`
      route with its path, width and height parameters. */
  datatype Link = Static(url: string) | ImageRoute(path: string, w: string, h: string)

  /** `getThumbnailUrl($dimensions)`; `present` is the set of paths for which
      the disk's `exists` answers true. A dimension string without an 'x'
      reaches `explode('x', $dimensions)[1]`, an undefined key. */
  function ThumbnailUrl(p: Photo, cfg: Config, dims: Option<string>, present: set<string>): Call<Link> {
    if !cfg.thumbnailsEnabled then Returns(Static(Url(p)))
    else
      var d := dims.GetOr(cfg.thumbnailDimensions);
      var thumbnailPath := ThumbnailPath(p, d);
      if thumbnailPath in present then Returns(Static("/storage/" + thumbnailPath))
      else if cfg.glide then
        var parts := Split(d, 'x');
        if |parts| < 2 then Throws(UndefinedKey) else Returns(ImageRoute(Path(p), parts[0], parts[1]))
      else Returns(Static(Url(p)))
  }

  /** A photo's path splits back into its directory and file name, which is
      what the upload controller relies on when it derives the thumbnail path
      from the stored path. */
  lemma PathSplitsBack(p: Photo)
    requires p.directory != [] && p.directory[|p.directory| - 1] != '/'
    requires p.filename != [] && '/' !in p.filename
    ensures Dirname(Path(p)) == p.directory && Basename(Path(p)) == p.filename
  {
    DirnameBasenameJoin(p.directory, p.filename);
  }

  /** With thumbnails disabled the original URL is returned, whatever the
      dimensions and whatever is on disk. */
  lemma DisabledThumbnailIsOriginal(p: Photo, cfg: Config, dims: Option<string>, present: set<string>)
    requires !cfg.thumbnailsEnabled
    ensures ThumbnailUrl(p, cfg, dims, present) == Returns(Static(Url(p)))
  {
  }

  /** The four outcomes of the decision chain, each tied to its condition,
      with a missing dimension argument replaced by the configured one. */
  lemma ThumbnailUrlDecision(p: Photo, cfg: Config, dims: Option<string>, present: set<string>)
    requires cfg.thumbnailsEnabled
    ensures var d := if dims.Some? then dims.value else cfg.thumbnailDimensions;
            var r := ThumbnailUrl(p, cfg, dims, present);
            && (ThumbnailPath(p, d) in present <==> r == Returns(Static("/storage/" + ThumbnailPath(p, d))))
            && (r.Returns? && r.value.ImageRoute? <==> ThumbnailPath(p, d) !in present && cfg.glide && 'x' in d)
            && (r.Throws? <==> ThumbnailPath(p, d) !in present && cfg.glide && 'x' !in d)
            && (ThumbnailPath(p, d) !in present && !cfg.glide ==> r == Returns(Static(Url(p))))
  {
    var d := if dims.Some? then dims.value else cfg.thumbnailDimensions;
    var tp := ThumbnailPath(p, d);
    ThumbnailPathIsNotPath(p, d);
    if tp !in present {
      assert "/storage/" + tp != "/storage/" + Path(p);
      if cfg.glide {
        SplitCount(d, 'x');
      }
    }
  }

  /** A dimension string splits into at least two parts exactly when it holds the separator. */
  lemma SplitCount(s: string, c: char)
    ensures |Split(s, c)| >= 2 <==> c in s
  {
  }

  /** The thumbnail path is never the original's path. */
  lemma ThumbnailPathIsNotPath(p: Photo, d: string)
    ensures ThumbnailPath(p, d) != Path(p)
  {
    var t := ThumbnailPath(p, d);
    if t == Path(p) {
      assert |t| > |Path(p)|;
    }
  }

  /** With Glide and no stored thumbnail, a "WxH" string becomes the route's
      width and height parameters. */
  lemma GlideRouteDimensions(p: Photo, cfg: Config, w: string, h: string, present: set<string>)
    requires cfg.thumbnailsEnabled && cfg.glide
    requires 'x' !in w && 'x' !in h
    requires ThumbnailPath(p, w + "x" + h) !in present
    ensures ThumbnailUrl(p, cfg, Some(w + "x" + h), present) == Returns(ImageRoute(Path(p), w, h))
  {
    SplitPair(w, h, 'x');
  }

  // ---------------------------------------------------------------------------
  // The photos table
  // ---------------------------------------------------------------------------

  /** No owner has two main photos. */
  ghost predicate AtMostOneMainPerOwner(rows: seq<Photo>) {
    forall i, j ::
      0 <= i < |rows| && 0 <= j < |rows| && i != j && rows[i].owner == rows[j].owner && rows[i].isMain
      ==> !rows[j].isMain
  }

  ghost predicate UniqueIds(rows: seq<Photo>) {
    forall i, j :: 0 <= i < |rows| && 0 <= j < |rows| && i != j ==> rows[i].id != rows[j].id
  }

  /** The row with a given id, if any (`Photo::find`). */
  function Find(rows: seq<Photo>, id: int): (r: Option<Photo>)
    ensures r.Some? ==> r.value in rows && r.value.id == id
    ensures r.None? ==> forall k :: 0 <= k < |rows| ==> rows[k].id != id
  {
    if rows == [] then None
    else if rows[0].id == id then Some(rows[0])
    else Find(rows[1..], id)
  }

  /** The rows without the one of the given id. */
  function Without(rows: seq<Photo>, id: int): (r: seq<Photo>)
    ensures forall x :: x in r <==> x in rows && x.id != id
    ensures |r| <= |rows|
  {
    if rows == [] then []
    else if rows[0].id == id then Without(rows[1..], id)
    else [rows[0]] + Without(rows[1..], id)
  }

  /** Removing rows keeps every row that remains in its relative order, so
      the table invariants survive. */
  lemma {:induction false} WithoutKeepsInvariants(rows: seq<Photo>, id: int)
    requires UniqueIds(rows) && AtMostOneMainPerOwner(rows)
    ensures UniqueIds(Without(rows, id)) && AtMostOneMainPerOwner(Without(rows, id))
  {
    if rows != [] {
      assert rows == [rows[0]] + rows[1..];
      TailKeepsInvariants(rows[0], rows[1..]);
      WithoutKeepsInvariants(rows[1..], id);
      if rows[0].id != id {
        ConsKeepsInvariants(rows[0], rows[1..], Without(rows[1..], id));
      }
    }
  }

  lemma TailKeepsInvariants(x: Photo, rest: seq<Photo>)
    requires UniqueIds([x] + rest) && AtMostOneMainPerOwner([x] + rest)
    ensures UniqueIds(rest) && AtMostOneMainPerOwner(rest)
  {
    var t := [x] + rest;
    forall i, j | 0 <= i < |rest| && 0 <= j < |rest| && i != j
      ensures rest[i].id != rest[j].id
      ensures rest[i].owner == rest[j].owner && rest[i].isMain ==> !rest[j].isMain
    {
      assert t[i + 1] == rest[i] && t[j + 1] == rest[j];
    }
  }

  /** A row that clashes with no row of `rest` clashes with none of a
      sub-collection of it either. */
  lemma ConsKeepsInvariants(x: Photo, rest: seq<Photo>, w: seq<Photo>)
    requires UniqueIds([x] + rest) && AtMostOneMainPerOwner([x] + rest)
    requires UniqueIds(w) && AtMostOneMainPerOwner(w)
    requires forall y :: y in w ==> y in rest
    ensures UniqueIds([x] + w) && AtMostOneMainPerOwner([x] + w)
  {
    var s := [x] + rest;
    forall y | y in rest
      ensures y.id != x.id && (y.owner == x.owner && x.isMain ==> !y.isMain)
    {
      var k :| 0 <= k < |rest| && rest[k] == y;
      assert s[0] == x && s[k + 1] == y;
    }
    var t := [x] + w;
    forall i, j | 0 <= i < |t| && 0 <= j < |t| && i != j
      ensures t[i].id != t[j].id
      ensures t[i].owner == t[j].owner && t[i].isMain ==> !t[j].isMain
    {
      if i == 0 {
        assert t[j] == w[j - 1] && t[j] in rest;
      } else if j == 0 {
        assert t[i] == w[i - 1] && t[i] in rest;
      } else {
        assert t[i] == w[i - 1] && t[j] == w[j - 1];
      }
    }
  }

  /** The `photos` table with its auto-increment counter. */
  class PhotoTable {
    var rows: seq<Photo>
    var nextId: int

    ghost predicate Valid()
      reads this
    {
      && UniqueIds(rows)
      && (forall k :: 0 <= k < |rows| ==> rows[k].id < nextId)
      && AtMostOneMainPerOwner(rows)
    }

    constructor ()
      ensures Valid() && rows == [] && nextId == 1
    {
      rows := [];
      nextId := 1;
    }

    /** `$photo->delete()` for a loaded photo: removes its row. */
    method DeleteRow(id: int)
      requires Valid()
      modifies this
      ensures Valid()
      ensures rows == Without(old(rows), id) && nextId == old(nextId)
    {
      WithoutKeepsInvariants(rows, id);
      rows := Without(rows, id);
    }
  }

  // ---------------------------------------------------------------------------
  // deletePhoto (lines 135-158)
  // ---------------------------------------------------------------------------

  /** The thumbnail file of a name in each of a set of dimension directories. */
  function Variants(dimDirs: set<string>, filename: string): set<string> {
    set c | c in dimDirs :: c + "/" + filename
  }

  /** The immediate sub-directories of `d` among `dirs`. */
  function ChildDirs(dirs: set<string>, d: string): set<string> {
    set c | c in dirs && IsChildDir(d, c)
  }

  /** The files left after `deletePhoto`: the original goes, then, if thumbnails
      are enabled and the thumbnails directory exists, `<dimDir>/<filename>`
      for every immediate sub-directory of it. */
  function FilesAfterDelete(files: map<string, Blob>, dirs: set<string>, p: Photo, enabled: bool): (r: map<string, Blob>)
    ensures Path(p) !in r
    ensures forall k :: k in r ==> k in files && r[k] == files[k]
  {
    var rest := files - {Path(p)};
    var td := ThumbnailDirectory(p);
    if enabled && (td in rest || td in dirs) then
      rest - Variants(ChildDirs(dirs, td), p.filename)
    else rest
  }

  /** The original is gone and so is every variant of the same name; any
      other file (another name, a deeper path, another directory) is kept. */
  lemma DeleteRemovesExactly(files: map<string, Blob>, dirs: set<string>, p: Photo, enabled: bool, f: string)
    ensures var after := FilesAfterDelete(files, dirs, p, enabled);
            var td := ThumbnailDirectory(p);
            var swept := enabled && (td in files - {Path(p)} || td in dirs);
            && (f in after <==>
                  f in files && f != Path(p) && !(swept && exists c :: c in dirs && IsChildDir(td, c) && f == c + "/" + p.filename))
            && (f in after ==> after[f] == files[f])
  {
  }

  /** With thumbnails disabled only the original is removed. */
  lemma DisabledDeleteRemovesOriginalOnly(files: map<string, Blob>, dirs: set<string>, p: Photo)
    ensures FilesAfterDelete(files, dirs, p, false) == files - {Path(p)}
  {
  }

  /** Deleting a second time changes nothing more: removing an absent path is
      a no-op, and the thumbnails directory itself is never removed. */
  lemma DeleteIsIdempotent(files: map<string, Blob>, dirs: set<string>, p: Photo, enabled: bool)
    ensures FilesAfterDelete(FilesAfterDelete(files, dirs, p, enabled), dirs, p, enabled) ==
            FilesAfterDelete(files, dirs, p, enabled)
  {
    var td := ThumbnailDirectory(p);
    var once := FilesAfterDelete(files, dirs, p, enabled);
    var vs := Variants(ChildDirs(dirs, td), p.filename);
    forall c | c in ChildDirs(dirs, td) ensures c + "/" + p.filename != td {
      assert |c| > |td|;
    }
    assert td !in vs;
    if enabled && (td in files - {Path(p)} || td in dirs) {
      assert td in once - {Path(p)} || td in dirs;
    }
  }

  /** `deletePhoto()`: the file on disk, every variant, then the row. */
  method DeletePhoto(disk: Disk, table: PhotoTable, p: Photo, cfg: Config) returns (deleted: bool)
    requires disk.Valid() && table.Valid()
    modifies disk, table
    ensures disk.Valid() && table.Valid()
    ensures disk.files == FilesAfterDelete(old(disk.files), old(disk.dirs), p, cfg.thumbnailsEnabled)
    ensures disk.dirs == old(disk.dirs)
    ensures table.rows == Without(old(table.rows), p.id) && table.nextId == old(table.nextId)
    ensures deleted
  {
    disk.Delete(Path(p));
    if cfg.thumbnailsEnabled {
      var td := ThumbnailDirectory(p);
      if disk.Exists(td) {
        var dimensionDirs := disk.Directories(td);
        ghost var rest := disk.files;
        var todo := dimensionDirs;
        while todo != {}
          invariant todo <= dimensionDirs
          invariant disk.Valid() && disk.dirs == old(disk.dirs) && unchanged(table)
          invariant disk.files == rest - Variants(dimensionDirs - todo, p.filename)
          decreases todo
        {
          var dimDir :| dimDir in todo;
          disk.Delete(dimDir + "/" + p.filename);
          assert Variants(dimensionDirs - (todo - {dimDir}), p.filename) ==
                 Variants(dimensionDirs - todo, p.filename) + {dimDir + "/" + p.filename};
          todo := todo - {dimDir};
        }
        assert dimensionDirs - todo == dimensionDirs;
      }
    }
    table.DeleteRow(p.id);
    deleted := true;
  }
}
