/** The `HasPhotos` trait that an owning model mixes in: its photos in
    `sort_order`, the main photo and its URLs, moving the main flag, and
    removing every photo when the owner is deleted. The owner's photos are
    the rows of the photos table whose `photoable` pair is the owner. */
module HasPhotosTrait {
  import opened Php
  import opened Storage
  import opened Photos

  // ---------------------------------------------------------------------------
  // photos() (lines 15-19)
  // ---------------------------------------------------------------------------

  /** The owner's rows, in table order. */
  function Owned(rows: seq<Photo>, owner: Owner): (r: seq<Photo>)
    ensures forall x :: x in r <==> x in rows && x.owner == owner
    ensures forall x: Photo :: x.owner == owner ==> multiset(r)[x] == multiset(rows)[x]
  {
    if rows == [] then []
    else
      assert rows == [rows[0]] + rows[1..];
      (if rows[0].owner == owner then [rows[0]] else []) + Owned(rows[1..], owner)
  }

  predicate SortedByOrder(s: seq<Photo>) {
    forall i, j :: 0 <= i < j < |s| ==> s[i].sortOrder <= s[j].sortOrder
  }

  /** A row whose `sort_order` is at most the first one's can go in front. */
  lemma SortedCons(y: Photo, r: seq<Photo>)
    requires SortedByOrder(r) && (r == [] || y.sortOrder <= r[0].sortOrder)
    ensures SortedByOrder([y] + r)
  {
    var t := [y] + r;
    forall i, j | 0 <= i < j < |t| ensures t[i].sortOrder <= t[j].sortOrder {
      if i > 0 {
        assert t[i] == r[i - 1] && t[j] == r[j - 1];
      } else {
        assert t[j] == r[j - 1];
      }
    }
  }

  /** Places `x` before the first element whose `sort_order` is not smaller. */
  function Insert(x: Photo, s: seq<Photo>): (r: seq<Photo>)
    requires SortedByOrder(s)
    ensures SortedByOrder(r) && multiset(r) == multiset(s) + multiset{x}
    ensures r[0] == x || (s != [] && r[0] == s[0])
  {
    if s == [] then [x]
    else if x.sortOrder <= s[0].sortOrder then
      SortedCons(x, s);
      [x] + s
    else
      var rest := Insert(x, s[1..]);
      assert s == [s[0]] + s[1..];
      assert s[0].sortOrder <= rest[0].sortOrder;
      SortedCons(s[0], rest);
      [s[0]] + rest
  }

  /** `orderBy('sort_order', 'asc')`; rows with equal `sort_order` keep
      their table order. */
  function SortByOrder(s: seq<Photo>): (r: seq<Photo>)
    ensures SortedByOrder(r) && multiset(r) == multiset(s)
  {
    if s == [] then []
    else
      assert s == [s[0]] + s[1..];
      Insert(s[0], SortByOrder(s[1..]))
  }

  /** `$owner->photos`. */
  function PhotosOf(rows: seq<Photo>, owner: Owner): seq<Photo> {
    SortByOrder(Owned(rows, owner))
  }

  /** The relation holds exactly the owner's rows, in ascending `sort_order`. */
  lemma PhotosOfMembers(rows: seq<Photo>, owner: Owner)
    ensures SortedByOrder(PhotosOf(rows, owner))
    ensures forall x :: x in PhotosOf(rows, owner) <==> x in rows && x.owner == owner
  {
    var ps := PhotosOf(rows, owner);
    var o := Owned(rows, owner);
    forall x ensures x in ps <==> x in o {
      assert x in ps <==> x in multiset(ps);
      assert x in o <==> x in multiset(o);
    }
  }

  /** Each of the owner's rows appears in the relation as often as in the table. */
  lemma PhotosOfCounts(rows: seq<Photo>, owner: Owner, x: Photo)
    requires x.owner == owner
    ensures multiset(PhotosOf(rows, owner))[x] == multiset(rows)[x]
  {
  }

  // ---------------------------------------------------------------------------
  // mainPhoto, getMainPhotoUrl, getMainPhotoThumbnailUrl, hasPhotos (lines 26-75)
  // ---------------------------------------------------------------------------

  /** `->where('is_main', true)->first()`. */
  function FirstMain(s: seq<Photo>): (r: Option<Photo>)
    ensures r.Some? ==> r.value in s && r.value.isMain
    ensures r.Some? ==> exists k :: 0 <= k < |s| && s[k] == r.value && forall j :: 0 <= j < k ==> !s[j].isMain
    ensures r.None? <==> forall k :: 0 <= k < |s| ==> !s[k].isMain
  {
    if s == [] then None
    else if s[0].isMain then Some(s[0])
    else FirstMain(s[1..])
  }

  /** `mainPhoto()`: the first main photo in `sort_order`, else the first photo. */
  function MainPhoto(rows: seq<Photo>, owner: Owner): Option<Photo> {
    var ps := PhotosOf(rows, owner);
    match FirstMain(ps)
    case Some(m) => Some(m)
    case None => if ps == [] then None else Some(ps[0])
  }

  /** There is a main photo exactly when the owner has photos; it is one of
      them; it carries the main flag when any of them does, and otherwise
      it has the smallest `sort_order`. */
  lemma MainPhotoChoice(rows: seq<Photo>, owner: Owner)
    ensures var m := MainPhoto(rows, owner);
            var ps := PhotosOf(rows, owner);
            && (m.Some? <==> exists x :: x in rows && x.owner == owner)
            && (m.Some? ==> m.value in rows && m.value.owner == owner)
            && ((exists x :: x in rows && x.owner == owner && x.isMain) ==>
                  && m.Some? && m.value.isMain
                  && exists k :: 0 <= k < |ps| && ps[k] == m.value && forall j :: 0 <= j < k ==> !ps[j].isMain)
            && ((forall x :: x in rows && x.owner == owner ==> !x.isMain) && m.Some? ==>
                  && m.value == ps[0]
                  && forall x :: x in rows && x.owner == owner ==> m.value.sortOrder <= x.sortOrder)
  {
    var ps := PhotosOf(rows, owner);
    PhotosOfMembers(rows, owner);
    if exists x :: x in rows && x.owner == owner && x.isMain {
      var x :| x in rows && x.owner == owner && x.isMain;
      MainIsFound(ps, x);
    }
    if ps != [] {
      forall x | x in rows && x.owner == owner ensures ps[0].sortOrder <= x.sortOrder {
        FirstIsSmallest(ps, x);
      }
    }
  }

  lemma MainIsFound(ps: seq<Photo>, x: Photo)
    requires x in ps && x.isMain
    ensures FirstMain(ps).Some?
  {
    var k :| 0 <= k < |ps| && ps[k] == x;
  }

  lemma FirstIsSmallest(ps: seq<Photo>, x: Photo)
    requires SortedByOrder(ps) && x in ps
    ensures ps[0].sortOrder <= x.sortOrder
  {
    var k :| 0 <= k < |ps| && ps[k] == x;
    if k > 0 {
      assert ps[0].sortOrder <= ps[k].sortOrder;
    }
  }

  /** When no owner has two main photos, a main photo of the owner is the
      one `mainPhoto()` returns. */
  lemma MainPhotoIsTheFlaggedOne(rows: seq<Photo>, owner: Owner, k: int)
    requires AtMostOneMainPerOwner(rows)
    requires 0 <= k < |rows| && rows[k].owner == owner && rows[k].isMain
    ensures MainPhoto(rows, owner) == Some(rows[k])
  {
    assert rows[k] in rows;
    MainPhotoChoice(rows, owner);
    var m := MainPhoto(rows, owner).value;
    var j :| 0 <= j < |rows| && rows[j] == m;
    assert j == k;
  }

  /** `getMainPhotoUrl($dimensions, $format, $quality)`: `getUrl` declares no
      parameters, so the three arguments are dropped. */
  function MainPhotoUrl(rows: seq<Photo>, owner: Owner, dims: Option<string>, format: Option<string>,
                        quality: Option<int>): (r: Option<string>)
    ensures r.Some? <==> MainPhoto(rows, owner).Some?
  {
    match MainPhoto(rows, owner)
    case Some(m) => Some(Url(m))
    case None => None
  }

  /** The URL is the main photo's original URL, whatever arguments are passed. */
  lemma MainPhotoUrlIgnoresArguments(rows: seq<Photo>, owner: Owner, d1: Option<string>, f1: Option<string>,
                                     q1: Option<int>, d2: Option<string>, f2: Option<string>, q2: Option<int>)
    ensures MainPhotoUrl(rows, owner, d1, f1, q1) == MainPhotoUrl(rows, owner, d2, f2, q2)
    ensures MainPhoto(rows, owner).Some? ==> MainPhotoUrl(rows, owner, d1, f1, q1) == Some(Url(MainPhoto(rows, owner).value))
  {
  }

  /** `getMainPhotoThumbnailUrl($dimensions)`. */
  function MainPhotoThumbnailUrl(rows: seq<Photo>, owner: Owner, cfg: Config, dims: Option<string>,
                                 present: set<string>): (r: Option<Call<Link>>)
    ensures r.Some? <==> MainPhoto(rows, owner).Some?
    ensures r.Some? ==> r.value == ThumbnailUrl(MainPhoto(rows, owner).value, cfg, dims, present)
  {
    match MainPhoto(rows, owner)
    case Some(m) => Some(ThumbnailUrl(m, cfg, dims, present))
    case None => None
  }

  /** With thumbnails disabled, the main thumbnail URL is the main photo's
      original URL, as `getMainPhotoUrl` gives it, and null without one. */
  lemma DisabledMainThumbnailIsMainUrl(rows: seq<Photo>, owner: Owner, cfg: Config, dims: Option<string>,
                                       present: set<string>)
    requires !cfg.thumbnailsEnabled
    ensures MainPhotoThumbnailUrl(rows, owner, cfg, dims, present) ==
            match MainPhotoUrl(rows, owner, dims, None, None)
            case None => None
            case Some(u) => Some(Returns(Static(u)))
  {
    if MainPhoto(rows, owner).Some? {
      DisabledThumbnailIsOriginal(MainPhoto(rows, owner).value, cfg, dims, present);
    }
  }

  /** A main photo whose thumbnail is stored is served that thumbnail. */
  lemma StoredMainThumbnailIsServed(rows: seq<Photo>, owner: Owner, cfg: Config, d: string, present: set<string>)
    requires cfg.thumbnailsEnabled && MainPhoto(rows, owner).Some?
    requires ThumbnailPath(MainPhoto(rows, owner).value, d) in present
    ensures MainPhotoThumbnailUrl(rows, owner, cfg, Some(d), present) ==
            Some(Returns(Static("/storage/" + ThumbnailPath(MainPhoto(rows, owner).value, d))))
  {
    ThumbnailUrlDecision(MainPhoto(rows, owner).value, cfg, Some(d), present);
  }

  /** `hasPhotos()`: `count() > 0` on the relation. */
  function HasPhotos(rows: seq<Photo>, owner: Owner): bool {
    |Owned(rows, owner)| > 0
  }

  lemma HasPhotosIff(rows: seq<Photo>, owner: Owner)
    ensures HasPhotos(rows, owner) <==> exists x :: x in rows && x.owner == owner
    ensures HasPhotos(rows, owner) <==> MainPhoto(rows, owner).Some?
  {
    MainPhotoChoice(rows, owner);
    var o := Owned(rows, owner);
    if |o| > 0 {
      assert o[0] in o;
    }
  }

  // ---------------------------------------------------------------------------
  // setMainPhoto (lines 58-65)
  // ---------------------------------------------------------------------------

  /** `$this->photos()->update(['is_main' => false])`. */
  function ClearMain(rows: seq<Photo>, owner: Owner): (r: seq<Photo>)
    ensures |r| == |rows|
    ensures forall i :: 0 <= i < |r| ==> r[i].id == rows[i].id && r[i].owner == rows[i].owner
    ensures forall i :: 0 <= i < |r| && r[i].owner == owner ==> !r[i].isMain
  {
    seq(|rows|, i requires 0 <= i < |rows| => if rows[i].owner == owner then rows[i].(isMain := false) else rows[i])
  }

  /** `$this->photos()->where('id', $id)->update(['is_main' => true])`. */
  function MarkMain(rows: seq<Photo>, owner: Owner, id: int): (r: seq<Photo>)
    ensures |r| == |rows|
  {
    seq(|rows|, i requires 0 <= i < |rows| =>
      if rows[i].owner == owner && rows[i].id == id then rows[i].(isMain := true) else rows[i])
  }

  /** Each row differs from before at most in its main flag; other owners'
      rows keep theirs, and among the owner's rows only the chosen id is main. */
  lemma SetMainRowsShape(rows: seq<Photo>, owner: Owner, id: int)
    ensures var r := MarkMain(ClearMain(rows, owner), owner, id);
            && (forall k :: 0 <= k < |rows| ==> r[k].(isMain := rows[k].isMain) == rows[k])
            && (forall k :: 0 <= k < |rows| && rows[k].owner != owner ==> r[k] == rows[k])
            && (forall k :: 0 <= k < |rows| && rows[k].owner == owner ==> (r[k].isMain <==> rows[k].id == id))
  {
  }

  /** With unique ids the two updates keep both table invariants. */
  lemma SetMainRowsKeepInvariants(rows: seq<Photo>, owner: Owner, id: int)
    requires UniqueIds(rows) && AtMostOneMainPerOwner(rows)
    ensures var r := MarkMain(ClearMain(rows, owner), owner, id);
            UniqueIds(r) && AtMostOneMainPerOwner(r)
  {
    SetMainRowsShape(rows, owner, id);
    var r := MarkMain(ClearMain(rows, owner), owner, id);
    assert forall k :: 0 <= k < |rows| ==> r[k].id == rows[k].id && r[k].owner == rows[k].owner;
  }

  /** After both updates the owner's main photo is the chosen one, when it
      is one of the owner's. */
  lemma SetMainRowsChoosesPhoto(rows: seq<Photo>, owner: Owner, id: int, k: int)
    requires UniqueIds(rows) && AtMostOneMainPerOwner(rows)
    requires 0 <= k < |rows| && rows[k].owner == owner && rows[k].id == id
    ensures var r := MarkMain(ClearMain(rows, owner), owner, id);
            MainPhoto(r, owner) == Some(r[k]) && r[k] == rows[k].(isMain := true)
  {
    SetMainRowsKeepInvariants(rows, owner, id);
    var r := MarkMain(ClearMain(rows, owner), owner, id);
    MainPhotoIsTheFlaggedOne(r, owner, k);
  }

  /** `setMainPhoto($photoId)`: true when the second update touched a row,
      which is when the photo is one of the owner's. */
  method SetMainPhoto(table: PhotoTable, owner: Owner, photoId: int) returns (changed: bool)
    requires table.Valid()
    modifies table
    ensures table.Valid()
    ensures table.rows == MarkMain(ClearMain(old(table.rows), owner), owner, photoId)
    ensures table.nextId == old(table.nextId)
    ensures changed <==> exists k :: 0 <= k < |old(table.rows)| && old(table.rows)[k].owner == owner &&
                                     old(table.rows)[k].id == photoId
  {
    SetMainRowsKeepInvariants(table.rows, owner, photoId);
    changed := exists k :: 0 <= k < |table.rows| && table.rows[k].owner == owner && table.rows[k].id == photoId;
    table.rows := MarkMain(ClearMain(table.rows, owner), owner, photoId);
  }

  // ---------------------------------------------------------------------------
  // deleteAllPhotos and the deleting hook (lines 82-106)
  // ---------------------------------------------------------------------------

  /** The disk after `deletePhoto` on each of `ps` in turn. */
  function FilesAfterDeleteAll(files: map<string, Blob>, dirs: set<string>, ps: seq<Photo>, enabled: bool): map<string, Blob>
  {
    if ps == [] then files
    else FilesAfterDelete(FilesAfterDeleteAll(files, dirs, ps[..|ps| - 1], enabled), dirs, ps[|ps| - 1], enabled)
  }

  /** The table after removing the rows of each of `ps` in turn. */
  function RowsAfterDeleteAll(rows: seq<Photo>, ps: seq<Photo>): seq<Photo> {
    if ps == [] then rows else Without(RowsAfterDeleteAll(rows, ps[..|ps| - 1]), ps[|ps| - 1].id)
  }

  /** Deleting only ever removes files, and every listed photo's original is gone. */
  lemma {:induction false} DeleteAllRemovesOriginals(files: map<string, Blob>, dirs: set<string>, ps: seq<Photo>, enabled: bool)
    ensures var after := FilesAfterDeleteAll(files, dirs, ps, enabled);
            && (forall f :: f in after ==> f in files && after[f] == files[f])
            && (forall k :: 0 <= k < |ps| ==> Path(ps[k]) !in after)
  {
    if ps != [] {
      var before := FilesAfterDeleteAll(files, dirs, ps[..|ps| - 1], enabled);
      DeleteAllRemovesOriginals(files, dirs, ps[..|ps| - 1], enabled);
      var after := FilesAfterDeleteAll(files, dirs, ps, enabled);
      forall f | f in after ensures f in before && after[f] == before[f] {
        DeleteRemovesExactly(before, dirs, ps[|ps| - 1], enabled, f);
      }
      forall k | 0 <= k < |ps| ensures Path(ps[k]) !in after {
        if k < |ps| - 1 {
          assert ps[..|ps| - 1][k] == ps[k];
        }
      }
    }
  }

  /** The ids of a list of photos. */
  function Ids(ps: seq<Photo>): (r: set<int>)
    ensures forall x :: x in ps ==> x.id in r
    ensures forall i :: i in r ==> exists x :: x in ps && x.id == i
  {
    set x | x in ps :: x.id
  }

  /** The rows left are exactly those whose id is none of the listed ones. */
  lemma {:induction false} RowsAfterDeleteAllSpec(rows: seq<Photo>, ps: seq<Photo>)
    ensures forall x :: x in RowsAfterDeleteAll(rows, ps) <==> x in rows && x.id !in Ids(ps)
  {
    if ps != [] {
      var init := ps[..|ps| - 1];
      RowsAfterDeleteAllSpec(rows, init);
      assert ps == init + [ps[|ps| - 1]];
      assert Ids(ps) == Ids(init) + {ps[|ps| - 1].id};
    }
  }

  /** After all of an owner's photos are removed the owner has none left and
      every other owner's rows are still there. */
  lemma DeleteAllLeavesOthers(rows: seq<Photo>, owner: Owner)
    requires UniqueIds(rows)
    ensures var after := RowsAfterDeleteAll(rows, PhotosOf(rows, owner));
            && !HasPhotos(after, owner)
            && forall x :: x in after <==> x in rows && x.owner != owner
  {
    var ps := PhotosOf(rows, owner);
    var after := RowsAfterDeleteAll(rows, ps);
    PhotosOfMembers(rows, owner);
    RowsAfterDeleteAllSpec(rows, ps);
    HasPhotosIff(after, owner);
  }

  /** With unique ids, two rows with one id are the same row. */
  lemma SameIdSameRow(rows: seq<Photo>, x: Photo, y: Photo)
    requires UniqueIds(rows) && x in rows && y in rows && x.id == y.id
    ensures x == y
  {
    var i :| 0 <= i < |rows| && rows[i] == x;
    var j :| 0 <= j < |rows| && rows[j] == y;
  }

  /** One more photo deleted extends both folds by one step. */
  lemma DeleteAllStep(files: map<string, Blob>, dirs: set<string>, rows: seq<Photo>, ps: seq<Photo>, i: int, enabled: bool)
    requires 0 <= i < |ps|
    ensures FilesAfterDeleteAll(files, dirs, ps[..i + 1], enabled) ==
            FilesAfterDelete(FilesAfterDeleteAll(files, dirs, ps[..i], enabled), dirs, ps[i], enabled)
    ensures RowsAfterDeleteAll(rows, ps[..i + 1]) == Without(RowsAfterDeleteAll(rows, ps[..i]), ps[i].id)
  {
    assert ps[..i + 1][..i] == ps[..i];
  }

  /** `deleteAllPhotos()`: `deletePhoto` on each photo of the relation. */
  method DeleteAllPhotos(disk: Disk, table: PhotoTable, owner: Owner, cfg: Config)
    requires disk.Valid() && table.Valid()
    modifies disk, table
    ensures disk.Valid() && table.Valid()
    ensures disk.files == FilesAfterDeleteAll(old(disk.files), old(disk.dirs), PhotosOf(old(table.rows), owner), cfg.thumbnailsEnabled)
    ensures disk.dirs == old(disk.dirs)
    ensures table.rows == RowsAfterDeleteAll(old(table.rows), PhotosOf(old(table.rows), owner))
    ensures table.nextId == old(table.nextId)
  {
    var ps := PhotosOf(table.rows, owner);
    for i := 0 to |ps|
      invariant disk.Valid() && table.Valid()
      invariant disk.files == FilesAfterDeleteAll(old(disk.files), old(disk.dirs), ps[..i], cfg.thumbnailsEnabled)
      invariant disk.dirs == old(disk.dirs)
      invariant table.rows == RowsAfterDeleteAll(old(table.rows), ps[..i])
      invariant table.nextId == old(table.nextId)
    {
      DeleteAllStep(old(disk.files), old(disk.dirs), old(table.rows), ps, i, cfg.thumbnailsEnabled);
      var _ := DeletePhoto(disk, table, ps[i], cfg);
    }
    assert ps[..|ps|] == ps;
  }

  /** The `deleting` listener: a soft-deleting owner keeps its photos unless
      it is being force-deleted; any other owner loses them all. */
  method OwnerDeleting(disk: Disk, table: PhotoTable, owner: Owner, cfg: Config, softDeletes: bool, forceDeleting: bool)
    requires disk.Valid() && table.Valid()
    modifies disk, table
    ensures disk.Valid() && table.Valid()
    ensures softDeletes && !forceDeleting ==> unchanged(disk) && unchanged(table)
    ensures !(softDeletes && !forceDeleting) ==>
      && disk.files == FilesAfterDeleteAll(old(disk.files), old(disk.dirs), PhotosOf(old(table.rows), owner), cfg.thumbnailsEnabled)
      && disk.dirs == old(disk.dirs)
      && table.rows == RowsAfterDeleteAll(old(table.rows), PhotosOf(old(table.rows), owner))
      && table.nextId == old(table.nextId)
  {
    if softDeletes && !forceDeleting {
      return;
    }
    DeleteAllPhotos(disk, table, owner, cfg);
  }
}
