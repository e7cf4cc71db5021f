/** The storage disk that Laravel's `Storage` facade gives access to, reduced
    to the set of file paths it holds (each with an abstract content) and the
    set of directory paths. Paths are relative to the disk root. */
module Storage {
  import opened Php

  /** What `getimagesize` reports about an image file. */
  datatype ImageInfo = ImageInfo(width: nat, height: nat, mime: string)

  /** One `imagecopyresampled` call: the destination rectangle in the canvas
      and the source rectangle it samples from. */
  datatype Resample = Resample(dstX: int, dstY: int, dstW: int, dstH: int,
                               srcX: real, srcY: real, srcW: real, srcH: real)

  /** What a GD true-colour canvas holds once the thumbnail pipeline is done
      with it; the pixels themselves are not modelled. */
  datatype Raster = Raster(width: int, height: int, alphaBlending: bool, alphaSaved: bool,
                           transparentFill: bool, drawn: Option<Resample>)

  /** The GD encoder a canvas was written with, and its quality argument. */
  datatype Encoding = Jpeg(quality: int) | Png(level: int) | Gif | Webp(quality: int)

  /** The parameters handed to the Glide add-on's `modify`. */
  datatype GlideParams = GlideParams(w: string, h: string, fit: string, quality: int)

  /** The content of a stored file. */
  datatype Blob =
    | Stored(probe: Option<ImageInfo>, decodable: bool)  // bytes the model does not interpret
    | Rendered(image: Raster, encoding: Encoding)         // written by a GD encoder
    | Resized(params: GlideParams)                        // written by the Glide add-on

  /** The proper ancestor directories of a path: each prefix ending just
      before a '/'. */
  function Ancestors(p: string): (r: set<string>)
    ensures forall a :: a in r ==> a < p
  {
    set k | 0 < k < |p| && p[k] == '/' :: p[..k]
  }

  lemma AncestorsOfAncestor(p: string, a: string)
    requires a in Ancestors(p)
    ensures Ancestors(a) <= Ancestors(p)
  {
    var k :| 0 < k < |p| && p[k] == '/' && a == p[..k];
    forall b | b in Ancestors(a) ensures b in Ancestors(p) {
      var j :| 0 < j < |a| && a[j] == '/' && b == a[..j];
      assert p[j] == '/' && b == p[..j];
    }
  }

  /** `c` is an immediate sub-directory of `d`: `d/<name>` with a non-empty
      name that holds no '/'. */
  predicate IsChildDir(d: string, c: string) {
    |c| > |d| + 1 && c[..|d| + 1] == d + "/" && '/' !in c[|d| + 1..]
  }

  class Disk {
    var files: map<string, Blob>
    var dirs: set<string>

    /** Every file and directory sits in directories that exist, as on a
        local disk where writing a file creates its parents. */
    ghost predicate Valid()
      reads this
    {
      && (forall f :: f in files ==> Ancestors(f) <= dirs)
      && (forall d :: d in dirs ==> Ancestors(d) <= dirs)
    }

    constructor ()
      ensures Valid() && files == map[] && dirs == {}
    {
      files := map[];
      dirs := {};
    }

    /** `Storage::exists($p)`: a file or a directory. */
    predicate Exists(p: string)
      reads this
    {
      p in files || p in dirs
    }

    /** Every path `exists` answers true for. */
    function Paths(): (r: set<string>)
      reads this
      ensures forall p :: p in r <==> Exists(p)
    {
      files.Keys + dirs
    }

    /** `Storage::directories($d)`: the immediate sub-directories of `d`. */
    function Directories(d: string): (r: set<string>)
      reads this
      ensures forall c :: c in r <==> c in dirs && IsChildDir(d, c)
    {
      set c | c in dirs && IsChildDir(d, c)
    }

    /** `Storage::put` / `storeAs` and a GD encoder writing a file: the file
        is replaced and its parent directories are created. */
    method Put(p: string, b: Blob)
      requires Valid()
      modifies this
      ensures Valid()
      ensures files == old(files)[p := b] && dirs == old(dirs) + Ancestors(p)
    {
      forall a | a in Ancestors(p) ensures Ancestors(a) <= Ancestors(p) {
        AncestorsOfAncestor(p, a);
      }
      files := files[p := b];
      dirs := dirs + Ancestors(p);
    }

    /** `Storage::delete($p)`: removes a file; a missing path or a directory
        is left as it is. */
    method Delete(p: string)
      requires Valid()
      modifies this
      ensures Valid()
      ensures files == old(files) - {p} && dirs == old(dirs)
    {
      files := files - {p};
    }

    /** `Storage::makeDirectory($d)` and `mkdir($d, 0755, true)`: creates `d`
        and its ancestors. */
    method MakeDirectory(d: string)
      requires Valid()
      modifies this
      ensures Valid()
      ensures files == old(files) && dirs == old(dirs) + Ancestors(d) + {d}
    {
      forall a | a in Ancestors(d) ensures Ancestors(a) <= Ancestors(d) {
        AncestorsOfAncestor(d, a);
      }
      dirs := dirs + Ancestors(d) + {d};
    }
  }
}
