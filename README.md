# laravel-dropzone-enhanced in Dafny

This project models the core of laravel-dropzone-enhanced, a Laravel package that adds a
Dropzone.js upload area and a photo manager to any Eloquent model. The model covers these parts:

- **Photos and their thumbnails.** The `photos` table belongs to an owning record (the
  `photoable` pair). Each photo has the path and URL it is served under. A thumbnail URL is
  resolved by a four-way decision: thumbnails disabled, a stored file, the Glide route, or the
  original image.
- **Deleting.** Removing a photo removes the original, its thumbnail in every size directory,
  and its row.
- **The `HasPhotos` trait.** It gives an owner's photos in `sort_order`, its main photo and
  that photo's URLs, moving the main flag, and wiping the owner's photos when the owner is
  deleted.
- **`ImageProcessor::generateThumbnail`.** This covers the crop-to-fill rectangle, the choice
  of output MIME type, the PNG compression level, and the pipeline of early returns around the
  GD calls.
- **The `DropzoneController` endpoints.** These are `upload` (with `processImage`), `destroy`,
  `setMain`, `checkIsMain` and `reorder`.
- **The upload area's client script.** This covers `parseInt`/`parseFloat`, `parseDimensions`,
  the `maxFiles`/`maxFilesize` NaN fallbacks, the pre-resize rule and the fields added to every
  upload.
- **The photo manager's script and template.** This covers locale normalisation, the filters,
  `applyLocaleStyles`, order numbering after a drag, and lightbox navigation.

The modules follow the program's files:

| module (file) | what it models |
|---|---|
| `Php` (common.dfy) | PHP values: `Option`, a call that returns or throws (`Call`), truthiness and `empty()` |
| `Text` (text.dfy) | `explode`/`split` on one character, `implode`, ASCII case mapping, decimal numerals, `dirname`/`basename`/extension |
| `Storage` (storage.dfy) | the Laravel disk, as a class holding a map of files and a set of directories |
| `ImageProcessor` (image_processor.dfy) | `ImageProcessor.php` |
| `Photos` (photo.dfy) | `Photo.php`, and the photos table as a class |
| `HasPhotosTrait` (has_photos.dfy) | `HasPhotos.php` |
| `DropzoneController` (dropzone_controller.dfy) | `DropzoneController.php` |
| `UploadArea` (area.dfy) | the script in `area.blade.php` |
| `PhotoManager` (photo_manager.dfy) | the template and script in `photo-manager.blade.php` |

State that the source changes in place is kept as objects:

- the disk (`Storage.Disk`);
- the table (`Photos.PhotoTable`);
- the GD canvas (`ImageProcessor.Canvas`);
- the filter buttons and sections (`PhotoManager.Filters`, which holds two arrays);
- a photo tile (`PhotoManager.PhotoItem`);
- a grid's `data-sort-order` values (`PhotoManager.Grid`, an array);
- the lightbox (`PhotoManager.Lightbox`).

Each method states its whole new state. Each method is tied to a function that specifies it,
and the properties are proved about that function.

The following are parameters of the model:

- what `Storage::exists` answers;
- `class_exists` for the Glide add-on;
- `function_exists('imagewebp')` and the GD codecs that are compiled in;
- what `getimagesize` reports;
- the string `Str::uuid()` returns;
- the `softDeletes`/`isForceDeleting` state of a deleted owner;
- the `config('dropzone.*')` values (`Photos.Config`, with the shipped defaults as `Photos.Defaults`).

PHP errors that escape are modelled as `Call.Throws`:

- a `DivisionByZeroError`;
- the `ValueError` of `imagecreatetruecolor` for a non-positive size;
- the undefined-key warning that Laravel turns into an `ErrorException` (`UndefinedKey`);
- the warning for indexing `false`, the value of a failed `getimagesize`, turned into an `ErrorException` the same way (`OffsetOnBool`);
- a failed validation;
- a `findOrFail` miss (`NotFound`);
- a static call on a `photoable_type` that names no class, a PHP `Error` answered with status 500 (`ClassNotFound`).

## Model

| member | source | states |
|---|---|---|
| ImageProcessor.ExplicitFormatWins | src/Services/ImageProcessor.php:42-43 | A truthy output format decides the MIME whatever the path and source MIME are: "jpg" gives image/jpeg, and any other string f gives "image/" + f, unvalidated |
| ImageProcessor.FalsyFormatIsIgnored | src/Services/ImageProcessor.php:42-44 | A format of "" or "0" (falsy in PHP) is treated as no format |
| ImageProcessor.ExtensionSelectsMime | src/Services/ImageProcessor.php:44-53 | With no format, a destination dir/stem.ext whose lower-cased extension is jpg/jpeg/png/gif/webp selects that extension's MIME, which is one of the four supported types |
| ImageProcessor.KnownExtensionMime | src/Services/ImageProcessor.php:44-53 | The same for any path whose lower-cased extension is known |
| ImageProcessor.MimeOfKnownExtension | src/Services/ImageProcessor.php:47-53 | The extension `match` maps jpg and jpeg to image/jpeg and png, gif and webp to image/<ext> |
| ImageProcessor.UnknownExtensionKeepsSource | src/Services/ImageProcessor.php:52 | Any other extension falls back to the source MIME |
| ImageProcessor.OutputMimeSupported | src/Services/ImageProcessor.php:42-54 | Without an explicit format, a supported source MIME always leads to a supported output MIME |
| ImageProcessor.OutputMime | src/Services/ImageProcessor.php:42-54 | The result is an image/ type or the source MIME. Each branch is stated by ExplicitFormatWins, FalsyFormatIsIgnored, ExtensionSelectsMime, UnknownExtensionKeepsSource and OutputMimeSupported |
| ImageProcessor.ExtensionOfJoin | src/Services/ImageProcessor.php:46 | `pathinfo(PATHINFO_EXTENSION)` of dir/stem.ext is ext |
| ImageProcessor.CropIsCentredCover | src/Services/ImageProcessor.php:63-78 | For positive sizes the crop lies inside the source and is centred (2x + w = source width, 2y + h = source height). One axis is kept whole, and the crop has the target aspect ratio |
| ImageProcessor.CropIsLargest | src/Services/ImageProcessor.php:63-78 | No rectangle of the target ratio that fits in the source is wider or taller than the crop |
| ImageProcessor.CropOfEqualRatios | src/Services/ImageProcessor.php:70-77 | When the ratios are equal, the else branch keeps the full source |
| ImageProcessor.CropLandscapeToSquare | src/Services/ImageProcessor.php:63-78 | A 1600x1000 source cropped for 400x400 gives the 1000x1000 square at x = 300 |
| ImageProcessor.CropToFill | src/Services/ImageProcessor.php:63-78 | No contract of its own. CropIsCentredCover, CropIsLargest and CropOfEqualRatios state that it is the largest centred crop of the target ratio |
| ImageProcessor.PngLevelIsFloor | src/Services/ImageProcessor.php:159 | The integer level 9 - (9q) div 100 equals the source's 9 - floor(q/100 * 9) |
| ImageProcessor.PngLevelRange | src/Services/ImageProcessor.php:159 | For q in [0,100] the level lies in [0,9] and does not increase as q grows; q = 100 gives 0 and q = 0 gives 9 |
| ImageProcessor.PngLevel | src/Services/ImageProcessor.php:159 | No contract of its own. PngLevelIsFloor ties it to the source's formula, and PngLevelRange bounds it to 0..9 |
| ImageProcessor.CodecsAreTheSupportedFour | src/Services/ImageProcessor.php:133-168 | There is a decoder exactly for the four supported MIME types, and an encoder likewise; webp needs imagewebp/imagecreatefromwebp. png encodes at PngLevel(q), and gif ignores the quality |
| ImageProcessor.Canvas.constructor | src/Services/ImageProcessor.php:81 | `imagecreatetruecolor(w, h)` is a w x h canvas with alpha blending on, nothing saved, nothing filled and nothing drawn |
| ImageProcessor.Canvas.PreserveTransparency | src/Services/ImageProcessor.php:84-89 | Blending goes off, alpha is saved and the canvas is filled transparent; the size and the drawing are unchanged |
| ImageProcessor.Canvas.CopyResampled | src/Services/ImageProcessor.php:92-103 | The resample from the crop rectangle is recorded; every other field is unchanged |
| ImageProcessor.StageOf | src/Services/ImageProcessor.php:21-78 | A pipeline that gets as far as encoding has a positive source height and a positive target size |
| ImageProcessor.GenerateThumbnail | src/Services/ImageProcessor.php:21-128 | Four outcomes. (1) It returns false with the disk unchanged when the source is missing, the probe fails, or the MIME has no decoder. (2) It throws DivisionByZero when either height is 0, or when both widths are 0 (the ratio it divides by is then 0). (3) It throws ValueError when `imagecreatetruecolor` is given a size that is not positive. (4) Otherwise it makes the thumbnail's directory unless that is the disk root, writes the width x height rendition of the crop, pre-filled transparent exactly for png/gif/webp, and returns whether the encoder succeeded |
| Storage.Ancestors | src/Http/Controllers/DropzoneController.php:43 | Every parent directory of a stored path is a proper prefix of it |
| Storage.AncestorsOfAncestor | src/Http/Controllers/DropzoneController.php:43 | The parents of a parent directory are themselves parents of the path, so the set of directories stays closed under parents |
| Storage.Disk.Paths | src/Models/Photo.php:113 | What `exists` answers true for: every stored file and every directory |
| Storage.Disk.Directories | src/Models/Photo.php:147 | `directories(d)` is exactly the directories that are immediate children of d |
| Storage.Disk.Put | src/Http/Controllers/DropzoneController.php:43 | `storeAs` stores the file and creates its parent directories |
| Storage.Disk.Delete | src/Models/Photo.php:138 | `delete` removes exactly that file; deleting an absent path changes nothing |
| Storage.Disk.MakeDirectory | src/Http/Controllers/DropzoneController.php:220 | `makeDirectory` adds the directory and its parents and leaves the files alone |
| Photos.PathSplitsBack | src/Models/Photo.php:92-95 | When the directory has no trailing slash and the file name has no slash, dirname and basename of the path give the directory and the file name back |
| Photos.Path | src/Models/Photo.php:92-95 | No contract of its own. PathSplitsBack states that dirname and basename of getPath give the directory and the file name back |
| Photos.Url | src/Models/Photo.php:81-85 | No contract of its own. getUrl is the link that DisabledThumbnailIsOriginal and HasPhotosTrait.MainPhotoUrlIgnoresArguments state is served |
| Photos.DisabledThumbnailIsOriginal | src/Models/Photo.php:105-107 | With thumbnails disabled, getThumbnailUrl is getUrl whatever the dimensions and the disk are |
| Photos.ThumbnailUrlDecision | src/Models/Photo.php:109-127 | Missing dimensions use the configured size. There are four outcomes, each tied to its condition: a stored thumbnail gives "/storage/" + its path; with Glide and an 'x' in the dimensions, the image route; with Glide and no 'x', an undefined-key error; otherwise getUrl |
| Photos.GlideRouteDimensions | src/Models/Photo.php:118-124 | With Glide and no stored thumbnail, "WxH" becomes the route's path, w = W and h = H |
| Photos.ThumbnailUrl | src/Models/Photo.php:103-128 | No contract of its own. Its four outcomes are stated by ThumbnailUrlDecision, DisabledThumbnailIsOriginal and GlideRouteDimensions |
| Photos.ThumbnailPathIsNotPath | src/Models/Photo.php:110 | A thumbnail path never equals the original's path |
| Photos.Find | src/Http/Controllers/DropzoneController.php:92 | `findOrFail`: the row found has the id, and no row has the id when none is found |
| Photos.Without | src/Models/Photo.php:157 | The rows left after deleting one are exactly the rows with another id |
| Photos.WithoutKeepsInvariants | src/Models/Photo.php:157 | Deleting a row keeps ids unique, and keeps at most one main photo per owner |
| Photos.PhotoTable.constructor | database/migrations/2025_12_17_000000_create_photos_table.php:14-32 | An empty table satisfies the invariants |
| Photos.PhotoTable.DeleteRow | src/Models/Photo.php:157 | The row with the id goes, and the invariants are kept |
| Photos.DeleteRemovesExactly | src/Models/Photo.php:135-158 | A file is gone after deletePhoto exactly when it is the original, or, with thumbnails on and the thumbnails directory present, `<dimDir>/<filename>` for an immediate child dimDir. Every other file keeps its contents |
| Photos.DisabledDeleteRemovesOriginalOnly | src/Models/Photo.php:138-141 | With thumbnails disabled, only the original is removed |
| Photos.DeleteIsIdempotent | src/Models/Photo.php:138-153 | Deleting the files a second time changes nothing |
| Photos.FilesAfterDelete | src/Models/Photo.php:135-158 | The original is never left, and every file that is left is a file of the disk with its old contents. DeleteRemovesExactly says which files go, and DeleteIsIdempotent that a second delete changes nothing |
| Photos.DeletePhoto | src/Models/Photo.php:135-158 | The disk becomes FilesAfterDelete (directories unchanged), the row goes, and the result is true |
| HasPhotosTrait.Owned | src/Traits/HasPhotos.php:15-18 | The morph relation holds exactly the owner's rows, each as often as in the table |
| HasPhotosTrait.Insert | src/Traits/HasPhotos.php:18 | Inserting into a list sorted by sort_order keeps it sorted and adds exactly that row |
| HasPhotosTrait.SortByOrder | src/Traits/HasPhotos.php:18 | `orderBy('sort_order')` gives a sorted permutation |
| HasPhotosTrait.PhotosOfMembers | src/Traits/HasPhotos.php:15-19 | `photos` is sorted by sort_order and holds exactly the owner's rows |
| HasPhotosTrait.PhotosOfCounts | src/Traits/HasPhotos.php:15-19 | Each of the owner's rows appears in `photos` as often as in the table |
| HasPhotosTrait.PhotosOf | src/Traits/HasPhotos.php:15-19 | No contract of its own. PhotosOfMembers and PhotosOfCounts state that it is the owner's rows, each as often as in the table, in sort_order |
| HasPhotosTrait.FirstMain | src/Traits/HasPhotos.php:28 | `where('is_main', true)->first()` returns the first photo of the list that is flagged main: it is flagged, and no earlier photo is. It returns null exactly when no photo is main |
| HasPhotosTrait.MainPhotoChoice | src/Traits/HasPhotos.php:26-29 | mainPhoto is null exactly when the owner has no photo. When some photo is flagged main, it is the first flagged photo in sort_order order, even if several are flagged. Otherwise it is the first photo, one with the smallest sort_order |
| HasPhotosTrait.MainPhotoIsTheFlaggedOne | src/Traits/HasPhotos.php:26-29 | Under the one-main invariant, the flagged photo is the main photo |
| HasPhotosTrait.MainPhoto | src/Traits/HasPhotos.php:26-29 | No contract of its own. MainPhotoChoice and MainPhotoIsTheFlaggedOne state which photo it is |
| HasPhotosTrait.MainPhotoUrl | src/Traits/HasPhotos.php:36-39 | There is a URL exactly when there is a main photo |
| HasPhotosTrait.MainPhotoUrlIgnoresArguments | src/Traits/HasPhotos.php:36-39 | The dimensions, format and quality arguments make no difference; the result is the main photo's getUrl |
| HasPhotosTrait.DisabledMainThumbnailIsMainUrl | src/Traits/HasPhotos.php:47-50 | With thumbnails disabled, getMainPhotoThumbnailUrl is getMainPhotoUrl as a plain link, and null exactly when that is null |
| HasPhotosTrait.StoredMainThumbnailIsServed | src/Traits/HasPhotos.php:47-50 | A main photo whose thumbnail file for d is stored is given "/storage/" + that thumbnail path |
| HasPhotosTrait.MainPhotoThumbnailUrl | src/Traits/HasPhotos.php:47-50 | There is a URL exactly when there is a main photo, and it is that photo's getThumbnailUrl. DisabledMainThumbnailIsMainUrl and StoredMainThumbnailIsServed spell out two cases |
| HasPhotosTrait.HasPhotosIff | src/Traits/HasPhotos.php:72-75 | hasPhotos is true exactly when the owner has a row, that is, exactly when mainPhoto is not null |
| HasPhotosTrait.HasPhotos | src/Traits/HasPhotos.php:72-75 | No contract of its own. HasPhotosIff states that it is true exactly when the owner has a row |
| HasPhotosTrait.ClearMain | src/Traits/HasPhotos.php:60-61 | Every row keeps its id and owner, and none of the owner's rows is main afterwards |
| HasPhotosTrait.SetMainRowsShape | src/Traits/HasPhotos.php:58-65 | Only is_main changes. Other owners' rows are untouched, and an owner's row is main exactly when it has the chosen id |
| HasPhotosTrait.SetMainRowsKeepInvariants | src/Traits/HasPhotos.php:58-65 | The two bulk updates keep ids unique and at most one main photo per owner |
| HasPhotosTrait.SetMainRowsChoosesPhoto | src/Traits/HasPhotos.php:58-65 | After setMainPhoto(id) on one of the owner's photos, that photo is the owner's mainPhoto |
| HasPhotosTrait.SetMainPhoto | src/Traits/HasPhotos.php:58-65 | The table becomes the two bulk updates, and the result is true exactly when the owner has a photo with that id |
| HasPhotosTrait.DeleteAllRemovesOriginals | src/Traits/HasPhotos.php:82-89 | Deleting a list of photos removes each original and only ever removes files |
| HasPhotosTrait.RowsAfterDeleteAllSpec | src/Traits/HasPhotos.php:82-89 | The rows left are exactly those whose id is not one of the deleted photos' ids |
| HasPhotosTrait.DeleteAllLeavesOthers | src/Traits/HasPhotos.php:82-89 | After deleteAllPhotos the owner has no photos, and every other owner's rows remain |
| HasPhotosTrait.DeleteAllPhotos | src/Traits/HasPhotos.php:82-89 | The loop calls deletePhoto on each of the owner's photos in order; the disk and table end as the fold of deletePhoto |
| HasPhotosTrait.OwnerDeleting | src/Traits/HasPhotos.php:96-106 | The deleting hook does nothing on a soft delete that is not forced, and otherwise deletes all the owner's photos |
| DropzoneController.ProcessThumbnailPathIsPhotoThumbnail | src/Http/Controllers/DropzoneController.php:215-217 | The path processImage writes a thumbnail to is the path getThumbnailUrl checks (src/Models/Photo.php:110), when the directory has no trailing slash and the file name has no slash |
| DropzoneController.ProcessImageSkips | src/Http/Controllers/DropzoneController.php:190-195 | Empty dimensions, or no Glide, leave the disk unchanged |
| DropzoneController.ProcessImageThrowsIff | src/Http/Controllers/DropzoneController.php:187-232 | processImage fails, with an undefined key, exactly when Glide is present, the dimensions are not empty, and a string it splits has no 'x': the dimensions when pre-resizing, the thumbnail size when thumbnails are on |
| DropzoneController.ProcessImageWritesOnlyItsPaths | src/Http/Controllers/DropzoneController.php:187-232 | Only the stored path and its thumbnail path are written; every other file keeps its contents, and no directory goes |
| DropzoneController.PreResizeKeeps | src/Http/Controllers/DropzoneController.php:197-208 | The pre-resize touches only the stored path |
| DropzoneController.ThumbnailWriteKeeps | src/Http/Controllers/DropzoneController.php:211-230 | The thumbnail step touches only the thumbnail path |
| DropzoneController.ProcessedThumbnailIsServed | src/Http/Controllers/DropzoneController.php:211-230 | After a successful processImage with thumbnails on, the crop rendition is at the thumbnail path, and getThumbnailUrl() serves it as "/storage/" + that path |
| DropzoneController.ProcessImage | src/Http/Controllers/DropzoneController.php:187-232 | The imperative steps end in the outcome and the disk that ProcessImageSpec gives |
| DropzoneController.ProcessImageSpec | src/Http/Controllers/DropzoneController.php:187-232 | No contract of its own. ProcessImageSkips, ProcessImageThrowsIff, ProcessImageWritesOnlyItsPaths and ProcessedThumbnailIsServed state what it does |
| DropzoneController.NewRecord | src/Http/Controllers/DropzoneController.php:55-73 | The new row has the given id and the request's owner. It is main exactly when the owner had no photo, and its sort_order is one more than the owner's number of photos |
| DropzoneController.NewRecordKeepsInvariants | src/Http/Controllers/DropzoneController.php:55-73 | The new row has a fresh id and is main only when its owner had no photo (count == 0), so the invariants hold after the insert |
| DropzoneController.UploadKeepsOrSetsMain | src/Http/Controllers/DropzoneController.php:67-72 | An owner's first upload becomes its main photo, and a later upload leaves an existing main photo as main |
| DropzoneController.Upload | src/Http/Controllers/DropzoneController.php:19-81 | A failed validation changes nothing. Otherwise the file is stored as `<uuid>.<ext>` under the directory and then processed. A processing error, or a failed getimagesize, throws and leaves the stored files with no row. Otherwise one row is appended, with sort_order = count + 1 and is_main = (count == 0), and the answer carries getUrl and getThumbnailUrl |
| DropzoneController.Destroy | src/Http/Controllers/DropzoneController.php:90-105 | A missing photo is NotFound. A photoable_type that is not one of the loadable classes throws ClassNotFound, the `Error` of `$modelClass::findOrFail`. A missing owner record is NotFound. All three change nothing. Otherwise it runs deletePhoto and returns success |
| DropzoneController.DestroyRemovesOnlyThatRow | src/Http/Controllers/DropzoneController.php:90-105 | Afterwards no row has the id, and every other row remains |
| DropzoneController.FoundOwner | src/Http/Controllers/DropzoneController.php:116 | With unique ids, every row with the id is the one found |
| DropzoneController.SetMainAgreesWithTrait | src/Http/Controllers/DropzoneController.php:128-133 | Setting a non-main photo main clears and marks exactly as the trait's setMainPhoto does |
| DropzoneController.SetMainKeepsInvariants | src/Http/Controllers/DropzoneController.php:114-138 | setMain keeps ids unique and at most one main photo per owner |
| DropzoneController.CheckIsMain | src/Http/Controllers/DropzoneController.php:147-154 | It throws exactly when no row has the id |
| DropzoneController.SetMainToggles | src/Http/Controllers/DropzoneController.php:119-154 | After setMain, checkIsMain reports the opposite of the old flag. Calling setMain twice on a non-main photo leaves its owner with no main photo |
| DropzoneController.SetMain | src/Http/Controllers/DropzoneController.php:114-138 | A missing id is NotFound with nothing changed; otherwise the rows become SetMainRows and the answer is success |
| DropzoneController.SetMainRows | src/Http/Controllers/DropzoneController.php:114-138 | No contract of its own. SetMainAgreesWithTrait, SetMainKeepsInvariants and SetMainToggles state what it does |
| DropzoneController.ApplyOrdersSpec | src/Http/Controllers/DropzoneController.php:170-172 | Each row's sort_order becomes the order of the last item that names its id, or stays as it was; nothing else changes |
| DropzoneController.ReorderByPosition | src/Http/Controllers/DropzoneController.php:170-172 | For distinct ids numbered by position, the row with the i-th id gets order i + 1; unlisted rows are unchanged |
| DropzoneController.ApplyOrdersKeepsInvariants | src/Http/Controllers/DropzoneController.php:170-172 | Reordering keeps every row's id, unique ids, and at most one main photo per owner |
| DropzoneController.ApplyOrders | src/Http/Controllers/DropzoneController.php:170-172 | It keeps the number of rows. ApplyOrdersSpec, ReorderByPosition and ApplyOrdersKeepsInvariants state the new orders |
| DropzoneController.Reorder | src/Http/Controllers/DropzoneController.php:162-177 | An invalid request changes nothing; otherwise the loop's result is ApplyOrders, and the answer is success |
| UploadArea.TrimStart | resources/views/components/area.blade.php:80 | parseInt's leading white space is removed: the result is a suffix that does not start with white space, and every character dropped is white space |
| UploadArea.ParseIntNaNIff | resources/views/components/area.blade.php:80 | parseInt is NaN exactly when no digit follows the white space and the sign |
| UploadArea.ParseIntShow | resources/views/components/area.blade.php:80 | A decimal numeral followed by a non-digit parses back to its value |
| UploadArea.ParseIntShowNegative | resources/views/components/area.blade.php:80 | The same after a minus sign, giving the negated value |
| UploadArea.ParseIntSkipsSpace | resources/views/components/area.blade.php:80 | A leading white-space character makes no difference to parseInt |
| UploadArea.ParseInt | resources/views/components/area.blade.php:80 | No contract of its own. ParseIntNaNIff, ParseIntShow, ParseIntShowNegative and ParseIntSkipsSpace state what it reads |
| UploadArea.ParseFloatNaNIff | resources/views/components/area.blade.php:95 | parseFloat is NaN exactly when after the white space and sign there is neither "Infinity", nor a digit, nor a '.' followed by a digit |
| UploadArea.ParseFloatShow | resources/views/components/area.blade.php:95 | A decimal integer is read as its value |
| UploadArea.ParseFloat | resources/views/components/area.blade.php:95 | No contract of its own. ParseFloatNaNIff and ParseFloatShow state what it reads |
| UploadArea.ParseDimensionsCases | resources/views/components/area.blade.php:75-85 | The result is either the 1920x1080 fallback or the parseInt values of the two parts of an input that splits on 'x' into exactly two. A split into any other number of parts, or a part that parses to NaN, gives the fallback |
| UploadArea.ParseDimensionsShow | resources/views/components/area.blade.php:75-85 | "WxH" written in decimal parses to W x H |
| UploadArea.ParseDimensionsFallbacks | resources/views/components/area.blade.php:76-83 | An undefined or empty value, "1920X1080" and "1x2x3" all give the fallback |
| UploadArea.ParseDimensionsSkipsSpace | resources/views/components/area.blade.php:80-84 | parseInt skips leading space, so "800x 600" gives 800 x 600 |
| UploadArea.ParseDimensions | resources/views/components/area.blade.php:75-85 | No contract of its own. ParseDimensionsCases, ParseDimensionsShow, ParseDimensionsFallbacks and ParseDimensionsSkipsSpace state its results |
| UploadArea.MaxFilesOfNumeral | resources/views/components/area.blade.php:94-103 | A data-max-files of a decimal numeral, followed by nothing or by text not starting with a digit ("5", "5 files"), is that number |
| UploadArea.MaxFilesOfNegativeNumeral | resources/views/components/area.blade.php:94-103 | A negative numeral is used as it is, without clamping |
| UploadArea.MaxFiles | resources/views/components/area.blade.php:94-103 | A NaN from parseInt gives 10, and any parsed integer is the limit as it is. MaxFilesOfNumeral and MaxFilesOfNegativeNumeral spell this out for numerals |
| UploadArea.MaxFilesizeOfNumeral | resources/views/components/area.blade.php:95-104 | A data-max-filesize of a decimal integer is that many megabytes |
| UploadArea.MaxFilesize | resources/views/components/area.blade.php:95-104 | The limit is never NaN. A NaN from parseFloat becomes 10, and any other parse ("5.12", Infinity) is the limit as it is |
| UploadArea.LimitsDefaultToTen | resources/views/components/area.blade.php:94-104 | Missing or empty attributes give 10 for both limits |
| UploadArea.LimitsIgnoreNonNumbers | resources/views/components/area.blade.php:94-104 | Attributes that are words starting with a lower-case letter also give 10 for both limits |
| UploadArea.AreaOptions | resources/views/components/area.blade.php:94-104 | maxFilesize is never NaN; preResize and reloadOnSuccess are on exactly for the attribute value "true" |
| UploadArea.JsDivide | resources/views/components/area.blade.php:215 | JavaScript division: the exact quotient, or, for a zero divisor, NaN exactly when the dividend is also 0 |
| UploadArea.Round | resources/views/components/area.blade.php:220-221 | Math.round lies within one half of its argument |
| UploadArea.AtLeastOneOfDivide | resources/views/components/area.blade.php:215-216 | target/natural >= 1 exactly when natural <= target, except for 0/0 |
| UploadArea.AtLeastOneOfMin | resources/views/components/area.blade.php:215-216 | Math.min(a, b) >= 1 exactly when both are >= 1, NaN included |
| UploadArea.PassThroughIff | resources/views/components/area.blade.php:215-216 | The file passes unchanged exactly when its natural size fits the target (with 0/0 counted as not fitting) |
| UploadArea.RedrawKeepsType | resources/views/components/area.blade.php:226-231 | A redraw keeps the file's type, and passes a quality exactly when the type is not PNG |
| UploadArea.RedrawFitsTarget | resources/views/components/area.blade.php:215-228 | For positive sizes that do not fit, the canvas is finite and within both the target and the natural size, and one side equals the target |
| UploadArea.RedrawOfRatio | resources/views/components/area.blade.php:220-221 | The canvas sides are the rounded natural sides times the ratio |
| UploadArea.TransformFile | resources/views/components/area.blade.php:209-233 | No contract of its own. PassThroughIff, RedrawKeepsType, RedrawFitsTarget and RedrawOfRatio state its result |
| UploadArea.SendingFieldsDefaults | resources/views/components/area.blade.php:117-131 | A non-empty dimensions field is always sent ("1920x1080" by default). keep_original_name is "1" or "0". locale is sent exactly when it is non-empty, with its value |
| UploadArea.SentDimensionsSkipOnlyForZero | resources/views/components/area.blade.php:123 | Of the dimension strings the client sends, only "0" makes the server skip processImage (its `empty()` test at DropzoneController.php:190) |
| UploadArea.ModelIdText | resources/views/components/area.blade.php:118-119 | The id sent is "NaN" exactly when parseInt finds no integer in the attribute, and otherwise a numeral that parseInt reads back as the same integer |
| UploadArea.ShowIntReadsBack | resources/views/components/area.blade.php:119 | `String` of an integer is never "NaN", and parseInt reads it back as that integer |
| UploadArea.ModelIdOfNumeral | resources/views/components/area.blade.php:119 | A saved model's id, written in decimal into data-model-id (line 18), is sent unchanged |
| UploadArea.ModelIdOfUnsaved | resources/views/components/area.blade.php:119 | An unsaved model renders an empty data-model-id (line 18), which is sent as "NaN"; so is a missing attribute |
| UploadArea.SendingFieldsOwner | resources/views/components/area.blade.php:117-121 | The model_id field carries ModelIdText of the attribute; model_type and directory carry the attributes as they are, "undefined" when absent |
| UploadArea.SendingFields | resources/views/components/area.blade.php:117-131 | No contract of its own. SendingFieldsOwner states the model_id, model_type and directory fields, and SendingFieldsDefaults and SentDimensionsSkipOnlyForZero state dimensions, keep_original_name and locale |
| PhotoManager.KeyForData | resources/views/components/photo-manager.blade.php:7-8 | key_for_data is '' exactly for a null key or the empty string key; an integer key, 0 included, never gives '' |
| PhotoManager.NormalizeLocaleDefaults | resources/views/components/photo-manager.blade.php:6-21 | A given field is kept. Otherwise: the label is key_for_data, or the generic label when that is empty; the colour is blue for es, purple for en, gray otherwise; the badge is the upper-cased key, or GEN when the key is empty |
| PhotoManager.NormalizeLocale | resources/views/components/photo-manager.blade.php:6-21 | No contract of its own. NormalizeLocaleDefaults states each field |
| PhotoManager.IntegerKeyIsDecimal | resources/views/components/photo-manager.blade.php:8 | Two instances: the key 7 gives "7" and the key -3 gives "-3". The general statement is IntegerKeyReadsBack |
| PhotoManager.IntegerKeyReadsBack | resources/views/components/photo-manager.blade.php:8 | An integer key's key_for_data reads back to it: a '-' exactly for a negative key, then the decimal digits of its magnitude |
| PhotoManager.DefaultLocaleKey | resources/views/components/photo-manager.blade.php:23 | The key is 'all' exactly when no default is given or the default is the string 'all', so the two cannot be told apart; an integer default never gives 'all' |
| PhotoManager.LocalesForJs | resources/views/components/photo-manager.blade.php:32-41 | Every key of the map comes from some locale |
| PhotoManager.LocalesForJsLastWins | resources/views/components/photo-manager.blade.php:32-41 | For keys that repeat, the last locale's entry wins |
| PhotoManager.Filters.constructor | resources/views/components/photo-manager.blade.php:66-100 | The rendered filters: one flag per button and per section. Only the first button, the "all" pill, starts active; every section and the tip start shown |
| PhotoManager.Filters.SetFilter | resources/views/components/photo-manager.blade.php:547-559 | Afterwards exactly the buttons whose key equals the filter are active. Every section is shown for 'all', and otherwise only the sections with that key. The tip is shown exactly for 'all' |
| PhotoManager.SelectedAllOrOne | resources/views/components/photo-manager.blade.php:547-559 | The selection spelled out: everything and the tip for 'all'; the matching sections and no tip for any other key |
| PhotoManager.InitialFilter | resources/views/components/photo-manager.blade.php:561-562 | The first filter is never empty. It is the default locale key when that is not empty, and 'all' when it is |
| PhotoManager.InitialFilterOfEmpty | resources/views/components/photo-manager.blade.php:561-562 | No default and an empty default both start at 'all'; "es" starts at "es" |
| PhotoManager.OpenManager | resources/views/components/photo-manager.blade.php:561-562 | A freshly opened manager has the initial filter selected |
| PhotoManager.PhotoItem.ApplyLocaleStyles | resources/views/components/photo-manager.blade.php:570-589 | The tile takes the locale's colour class in place of the built-in colour classes and loses is-main. An existing badge gets the locale's badge, an existing main button becomes inactive, and data-locale is set |
| PhotoManager.UnknownLocaleIsGeneric | resources/views/components/photo-manager.blade.php:572-574 | An unknown locale is styled gray with the badge GEN |
| PhotoManager.StyleFor | resources/views/components/photo-manager.blade.php:571-577 | The colour and the badge are never empty, and an unknown locale gets gray and GEN |
| PhotoManager.StyledItemIsNotMain | resources/views/components/photo-manager.blade.php:575-581 | A styled tile is never marked main and carries its colour class; a built-in colour is the only built-in colour class left |
| PhotoManager.Grid.UpdatePhotoOrder | resources/views/components/photo-manager.blade.php:612-637 | An empty grid sends nothing and changes nothing. Otherwise the n tiles get data-sort-order 1..n in DOM order, and the request lists (id_i, i + 1) |
| PhotoManager.GridOrderReachesTheTable | resources/views/components/photo-manager.blade.php:612-637 | The numbering the grid sends makes the controller's reorder give the row of the i-th tile order i + 1, and leaves the other rows alone |
| PhotoManager.JsRemainder | resources/views/components/photo-manager.blade.php:828-836 | JavaScript `%` is NaN for NaN or a zero divisor, and otherwise agrees with the mathematical remainder on non-negative operands |
| PhotoManager.IndexOfUrl | resources/views/components/photo-manager.blade.php:727 | indexOf is the first position of the URL, or -1 exactly when it is absent |
| PhotoManager.StepsInverse | resources/views/components/photo-manager.blade.php:828-836 | For n > 0, next and previous stay in [0, n) and undo each other |
| PhotoManager.NextTimesIsShift | resources/views/components/photo-manager.blade.php:833-836 | k <= n steps forward move the index k places with wrap-around |
| PhotoManager.NextCycles | resources/views/components/photo-manager.blade.php:833-836 | n steps forward return to the start |
| PhotoManager.Next | resources/views/components/photo-manager.blade.php:833-836 | The index is a number exactly when the old one is and there is a URL. StepsInverse, NextTimesIsShift and NextCycles state where it moves |
| PhotoManager.Prev | resources/views/components/photo-manager.blade.php:828-831 | The index is a number exactly when the old one is and there is a URL. StepsInverse states that it undoes Next |
| PhotoManager.EmptyLightboxIndexIsNaN | resources/views/components/photo-manager.blade.php:828-836 | With no URLs, the index becomes NaN |
| PhotoManager.Lightbox.constructor | resources/views/components/photo-manager.blade.php:727 | The lightbox starts at the clicked URL's index, or at 0 when the URL is absent |
| PhotoManager.Lightbox.GoNext | resources/views/components/photo-manager.blade.php:833-836 | The index becomes Next of the old one and stays in range |
| PhotoManager.Lightbox.GoPrev | resources/views/components/photo-manager.blade.php:828-831 | The index becomes Prev of the old one and stays in range |
| Text.IndexOf | src/Models/Photo.php:121 | The first position of a character that occurs in the string |
| Text.Split | src/Models/Photo.php:121-122 | `explode` and JavaScript `split` on one character give at least one part, and no part holds the separator |
| Text.ToLower | src/Services/ImageProcessor.php:46 | `strtolower` maps every character by itself and keeps the length |
| Text.ToUpper | resources/views/components/photo-manager.blade.php:11 | `strtoupper` maps every character by itself and keeps the length |
| Text.DigitChar | resources/views/components/photo-manager.blade.php:8 | A digit value below 10 becomes the character that reads back as it |
| Text.Show | resources/views/components/photo-manager.blade.php:8 | The decimal numeral of a natural number is a non-empty string of digits |
| Text.DecimalShow | resources/views/components/photo-manager.blade.php:8 | Reading the numeral back gives the number |
| Text.TrimTrailingSlashesSpec | src/Http/Controllers/DropzoneController.php:215 | `dirname` first drops trailing slashes: the result is a prefix that does not end in '/', and only slashes were dropped |
| Text.AfterLastSpec | src/Http/Controllers/DropzoneController.php:216 | The text after the last separator is a suffix without the separator, preceded by the separator when it is not the whole string |
| Text.AfterLastOfJoin | src/Http/Controllers/DropzoneController.php:216 | The text after the last '/' of dir + "/" + name is name when name has no '/' |
| Text.JoinSplit | src/Models/Photo.php:121-122 | Joining the parts of an `explode` gives the string back |
| Text.SplitJoin | src/Models/Photo.php:121-122 | Exploding joined parts that have no separator gives the parts back |
| Text.SplitPair | src/Http/Controllers/DropzoneController.php:198 | "WxH" with no 'x' in W or H splits into exactly [W, H] |
| Text.DirnameBasenameJoin | src/Http/Controllers/DropzoneController.php:215-216 | dirname and basename of "dir/name" give dir and name back |
| Text.Dirname | src/Http/Controllers/DropzoneController.php:215 | No contract of its own. DirnameBasenameJoin and TrimTrailingSlashesSpec state what it gives |
| Text.Basename | src/Http/Controllers/DropzoneController.php:216 | The result holds no '/' and is a suffix of the path without its trailing slashes |
| Text.Extension | src/Services/ImageProcessor.php:46 | The result holds neither '.' nor '/'. ExtensionOfJoin states that dir/stem.ext gives ext |

## Left out

- The GD pixel work (`imagecreatefrom*`, `imagecopyresampled`, `imagecolorallocatealpha`, `imagefilledrectangle`, the encoders) is a foreign library. It is modelled as a canvas that records its size, its transparency settings and the resample call, plus a success flag for the encoder.
- ImageProcessor.CropToFill: the crop is computed in exact reals. GD truncates the fractional crop offsets and sizes to integers, and that truncation is not modelled.
- ImageProcessor.GenerateThumbnail: requires a quality in 0..100, the range the method's documentation gives. Outside that range GD's own checks on the PNG level and the JPEG/WebP quality are not modelled.
- The catch block of generateThumbnail (src/Services/ImageProcessor.php:121-127) catches `Exception` only. The `Error`s the model throws (DivisionByZero, ValueError) escape it, as in the code. An `Exception` raised inside GD is not modelled.
- UploadArea.ParseFloat: the value is an exact real, so double rounding, overflow to Infinity and the sign of zero are not modelled.
- UploadArea.ParseInt: the value is an exact integer. JavaScript's parseInt rounds values above 2^53 to a double and gives -0 for "-0", and neither is modelled.
- UploadArea.TransformFile: assigning a NaN or fractional size to the canvas is not modelled. The drawing and `toBlob` are browser I/O, so the model ends at the sizes and the type.
- Laravel validation is reduced to the rules that decide the outcome. These are `image`, the file `max` in kilobytes, and `required` strings. `model_id` being an `integer` is carried by its type, so the model cannot express a non-integer model id.
- The TrimStrings middleware, and Flysystem's path normalisation (for example of a doubled "/"), are not modelled: paths are compared as the strings the code builds.
- `route()`, `response()->json()`, the CSRF token and the DOM event wiring are framework plumbing. The Glide route is the value `Photos.Link.ImageRoute`, and an upload's answer is the value `Uploaded`.
- `Str::uuid()` is the parameter `uuid` of `DropzoneController.Upload`. What `getimagesize` reports is a field of the uploaded file.
- The Glide add-on is not part of this model. Its renditions are tagged values (`Blob.Resized` with the w, h, fit and q parameters), and serveImage (src/Http/Controllers/DropzoneController.php:241-253) is not modelled. The `dropzone.image` route that getThumbnailUrl names is not registered in routes/web.php. With Glide installed and no stored thumbnail, `route('dropzone.image', ...)` (src/Models/Photo.php:119) therefore throws a RouteNotFoundException unless the host application or the add-on registers that name. `Photos.Link.ImageRoute` stands for the URL of a route registered that way, and the exception is not modelled.
- The console commands, migrations other than the table's columns, the lang files, the service provider and scripts/build-assets.js are console I/O, schema or asset copying.
- The `updateLocale` endpoint, and `photosByLocale`/`photosGroupedByLocale`, are called or routed but have no code in these files. The model does not invent them. The `locale` column and the locale field an upload sends are therefore ignored, as `upload` ignores them.
- photos.blade.php, lightbox.blade.php and component.blade.php are left out. So are the CSS, Sortable, fetch, updateCounts, updateEmptyState, updatePhotoLocale, the counter text, the front-end setMainPhoto/deletePhoto calls and refreshPhotoManager. All of these are DOM or network wiring.
- The `disk` column is not modelled: every photo lives on one disk.
- HasPhotosTrait.MainPhoto, HasPhotosTrait.HasPhotosIff, HasPhotosTrait.SetMainRowsChoosesPhoto: the `photos` relation is read afresh from the table, as for an owner loaded after the change. Eloquent caches a loaded relation on the owner instance, and mainPhoto (src/Traits/HasPhotos.php:28) and deleteAllPhotos (line 84) read that cache, while setMainPhoto (lines 61, 64) and hasPhotos (line 74) query the table. On one instance that already loaded its photos, mainPhoto can therefore still return a photo that deleteAllPhotos removed, or the old main photo after setMainPhoto. That staleness is not modelled.
- HasPhotosTrait.SortByOrder: rows with equal sort_order keep their table order. The database's order for ties is unspecified, so the order of ties is not part of any property.
- Photos.DeletePhoto: Eloquent's `delete()` is modelled as always succeeding. A model event that cancels the delete is not modelled.
- DropzoneController.Reorder: the ids of the reorder request are integers. JSON strings that Laravel would coerce are not modelled.
- PhotoManager.KeyForData: locale keys are strings or integers. Other scalar types (floats, booleans) are not modelled.
- PhotoManager.LocalesForJs: the map is a plain dictionary. A lookup of a key such as "constructor" that would find a JavaScript prototype property is not modelled.
- PhotoManager.PhotoItem.ApplyLocaleStyles: it removes only the three built-in colour classes, as the code does. A custom colour class from an earlier style therefore stays on the tile. A colour containing white space makes `classList.add` throw an InvalidCharacterError (resources/views/components/photo-manager.blade.php:577); by then `data-locale` is set and the colour classes are removed, but the badge is not updated and `is-main` stays. The model does not throw: it always completes every step.
- The thumbnail canvas for JPEG output is not filled with white, because the code allocates none. The model follows the code: a plain `imagecreatetruecolor` canvas.
- Crop anchors other than the centre, variant caches, EXIF orientation and format-suffixed thumbnail directories have no code in these files.
