# Screenshotbot recorder — a Dafny model

The Screenshotbot recorder uploads a directory of screenshots to the Screenshotbot
server and records them as one run. This project models its core,
`core/src/main/kotlin/io/screenshotbot/sdk/Recorder.kt`, and proves the
properties the recorder promises.

- **Tile naming and fetch order** (`tiles.dfy`, module `Tiles`).
  - The first tile of an Android screenshot is `name.png`; every other tile is
    `name_<column>_<row>.png`.
  - Tiles are requested row by row from the image provider.
  - The first tile the provider cannot serve aborts the screenshot.
- **Composite assembly** (`stitch.dfy`, module `Stitch`).
  - The tiles are copied block by block into one output raster.
  - `Composite` is the reference definition: every output pixel comes from exactly one tile.
  - `Assemble` is the source's imperative loop over an `array2<int>`. It keeps the
    running offsets `w` and `h` and uses a clipping `SetRect`. It is proved to build
    exactly `Composite`.
- **Content-addressed upload** (`api.dfy`, module `Api`).
  - `uploadImage` registers the MD5 of the bytes.
  - It transfers the bytes only when the server hands out a non-empty upload URL.
  - It fails on a transfer status other than 200.
  - The log invariant `PutsAnnounced` holds along every path: each transfer follows
    straight after the registration that announced the digest of exactly those bytes.
- **iOS record naming** (`ios.dfy`, module `Ios`).
  - The walk over the directory tree uploads every file under its path with its
    bytes, and produces one record per file, named
    `prefix/dir/.../nameWithoutExtension`, carrying the id the server gave.
  - It is proved equal to a reference walk over a pure flattening of the tree,
    `Entries`.
- **Android uploads** (`android.dfy`, module `Android`).
  - The tile counts are validated in the order the source evaluates them.
  - Each screenshot is fetched, stitched, PNG-encoded and uploaded as `name.png`.
  - It yields one record per screenshot, carrying the id the server gave.
  - When every screenshot is ready (valid counts, every tile there, a name), it is
    proved equal to a reference walk over the list of images to upload.
  - Otherwise, at the first screenshot that is not ready, the upload is that
    reference walk over the screenshots before it, and then the failing attempt
    at that screenshot, whose error it returns.
- **Run orchestration** (`recorder.dfy`, module `Recorder`).
  - The `Recorder` object's fields, and `doRecorder` as a member run on them.
  - `makeRun`, with its fixed nine-field form and exact status check.
  - `doRecorder`: validation before any request, every screenshot registered
    before the single run submission, and no submission after a failed upload.

Foreign calls are parameters of an `Env` value: MD5, the PNG encoder, the JSON
writer, the configuration file and the server's answers. Each server answer is a
function of the requests sent before and the request itself. Every operation takes
the log of requests sent so far and returns the extended log together with a
`Result`: a value, or the `Error` the source would throw.

Behaviours of the code that the model keeps:

- No tile grid is ever checked for being rectangular.
  - There is no grid-mismatch error; `setRect` silently clips.
  - A rectangular grid is therefore a precondition (`Stitch.Rectangular`,
    `Android.TilesAgree`).
- The bytes are transferred when `uploadUrl` is non-null and non-empty. An empty
  URL counts as "already stored".
- The transfer status and the run status must be exactly 200. The `success` and
  `error` fields of the server's replies are never read.
- `makeRun` returns nothing, so `doRecorder` hands no run id back to its caller.
- A screenshot without a name is still fetched as `null.png`, `null_1_0.png`, …,
  and uploaded as `null.png`. It fails only afterwards, when its record is made
  (`Android.NullNameUploadsFirst`).
- The zip image provider is never closed.

## Model

Source paths are relative to the repository root.

| member | source | states |
|---|---|---|
| Tiles.Decimal | core/src/main/kotlin/io/screenshotbot/sdk/Recorder.kt:283 | an index prints as a non-empty string of decimal digits with no leading zero: only 0 prints starting with `0` |
| Tiles.DecimalRoundTrip | core/src/main/kotlin/io/screenshotbot/sdk/Recorder.kt:283 | reading back the printed index gives the index |
| Tiles.DecimalInjective | core/src/main/kotlin/io/screenshotbot/sdk/Recorder.kt:283 | distinct indices print differently |
| Tiles.TileName | core/src/main/kotlin/io/screenshotbot/sdk/Recorder.kt:282-283 | the naming rule: `name.png` for tile (0,0), `name_<w>_<h>.png` otherwise, column first; its properties are the rows below |
| Tiles.TileNameShape | core/src/main/kotlin/io/screenshotbot/sdk/Recorder.kt:282-283 | every tile file name starts with the screenshot name and ends in `.png` |
| Tiles.UnderscoreAfterDigits | core/src/main/kotlin/io/screenshotbot/sdk/Recorder.kt:283 | in `<digits>_<rest>` the first underscore is the one after the digits |
| Tiles.SplitAtUnderscore | core/src/main/kotlin/io/screenshotbot/sdk/Recorder.kt:283 | `<w>_<h>` splits back into the same column and row texts |
| Tiles.CharAfterName | core/src/main/kotlin/io/screenshotbot/sdk/Recorder.kt:282-283 | the character after the name is `.` exactly for tile (0,0) and `_` for every other tile |
| Tiles.TileNamesDistinct | core/src/main/kotlin/io/screenshotbot/sdk/Recorder.kt:282-283 | two grid positions with the same file name are the same position, so every tile reads its own file |
| Tiles.NameGrid | core/src/main/kotlin/io/screenshotbot/sdk/Recorder.kt:280-284 | `tile_height` rows of `tile_width` names; row `h`, column `w` is the tile name of `(w, h)` |
| Tiles.FlattenLength | core/src/main/kotlin/io/screenshotbot/sdk/Recorder.kt:280-281 | laying `n`-wide rows end to end gives rows × `n` entries |
| Tiles.FlattenAt | core/src/main/kotlin/io/screenshotbot/sdk/Recorder.kt:280-281 | entry `(h, w)` sits at position `h * n + w` in row-major order |
| Tiles.FetchOrder | core/src/main/kotlin/io/screenshotbot/sdk/Recorder.kt:280-287 | the requested names, laid out row by row; its length and order are the next rows |
| Tiles.FetchOrderLength | core/src/main/kotlin/io/screenshotbot/sdk/Recorder.kt:280-287 | exactly `tile_height * tile_width` tiles are requested |
| Tiles.FetchOrderAt | core/src/main/kotlin/io/screenshotbot/sdk/Recorder.kt:280-287 | the tile at `(w, h)` is the `(h * tile_width + w)`-th request: row-major order |
| Tiles.FetchOrderEntry | core/src/main/kotlin/io/screenshotbot/sdk/Recorder.kt:280-287 | conversely, request `i` is the tile at column `i % tile_width` of row `i / tile_width`, so nothing but grid tiles is requested |
| Tiles.LoginFetchOrder | core/src/main/kotlin/io/screenshotbot/sdk/Recorder.kt:280-287 | a 2x2 screenshot `login` requests `login.png`, `login_1_0.png`, `login_0_1.png`, `login_1_1.png` in that order |
| Tiles.FirstAbsent | core/src/main/kotlin/io/screenshotbot/sdk/Recorder.kt:285 | the index of the first file the provider lacks: all before it are present, it is absent |
| Tiles.FirstAbsentUnique | core/src/main/kotlin/io/screenshotbot/sdk/Recorder.kt:285 | the first absent file is determined by those two properties |
| Tiles.FirstAbsentConcat | core/src/main/kotlin/io/screenshotbot/sdk/Recorder.kt:280-287 | the first file missing from two lists in sequence is the first missing from the first list, else the first missing from the second |
| Tiles.FetchEach | core/src/main/kotlin/io/screenshotbot/sdk/Recorder.kt:281-286 | a row is fetched iff the provider serves every file; the result is each file's image in order, else the error names the first missing file |
| Tiles.FetchGrid | core/src/main/kotlin/io/screenshotbot/sdk/Recorder.kt:280-287 | a successful fetch has one row of images per row of names, each the row's images in order |
| Tiles.FetchTiles | core/src/main/kotlin/io/screenshotbot/sdk/Recorder.kt:280-287 | a screenshot's tiles are its name grid fetched from the provider; see the next rows |
| Tiles.FetchGridOutcome | core/src/main/kotlin/io/screenshotbot/sdk/Recorder.kt:280-287 | fetching fails exactly on the first name, in row-major order, that the provider cannot serve |
| Tiles.GridFetchFails | core/src/main/kotlin/io/screenshotbot/sdk/Recorder.kt:280-287 | fetching a uniform grid fails iff some name in it is missing |
| Tiles.FetchTilesFails | core/src/main/kotlin/io/screenshotbot/sdk/Recorder.kt:280-287 | fetching a screenshot's tiles fails iff some tile name is missing from the provider |
| Tiles.FetchTilesFirstMissing | core/src/main/kotlin/io/screenshotbot/sdk/Recorder.kt:280-287 | a failed fetch names the first missing tile in fetch order |
| Tiles.FetchedTile | core/src/main/kotlin/io/screenshotbot/sdk/Recorder.kt:280-287 | in a successful fetch, cell `[h][w]` is the provider's image of the tile name of `(w, h)` |
| Stitch.Sum | core/src/main/kotlin/io/screenshotbot/sdk/Recorder.kt:288-293 | Kotlin's `sum()` over the mapped widths or heights; the running offsets are its prefix sums (next rows) |
| Stitch.SumStep | core/src/main/kotlin/io/screenshotbot/sdk/Recorder.kt:302-304 | a running offset grows by the size of the tile just placed |
| Stitch.SumMonotone | core/src/main/kotlin/io/screenshotbot/sdk/Recorder.kt:302-304 | running offsets never decrease |
| Stitch.BlockInside | core/src/main/kotlin/io/screenshotbot/sdk/Recorder.kt:288-304 | every pixel of a block lies inside the total size |
| Stitch.Locate | core/src/main/kotlin/io/screenshotbot/sdk/Recorder.kt:297-305 | every output coordinate lies in some block between two consecutive running offsets |
| Stitch.LocateUnique | core/src/main/kotlin/io/screenshotbot/sdk/Recorder.kt:297-305 | that block is unique |
| Stitch.Rectangular | core/src/main/kotlin/io/screenshotbot/sdk/Recorder.kt:288-305 | the shape the stitching relies on and never checks: uniform row lengths, every tile as high as its row's first tile and as wide as its column's row-0 tile |
| Stitch.RowHeights | core/src/main/kotlin/io/screenshotbot/sdk/Recorder.kt:291-293 | one height per row: the height of its first tile |
| Stitch.ColWidths | core/src/main/kotlin/io/screenshotbot/sdk/Recorder.kt:288-290 | one width per column: the width of the row-0 tile |
| Stitch.TileSize | core/src/main/kotlin/io/screenshotbot/sdk/Recorder.kt:288-293 | in a rectangular grid each tile has its row's height and its column's width |
| Stitch.Pixel | core/src/main/kotlin/io/screenshotbot/sdk/Recorder.kt:297-305 | the composite pixel at `(x, y)` is the pixel of the tile whose block holds it, relative to that tile's corner |
| Stitch.Composite | core/src/main/kotlin/io/screenshotbot/sdk/Recorder.kt:288-295 | the output width is the sum of the row-0 widths and the height the sum of the first-column heights |
| Stitch.PixelOfTile | core/src/main/kotlin/io/screenshotbot/sdk/Recorder.kt:297-305 | the output pixel at a tile's offset plus `(i, j)` is that tile's pixel `(i, j)` |
| Stitch.TileBlock | core/src/main/kotlin/io/screenshotbot/sdk/Recorder.kt:301 | tile `(r, c)`'s whole block lies inside the output at `(Σ widths before c, Σ heights before r)` and holds that tile's pixels |
| Stitch.CompositeHoldsTile | core/src/main/kotlin/io/screenshotbot/sdk/Recorder.kt:297-305 | the composite holds every pixel of every tile at that tile's offset |
| Stitch.CompositeCoveredOnce | core/src/main/kotlin/io/screenshotbot/sdk/Recorder.kt:297-305 | every output pixel lies in exactly one tile's block |
| Stitch.SingleTileIdentity | core/src/main/kotlin/io/screenshotbot/sdk/Recorder.kt:288-305 | a 1x1 grid stitches to its only tile, unchanged |
| Stitch.SetRect | core/src/main/kotlin/io/screenshotbot/sdk/Recorder.kt:301 | the source block is copied at `(dx, dy)`, clipped to the output; every other pixel keeps its value |
| Stitch.StitchRow | core/src/main/kotlin/io/screenshotbot/sdk/Recorder.kt:299-304 | after one row's pass, that row's strip holds the composite's pixels; the rest of the output is unchanged |
| Stitch.Assemble | core/src/main/kotlin/io/screenshotbot/sdk/Recorder.kt:295-305 | the in-place stitching yields an output of the composite's size holding exactly the composite's pixels |
| Api.BuildUrl | core/src/main/kotlin/io/screenshotbot/sdk/Recorder.kt:342-344 | the URL is the Screenshotbot host followed by the path |
| Api.BuildUrlInjective | core/src/main/kotlin/io/screenshotbot/sdk/Recorder.kt:342-344 | two paths give the same URL iff they are equal, so the registration and run endpoints differ |
| Api.ApiKey | core/src/main/kotlin/io/screenshotbot/sdk/Recorder.kt:315-317 | the configured key if set, else the configuration file's key; missing credentials iff neither exists |
| Api.ApiSecret | core/src/main/kotlin/io/screenshotbot/sdk/Recorder.kt:319-321 | the configured secret if set, else the configuration file's secret; missing credentials iff neither exists |
| Api.Registration | core/src/main/kotlin/io/screenshotbot/sdk/Recorder.kt:348-353 | a POST to `/api/screenshot` with four fields in order: `name` (the file name), `hash` (the MD5 of the data), `api-key` and `api-secret-key` (the resolved credentials) |
| Api.UploadImage | core/src/main/kotlin/io/screenshotbot/sdk/Recorder.kt:346-373 | extends the log by at most two requests, none a run submission, and keeps every transfer announced by its registration |
| Api.AppendRequest | core/src/main/kotlin/io/screenshotbot/sdk/Recorder.kt:350-354 | sending a request that is not a transfer keeps every transfer announced |
| Api.AppendAnnounced | core/src/main/kotlin/io/screenshotbot/sdk/Recorder.kt:350-364 | a registration followed by the transfer it announced keeps every transfer announced |
| Api.PutsAnnounced | core/src/main/kotlin/io/screenshotbot/sdk/Recorder.kt:354-364 | the log invariant: every transfer comes straight after the registration whose reply asked for exactly those bytes |
| Api.UploadImageRequests | core/src/main/kotlin/io/screenshotbot/sdk/Recorder.kt:348-371 | nothing is sent without credentials; otherwise the registration is sent, followed by a PUT of the same bytes iff the reply holds a non-empty upload URL |
| Api.WantsBytes | core/src/main/kotlin/io/screenshotbot/sdk/Recorder.kt:358 | the bytes are transferred exactly when the reply holds a non-null, non-empty upload URL |
| Api.UploadImageResult | core/src/main/kotlin/io/screenshotbot/sdk/Recorder.kt:354-372 | success iff credentials, a reply, and (when bytes are requested) a 200 status; the reply is returned unchanged; missing credentials fail with `MissingCredentials`, a missing reply with `RegistrationFailed` naming the file, and a transfer status other than 200 with `UploadFailed` |
| Api.UploadImageSends | core/src/main/kotlin/io/screenshotbot/sdk/Recorder.kt:348-364 | one `uploadImage` registers the file whenever the credentials resolve (always, when it succeeds) and transfers no bytes but the file's |
| Api.UploadImageRegistersFirst | core/src/main/kotlin/io/screenshotbot/sdk/Recorder.kt:348-354 | with credentials, the first request an upload sends is the registration of the file with the digest of its data |
| Api.UploadEach | core/src/main/kotlin/io/screenshotbot/sdk/Recorder.kt:256-263 | `uploadImage` on each file in turn, the first failure aborting the rest: on success one reply per file and one or two requests per file; transfers stay announced; no run is submitted |
| Api.UploadEachSendsEach | core/src/main/kotlin/io/screenshotbot/sdk/Recorder.kt:256-263 | a successful list upload registered every file, each under its own name with the digest of its own bytes |
| Api.UploadEachSendsOwnBytes | core/src/main/kotlin/io/screenshotbot/sdk/Recorder.kt:256-263 | every transfer a list upload makes carries the bytes of one of its files |
| Api.UploadEachStep | core/src/main/kotlin/io/screenshotbot/sdk/Recorder.kt:256-263 | a list upload's log and outcome are those of its first upload and then of the rest |
| Api.UploadEachConcat | core/src/main/kotlin/io/screenshotbot/sdk/Recorder.kt:256-263 | uploading `a + b` is uploading `a`, then `b` from where `a` left the log, the replies concatenated |
| Api.UploadEachCons | core/src/main/kotlin/io/screenshotbot/sdk/Recorder.kt:278-311 | uploading `[u] + rest` is uploading `u`, then `rest` from where `u` left the log |
| Api.Records | core/src/main/kotlin/io/screenshotbot/sdk/Recorder.kt:262 | each record pairs a name with the id of the reply at the same position |
| Api.RecordsConcat | core/src/main/kotlin/io/screenshotbot/sdk/Recorder.kt:256 | the records of two concatenated lists are the concatenation of their records |
| Api.Recorded | core/src/main/kotlin/io/screenshotbot/sdk/Recorder.kt:262 | a list upload turned into records: the same log, the same failure, or one record per reply |
| Api.RecordedEachCons | core/src/main/kotlin/io/screenshotbot/sdk/Recorder.kt:278-311 | recording `[u] + rest` records `u` with its reply's id, then the rest from where `u` left the log |
| Ios.LastIndexOf | core/src/main/kotlin/io/screenshotbot/sdk/Recorder.kt:262 | the position of the last occurrence of a character, or none when it does not occur |
| Ios.NameWithoutExtension | core/src/main/kotlin/io/screenshotbot/sdk/Recorder.kt:262 | a prefix of the name that stops at its last dot, or the whole name when it has no dot |
| Ios.NameWithoutExtensionExamples | core/src/main/kotlin/io/screenshotbot/sdk/Recorder.kt:262 | `testLogin.png` becomes `testLogin`, `a.b.png` becomes `a.b`, and `README` stays whole |
| Ios.EntriesPerFile | core/src/main/kotlin/io/screenshotbot/sdk/Recorder.kt:254-265 | one entry per file and none per directory; every record name starts with `prefix/` |
| Ios.EntriesOfPerFile | core/src/main/kotlin/io/screenshotbot/sdk/Recorder.kt:257-263 | the same for one listing entry; a directory extends the prefix by `/name` |
| Ios.Entries | core/src/main/kotlin/io/screenshotbot/sdk/Recorder.kt:254-265 | the reference flattening of a listing: files depth first in listing order, each with its upload path, record name and bytes |
| Ios.EntriesOf | core/src/main/kotlin/io/screenshotbot/sdk/Recorder.kt:257-263 | one listing entry: a file gives `path/name`, `prefix/nameWithoutExtension` and its bytes; a directory extends both with `/name` |
| Ios.UploadsOf | core/src/main/kotlin/io/screenshotbot/sdk/Recorder.kt:260-261 | each entry is uploaded under its path with its bytes |
| Ios.RecordNames | core/src/main/kotlin/io/screenshotbot/sdk/Recorder.kt:262 | each entry is recorded under its record name |
| Ios.ReferenceWalk | core/src/main/kotlin/io/screenshotbot/sdk/Recorder.kt:254-265 | the reference iOS walk: the entries uploaded in order and recorded with the replies' ids |
| Ios.ReferenceWalkConcat | core/src/main/kotlin/io/screenshotbot/sdk/Recorder.kt:256 | walking `e1 + e2` walks `e1`, then `e2` from where `e1` left the log, records concatenated |
| Ios.UploadIosImages | core/src/main/kotlin/io/screenshotbot/sdk/Recorder.kt:254-265 | a file in place of the directory fails before any request; otherwise the walk is exactly the reference walk over the flattened tree: each file uploaded in order under its path with its bytes, and recorded with the reply's id; transfers stay announced; no run is submitted |
| Ios.UploadListing | core/src/main/kotlin/io/screenshotbot/sdk/Recorder.kt:256-264 | the `flatMap` over a listing is exactly the reference walk over the listing's flattened entries |
| Ios.UploadNode | core/src/main/kotlin/io/screenshotbot/sdk/Recorder.kt:257-263 | a file is uploaded under `path/name` with its bytes and recorded as `prefix/nameWithoutExtension` with the reply's id; a directory is walked with `/name` added; both are the reference walk of that entry |
| Ios.IosRecordPerFile | core/src/main/kotlin/io/screenshotbot/sdk/Recorder.kt:254-265 | a successful walk from the top yields exactly one record per file, every name starting with `/` |
| Android.NameText | core/src/main/kotlin/io/screenshotbot/sdk/Recorder.kt:282-283 | a name prints as itself, a null name as `null` |
| Android.TileCounts | core/src/main/kotlin/io/screenshotbot/sdk/Recorder.kt:280-293 | valid iff both counts are present and positive; a missing count or a non-positive count fails, with the height checked first |
| Android.TilesAgree | core/src/main/kotlin/io/screenshotbot/sdk/Recorder.kt:280-305 | when a screenshot's counts are valid and all its tiles are present, they form a rectangular grid |
| Android.UploadScreenshot | core/src/main/kotlin/io/screenshotbot/sdk/Recorder.kt:278-311 | the log only grows, transfers stay announced and no run is submitted; a record carries its screenshot's name, and only a ready screenshot yields one; its outcome in each case is the next three rows |
| Android.UploadScreenshotCountError | core/src/main/kotlin/io/screenshotbot/sdk/Recorder.kt:280-283 | invalid tile counts fail with the count's own error before anything is sent |
| Android.UploadScreenshotTileError | core/src/main/kotlin/io/screenshotbot/sdk/Recorder.kt:280-287 | a missing tile fails with the fetch's error, naming that tile, before anything is sent |
| Android.UploadScreenshotStitched | core/src/main/kotlin/io/screenshotbot/sdk/Recorder.kt:307-310 | with every tile there, the composite's PNG is uploaded as `name.png` (`null.png` for a null name); an upload failure is returned as is; after a successful upload a null name fails with `MissingName`, and otherwise the record pairs the name with the reply's id |
| Android.Stitched | core/src/main/kotlin/io/screenshotbot/sdk/Recorder.kt:280-305 | there is a composite iff the counts are valid and every tile is there (`Fetched`) |
| Android.AllReadyCons | core/src/main/kotlin/io/screenshotbot/sdk/Recorder.kt:278 | all screenshots are ready iff the first is and the rest are |
| Android.AndroidUploads | core/src/main/kotlin/io/screenshotbot/sdk/Recorder.kt:308-309 | one upload per screenshot, in metadata order: the PNG of its composite as `name.png` |
| Android.ShotNames | core/src/main/kotlin/io/screenshotbot/sdk/Recorder.kt:310 | each screenshot is recorded under its name, in metadata order |
| Android.AndroidWalk | core/src/main/kotlin/io/screenshotbot/sdk/Recorder.kt:278-312 | the reference Android upload: the screenshots' images uploaded in order and recorded with the replies' ids |
| Android.AndroidWalkUnfold | core/src/main/kotlin/io/screenshotbot/sdk/Recorder.kt:278-312 | the reference walk uploads the first screenshot, then walks the rest from where it left the log |
| Android.AndroidWalkEmpty | core/src/main/kotlin/io/screenshotbot/sdk/Recorder.kt:278 | walking no screenshots sends nothing and yields no records |
| Android.UploadScreenshotSends | core/src/main/kotlin/io/screenshotbot/sdk/Recorder.kt:280-309 | invalid counts or a missing tile send nothing; otherwise the first request registers `name.png` with the MD5 of the PNG of the composite |
| Android.NullFileName | core/src/main/kotlin/io/screenshotbot/sdk/Recorder.kt:309 | a null name prints as `null`, so its file is `null.png` |
| Android.NullNameUploadsFirst | core/src/main/kotlin/io/screenshotbot/sdk/Recorder.kt:309-310 | a screenshot without a name never yields a record, yet with its tiles and credentials in place its first request registered its composite as `null.png` |
| Android.NamedAfterCons | core/src/main/kotlin/io/screenshotbot/sdk/Recorder.kt:278 | prepending one screenshot's record keeps records and screenshots paired |
| Android.UploadAndroidImages | core/src/main/kotlin/io/screenshotbot/sdk/Recorder.kt:278-312 | on success, one record per screenshot in metadata order, each named after its screenshot, and every screenshot was ready; transfers stay announced; no run is submitted |
| Android.AndroidIsReference | core/src/main/kotlin/io/screenshotbot/sdk/Recorder.kt:278-312 | when every screenshot is ready, the upload is exactly the reference walk: each image uploaded in order and recorded with its reply's id |
| Android.UploadAndroidImagesUnfold | core/src/main/kotlin/io/screenshotbot/sdk/Recorder.kt:278-311 | the `map` uploads the first screenshot, then, unless that failed, the rest from where it left the log |
| Android.AndroidFailsAtHead | core/src/main/kotlin/io/screenshotbot/sdk/Recorder.kt:278-311 | a first screenshot that is not ready fails the whole upload with its own error |
| Android.PrefixHeadFails | core/src/main/kotlin/io/screenshotbot/sdk/Recorder.kt:278-311 | when the first screenshot fails, any longer prefix fails exactly as the whole list does |
| Android.PrefixHeadSucceeds | core/src/main/kotlin/io/screenshotbot/sdk/Recorder.kt:278-311 | when the first screenshot succeeds, a prefix ends where, and fails exactly when, the rest of it does from the first one's log |
| Android.UploadStopsAt | core/src/main/kotlin/io/screenshotbot/sdk/Recorder.kt:278-311 | at the first screenshot that is not ready, the upload is that of the screenshots before it, then, unless that failed, the failing attempt at that screenshot, whose error it returns |
| Android.AndroidStopsAtFirstUnready | core/src/main/kotlin/io/screenshotbot/sdk/Recorder.kt:278-312 | the same, with the screenshots before it uploaded as the reference walk does |
| Android.FirstUnready | core/src/main/kotlin/io/screenshotbot/sdk/Recorder.kt:278-311 | when some screenshot cannot be recorded, the index where the `map` stops: every screenshot before it is ready and it is not |
| Android.FirstUnreadyUnique | core/src/main/kotlin/io/screenshotbot/sdk/Recorder.kt:278-311 | that index is the only one with those two properties |
| Recorder.Recorder.constructor | core/src/main/kotlin/io/screenshotbot/sdk/Recorder.kt:144-155 | a fresh recorder: clean work tree, not production, Android layout, empty repository name, nothing else set |
| Recorder.Recorder.SetGithubRepo | core/src/main/kotlin/io/screenshotbot/sdk/Recorder.kt:375-377 | replaces the repository name and leaves every other field unchanged |
| Recorder.Recorder.Config | core/src/main/kotlin/io/screenshotbot/sdk/Recorder.kt:144-155 | the settings the pipeline reads are the object's eight fields, each one unchanged |
| Recorder.Recorder.Record | core/src/main/kotlin/io/screenshotbot/sdk/Recorder.kt:240-252 | `doRecorder` as a member: the pipeline run on the object's current settings |
| Recorder.BoolText | core/src/main/kotlin/io/screenshotbot/sdk/Recorder.kt:330-332 | `true`, `false` and `null` print as those words, and only they |
| Recorder.Keys | core/src/main/kotlin/io/screenshotbot/sdk/Recorder.kt:327-334 | the keys of a form, one per field, in order |
| Recorder.RunFields | core/src/main/kotlin/io/screenshotbot/sdk/Recorder.kt:326-334 | the form `makeRun` submits; its layout is the next row |
| Recorder.RunFieldsLayout | core/src/main/kotlin/io/screenshotbot/sdk/Recorder.kt:326-334 | the run form has exactly the keys `channel`, `screenshot-records`, `github-repo`, `commit`, `is-clean`, `branch`, `is-trunk`, `api-key`, `api-secret-key`, in that order; the channel, records JSON, clean state, trunk flag and credentials are sent as text, and the repository, commit and branch are passed through, null when unset |
| Recorder.MakeRun | core/src/main/kotlin/io/screenshotbot/sdk/Recorder.kt:323-340 | without credentials nothing is sent; otherwise exactly one run submission is appended, and the result is success iff its status is 200, else the status in the error |
| Recorder.UploadAll | core/src/main/kotlin/io/screenshotbot/sdk/Recorder.kt:247-249 | the uploads of the selected layout send no run submission and keep transfers announced; for Android, a success yields records named after the screenshots and means every screenshot was ready, and when every screenshot is ready the uploads are the reference walk over their images; otherwise they are the reference walk over the screenshots before the first unready one, and, unless that failed, the failing attempt at that screenshot, whose error is the result; for iOS a file in place of the directory fails with `NotADirectory(dir)` before anything is sent, and a directory gives the reference walk over the tree's files |
| Recorder.DoRecorder | core/src/main/kotlin/io/screenshotbot/sdk/Recorder.kt:240-252 | an empty channel or an empty directory fails before any request, the channel first; otherwise a failed upload ends the run with that upload's log and error, and a successful one is followed by `makeRun` on its records; every transfer of the whole run is announced |
| Recorder.RunSubmittedLast | core/src/main/kotlin/io/screenshotbot/sdk/Recorder.kt:240-252 | the run is submitted at most once and last; it is submitted iff the arguments are valid, all uploads succeeded and the credentials resolve; everything before it is the uploads, and it carries their records |
| Recorder.RunFollowsUploads | core/src/main/kotlin/io/screenshotbot/sdk/Recorder.kt:240-252 | when a run is submitted, the requests before it are exactly the reference walk of the selected layout, which succeeded, and the run lists that walk's records |
| Recorder.EveryUploadBeforeRun | core/src/main/kotlin/io/screenshotbot/sdk/Recorder.kt:240-252 | when a run is submitted, every Android screenshot's PNG was registered as `name.png`, or every iOS file under its path with its bytes, before it |
| Recorder.DoRecorderSucceeds | core/src/main/kotlin/io/screenshotbot/sdk/Recorder.kt:240-252 | a recorder run succeeds iff the arguments are valid, every upload succeeded, the credentials resolve and the run submission got status 200 |

## Left out

- PNG decoding and encoding (`ImageIO`) are not modelled. The provider yields
  decoded images, and the encoder is the function `Env.encodePng`. The pixel type of
  the output (`imgs[0][0].type`) is not modelled: pixels are integers, copied
  exactly.
- MD5 (`getDigest`) is not modelled. It is the deterministic function `Env.md5`.
- HTTP and JSON (Fuel, Jackson) are not modelled.
  - Requests are values in a log.
  - The server's replies and status codes are functions of the log.
  - The record list's JSON is `Env.recordsJson`.
  - How Fuel encodes a null form value is not modelled.
  - A reply that does not deserialise and a reply with a null `response` are one
    error, `RegistrationFailed`.
- Transport failures of the run submission, before a status exists, are not
  modelled.
- `readMetadata` (XML parsing) is not modelled. The metadata is the parsed list of
  screenshots. Only the name and tile counts are kept; the description, test class,
  test name and view hierarchy are never read by the upload.
- `readConfig` is not modelled. It is `Env.config`, where `None` stands for a
  missing or unreadable `~/.screenshotbot`.
- The command line (`run`, `printHelp`, `main`), `RepoProcessor` with `getGitDir`,
  `getAllImages` and logging are not modelled. They are argument plumbing, version
  control lookups, an unused listing and diagnostics.
- `DirectoryImageProvider` and `ZipImageProvider` are not modelled; the provider is a
  map from file name to decoded image.
  - The choice between the two by `isDirectory` is not modelled.
  - Opening the zip file can fail, and that failure is not modelled.
  - The zip file is never closed in the source; the model has no handles.
- In the iOS walk, a file's path is `directory + "/" + name`. The model does not
  normalise paths to `absolutePath`. It does not model I/O failures of `listFiles`
  below the top directory, or of `readBytes`.
- `response.id!!` cannot fail, because `id` is a non-null `String` with default `""`.
  The model passes the id through.
- Android.UploadScreenshot: the model assumes a rectangular grid of tiles
  (`TilesAgree`). The source's clipping behaviour on a non-rectangular grid is
  modelled only in `Stitch.SetRect`, not for the composite as a whole.
- Stitch.Composite: widths and heights are summed as unbounded integers. Kotlin's
  32-bit `Int` sums can overflow for huge grids; the model does not capture that
  wrap-around.
- Android.TileCounts: tile counts are unbounded integers. Values beyond 32-bit `Int`
  cannot arise from the source's `Int?` fields, and the model does not bound them.
