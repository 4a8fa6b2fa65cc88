# Local Pollution Reporting — verified model of the image pipeline and the handler rules

This project models, in Dafny, the parts of the Local Pollution Reporting web
application that make decisions:

- **The image preparation pipeline** (`services/images.py`). An uploaded photo goes through these steps in order:
  1. a size ceiling of 10 MiB;
  2. decoding;
  3. a MIME allow-list (JPEG, PNG, WEBP);
  4. rotation according to the EXIF orientation tag;
  5. stripping of all metadata;
  6. conversion to RGB;
  7. two longer-edge resizes from the same normalised raster, a main image (1920 px) and a thumbnail (480 px), each JPEG-encoded.

  The call returns both byte streams or fails.
- **The public reporter handle** (`mask_user_handle` in `services/supa.py`): `usr_`, at most the first four characters of the user id, then `****`.
- **The decision rules of the Flask handlers** (`app.py`):
  - the required fields of a new report;
  - the admin/moderator gate and its default role;
  - the owner's edit/delete gate on status "Open";
  - the edit update set;
  - the storage keys of the two images;
  - the masked listing projection;
  - the CSV column layout.

Modules and files:

- `wrappers.dfy` (`Wrappers`): `Option` and `Result`.
- `raster.dfy` (`Raster`): the image value and the geometry the pipeline relies on. It covers row-major pixel addressing and PIL's `rotate(90|180|270, expand=True)`. For right angles PIL carries these out as exact transposes, so they are modelled pixel by pixel.
- `images.dfy` (`Images`): `services/images.py`.
- `supa.dfy` (`Supa`): `mask_user_handle`.
- `app.dfy` (`App`): the handler rules. The two loops of the handlers (the listing loop of `api_reports` and the row loop of `export_csv`) are methods with loop invariants. They are proved against the functions that give one record or one row.

The imaging library is not opened up. A value of type `Images.Imaging` holds four arbitrary functions:

- the decoder (`Image.open` followed by the `Image.MIME` lookup);
- the per-pixel RGB conversion;
- the LANCZOS resampler (pixel k of a w×h target);
- the JPEG encoder.

Every property of the pipeline holds for every choice of these functions. The resampler computes one pixel at a time, so a resized raster has exactly `width * height` pixels by construction.

Python semantics that the model writes out:

- `_resize`'s scale `min(max_px / max(w, h), 1.0)` and `int(w * scale)` are modelled in exact integer arithmetic. The image is shrunk exactly when `max_px < max(w, h)`, and each edge becomes `⌊edge · max_px / max(w, h)⌋`.
- When `max(w, h)` is 0, the division raises `ZeroDivisionError`. This is the error `ZeroSizeImage`.
- Pillow's `resize` refuses a target with an edge of 0. Truncation produces such an edge for very thin images, e.g. 10000×4 with 1920 gives 1920×0. This is the error `EmptyResizeTarget`.
- `str.strip()` uses Python's `str.isspace` character set.
- `request.form.get`, `payload.get` and `r.get` return `None` (the model's `None`/`JNull`/`Empty`) for a missing key.

Two behaviours of the code that a reader might not expect:

- The "never larger than the upload" bound of `_resize` holds against the *oriented* raster, not the stored one. For orientations 6 and 8, the output's width is bounded by the stored image's height. `Images.OutputsBounded` states the bound in these terms.
- Failures after the format check are possible. An empty raster raises `ZeroSizeImage`, and a too-thin raster raises `EmptyResizeTarget`. `Images.PrepareSucceeds` gives a sufficient condition for success.

## Model

| member | source | states |
|---|---|---|
| Images.Message | local-pollution-reporting/services/images.py:50-61 | each of the three validation errors has a non-empty user-facing text |
| Images.MessageTexts | local-pollution-reporting/services/images.py:50-61 | the texts are exactly those of the three ValueErrors and pairwise different |
| Images.SizeGate | local-pollution-reporting/services/images.py:50-52 | the ceiling is 10·1024·1024 = 10485760 bytes; the result is "File too large" exactly when the input is longer than that, so an input of exactly 10485760 bytes passes |
| Images.SizeGateBeforeDecode | local-pollution-reporting/services/images.py:50-57 | an oversized input gets the same result whatever the decoder does: the decoder is not consulted |
| Images.DecodeGate | local-pollution-reporting/services/images.py:54-57 | "Unsupported or corrupted" exactly when the size gate passed and decoding failed |
| Images.MimeGate | local-pollution-reporting/services/images.py:59-61 | "Only JPEG, PNG, or WEBP" exactly when size and decoding passed and the MIME is not in the allow-list, including a format with no MIME at all |
| Images.LaterFailures | local-pollution-reporting/services/images.py:59-71 | once the three gates pass, no validation error can occur; any failure is a resize failure |
| Images.OrientationOf | local-pollution-reporting/services/images.py:16-22 | an orientation is read exactly when the EXIF table could be read and holds tag 0x0112, and it is that tag's value |
| Images.RotationFor | local-pollution-reporting/services/images.py:22-28 | the turn is 0, 90, 180 or 270 degrees, and 0 exactly for orientations other than 3, 6 and 8 |
| Images.AutoOrient | local-pollution-reporting/services/images.py:15-31 | the result is the stored image for rotation 0, else the 180°, 90° or 270° counter-clockwise rotation the tag selects |
| Images.OrientationDecision | local-pollution-reporting/services/images.py:23-28 | only tags 3, 6 and 8 rotate, by 180, 270 and 90 degrees respectively |
| Images.NoOrientationRead | local-pollution-reporting/services/images.py:16-30 | missing EXIF, EXIF that raised while read, and a table without the Orientation tag all read as no orientation; otherwise the tag's value is read |
| Images.OrientationNoOp | local-pollution-reporting/services/images.py:15-31 | every orientation value other than 3, 6, 8 (or none) returns the image unchanged |
| Images.MirroredNotCorrected | local-pollution-reporting/services/images.py:21-31 | the mirrored tags 2, 4, 5, 7 leave the image unchanged |
| Images.OrientedSize | local-pollution-reporting/services/images.py:23-28 | a half turn keeps width and height; a quarter turn either way swaps them (expand=True) |
| Images.OrientedCorner | local-pollution-reporting/services/images.py:23-28 | the stored top-left pixel moves to the bottom-right (tag 3), top-right (tag 6) or bottom-left (tag 8) corner |
| Raster.Rotate180At | local-pollution-reporting/services/images.py:24 | pixel (x, y) of the half turn is pixel (w-1-x, h-1-y) of the source |
| Raster.Rotate270At | local-pollution-reporting/services/images.py:26 | pixel (x, y) of the 270° counter-clockwise turn is pixel (y, h-1-x) of the source |
| Raster.Rotate90At | local-pollution-reporting/services/images.py:28 | pixel (x, y) of the 90° counter-clockwise turn is pixel (w-1-y, x) of the source |
| Raster.Rotate180Twice | local-pollution-reporting/services/images.py:24 | two half turns give back the source pixels |
| Raster.Rotate90Then270 | local-pollution-reporting/services/images.py:26-28 | a 90° turn followed by a 270° turn restores size and pixels |
| Raster.Rotate270Then90 | local-pollution-reporting/services/images.py:26-28 | a 270° turn followed by a 90° turn restores size and pixels |
| Images.StripExif | local-pollution-reporting/services/images.py:8-12 | same mode, same size, identical pixel sequence, no EXIF, no ancillary metadata, no container format |
| Images.StripIdempotent | local-pollution-reporting/services/images.py:8-12 | stripping a stripped image changes nothing |
| Images.ConvertRgb | local-pollution-reporting/services/images.py:65 | the result is RGB of the same size with metadata carried over; an RGB source keeps its pixels |
| Images.Normalise | local-pollution-reporting/services/images.py:63-65 | the raster both outputs come from is RGB, metadata-free and of the oriented size |
| Images.NormaliseIdempotent | local-pollution-reporting/services/images.py:63-65 | normalising the normalised raster again yields it unchanged: no metadata returns, no second rotation |
| Images.ResizePlan | local-pollution-reporting/services/images.py:34-38 | the image is kept exactly when its longer edge is at most max_px |
| Images.ResizePlanBounds | local-pollution-reporting/services/images.py:34-38 | a shrink never enlarges an edge, makes the longer edge exactly max_px, and truncates each edge to ⌊edge·max_px/L⌋ |
| Images.Resampled | local-pollution-reporting/services/images.py:39 | the resampled image has the requested size and the source's mode and metadata |
| Images.Resize | local-pollution-reporting/services/images.py:34-40 | an empty raster fails with the division by zero; an image within the bound is returned unchanged (no upscaling); a result's longer edge is at most max_px and neither edge grows |
| Images.ResizeSucceeds | local-pollution-reporting/services/images.py:36-39 | when both edges times max_px reach the longer edge, no truncated edge is 0 and the resize succeeds |
| Images.PrepareRasters | local-pollution-reporting/services/images.py:49-71 | a validation error occurs exactly when the upload is over the ceiling, fails to decode or has a MIME outside the allow-list; on success both rasters are RGB, metadata-free and within their bounds |
| Images.ValidateAndPrepareImage | local-pollution-reporting/services/images.py:49-76 | success exactly when both rasters are prepared, and then both byte streams are present: the main raster encoded at quality 88, the thumbnail at 80; otherwise the same error with no output |
| Images.OutputsFromNormalised | local-pollution-reporting/services/images.py:63-76 | on success both outputs are resizes of the one normalised raster; the thumbnail is not made from the main image |
| Images.OutputsBounded | local-pollution-reporting/services/images.py:63-71 | on success both rasters are RGB and metadata-free, their longer edges are within max_px and thumb_px, and neither exceeds the oriented input in width or height |
| Images.ThumbIndependentOfMain | local-pollution-reporting/services/images.py:67-71 | the thumbnail is the same whatever the main bound is |
| Images.NoUpscale | local-pollution-reporting/services/images.py:36-40 | an oriented image within max_px is the main raster as it is |
| Images.PrepareSucceeds | local-pollution-reporting/services/images.py:63-76 | an allow-listed upload within the ceiling whose oriented raster is non-empty and not too thin for either bound yields both streams |
| Images.WideJpegScenario | local-pollution-reporting/services/images.py:67-71 | a 4000×1000 JPEG with 1920/480 gives a 1920×480 main image and a 480×120 thumbnail, and the call succeeds |
| Images.SmallPngScenario | local-pollution-reporting/services/images.py:63-67 | a 300×200 RGBA PNG stays 300×200 and comes out RGB |
| Supa.Take | local-pollution-reporting/services/supa.py:43 | `s[:n]` is a prefix of s whose length is n, or the length of s when s is shorter |
| Supa.MaskUserHandle | local-pollution-reporting/services/supa.py:40-43 | every handle starts with "usr_" and ends with "****" |
| Supa.BlankHandle | local-pollution-reporting/services/supa.py:41-42 | the handle is exactly "usr_****" when the id is None or empty, and only then |
| Supa.HandleShape | local-pollution-reporting/services/supa.py:43 | a non-empty id gives a handle of length 8 + min(4, length of the id) whose middle is the id's first four characters (the whole id when shorter) |
| Supa.HandleDeterminedByPrefix | local-pollution-reporting/services/supa.py:43 | two non-empty ids have the same handle exactly when their first four characters agree |
| App.Strip | local-pollution-reporting/app.py:137 | `str.strip()`: empty exactly for all-whitespace input, otherwise starting and ending with non-whitespace, and a slice of the input with only whitespace cut on both sides |
| App.ReadNewReport | local-pollution-reporting/app.py:137-149 | a refusal carries the message "Photo, Title, Latitude and Longitude are required." |
| App.RequiredFields | local-pollution-reporting/app.py:137-149 | refused exactly when the photo (or its file name), the stripped title, lat or lon is missing or empty; on success the draft's title is the form's title stripped (and non-empty), description and address are the form's values stripped (empty when missing), lat/lon and the photo are passed on unstripped, and category/severity are the form's values, "Other"/"Low" when missing |
| App.GetUserRole | local-pollution-reporting/app.py:54-58 | no data, an empty row or a row without role gives "user"; otherwise the stored role (possibly null) |
| App.AdminGate | local-pollution-reporting/app.py:41-51 | a request without a session user is redirected to login, and only such a request |
| App.AdminGateRule | local-pollution-reporting/app.py:41-58 | the gate proceeds exactly for a signed-in user whose role is "admin" or "moderator"; a user with no profile row is refused; without a session the lookup plays no part |
| App.DecideDelete | local-pollution-reporting/app.py:301-307 | the delete happens exactly when the owner's report exists with status "Open"; otherwise the error "Cannot delete once under review or resolved." |
| App.Updates | local-pollution-reporting/app.py:315 | the update set has only title and description as keys, holds each exactly when the payload has it with a non-null value, and keeps that value |
| App.DecideEdit | local-pollution-reporting/app.py:309-318 | the edit is committed exactly when the owner's report exists with status "Open"; otherwise the error "Cannot edit once under review or resolved."; a committed edit writes exactly the update set of the body (the empty object for a missing body), so no other field is ever written |
| App.EditWritesOnlyGivenFields | local-pollution-reporting/app.py:315-318 | the update set is empty (no write) exactly when title and description are both missing or null; an empty-string title is written as given |
| App.OriginalKey | local-pollution-reporting/app.py:183 | the original's key is the report's folder `reports/{user_id}/{report_id}/` followed by `original.jpg` |
| App.ThumbKey | local-pollution-reporting/app.py:184 | the thumbnail's key is the same folder followed by `thumb.jpg` |
| App.KeySegments | local-pollution-reporting/app.py:183-184 | for ids without '/', the keys split into "reports", user id, report id and "original.jpg" / "thumb.jpg" |
| App.KeysDistinct | local-pollution-reporting/app.py:183-184 | for ids without '/', an original key never equals a thumbnail key, and each kind of key determines its user id and report id |
| App.Listing | local-pollution-reporting/app.py:254-268 | a listing record's reporter is the masked handle of the row's user id |
| App.ApiReports | local-pollution-reporting/app.py:250-269 | the listing has one record per query row (none for a null result), in query order, each the row's projection |
| App.ListingRevealsOnlyPrefix | local-pollution-reporting/app.py:267 | rows that differ only in user ids with equal first four characters (or two blank ids) are listed identically: the raw id is not exposed |
| App.HeaderRow | local-pollution-reporting/app.py:353 | the header row holds the eleven column names in order |
| App.CsvRecord | local-pollution-reporting/app.py:355 | every data row has as many fields as the header |
| App.CsvColumnsAligned | local-pollution-reporting/app.py:353-355 | the header has 11 columns, and field i of every data row is the column the header names at i; user_id and description are not exported |
| App.ExportCsv | local-pollution-reporting/app.py:349-355 | the written table is the header followed by one row per row of `res.data or []` (none for a null result), in query order, every line of 11 fields |

## Left out

- Pixel work done inside PIL is not opened up. This covers decoding a container, colour conversion maths, LANCZOS resampling and JPEG byte content. These are the arbitrary functions of `Images.Imaging`. No property depends on what they compute. That the output streams are valid JPEG is therefore not stated.
- Images.MimeGate: the decoder and the `Image.MIME` table are one opaque function. Which container formats PIL detects, and which MIME each has, are not modelled.
- Lazy decoding is not modelled. `Image.open` reads only the header, and pixel data is loaded on first use. For tags 3, 6 and 8 that is the `rotate` in `_auto_orient`: a load failure there is swallowed by its `except Exception`, and the image goes on unrotated. The load is then retried in `_strip_exif`'s `getdata()`, where it raises an exception other than ValueError. For other tags the first load is in `_strip_exif`. The model's decoder either yields a whole raster or fails at the decode gate.
- Images.ResizePlan: the floating-point scale is modelled in exact arithmetic. `int(w * (max_px / L))` on IEEE doubles is often one less than the exact floor. For the longer edge itself, `L * (1920 / L)` falls just below 1920 for about one longer edge in ten between 1921 and 20000; L = 2148 gives 1919. So `Images.ResizePlanBounds`' "longer edge exactly max_px" can be max_px − 1 in the program, and the other edge can be one less than the exact floor. The comparison `scale < 1.0` is taken as `max_px < L`.
- Images.Resize: `max_px` and `thumb_px` are natural numbers. The handler passes 1920 and 480. A negative bound, which Python would accept and PIL would then refuse, is not modelled.
- Images.Resize: `EmptyResizeTarget` stands for Pillow's own refusal of a zero-sized target, a ValueError that the upload handler then shows to the user. Pillow's exact message text is not modelled.
- `_auto_orient`'s sweep of `ExifTags.TAGS` for the key named 'Orientation' is replaced by that key's value, 0x0112. EXIF values are modelled as integers. A value of another type that is numerically equal to 3, 6 or 8 (the float `6.0`, a rational 6/1) compares equal in Python and rotates the image; the model covers it only as the integer it equals. Values equal to no integer, such as strings or tuples, compare unequal and are "any other value".
- The palette of a "P"-mode image is ancillary data that `_strip_exif` does not copy. How PIL then colours such pixels is part of the opaque RGB conversion. The alpha channel of an "RGBA" image is part of each pixel: `_strip_exif` keeps it, and `convert("RGB")` drops it pixel by pixel, which is the model's `toRgb`.
- The latitude/longitude parsing and bounding-box check (app.py:18-21, 152-161) are left out. They are float parsing and comparison against configured doubles.
- Flask plumbing is left out: routing, the session object, `flash`/`redirect`/`abort`, templates, `send_file`, `jsonify`, and CSV quoting and encoding by the `csv` module. Sessions appear only as an optional user id.
- Supabase I/O is left out. This covers the client singletons, `public_url_for`, `upsert_profile`, the table queries and their filters, the `can_submit_report` and `set_report_status` RPCs, and the storage uploads. Query results are inputs.
- App.GetUserRole follows the code's reading of an empty result as role "user". With `.single()`, the real client raises when no profile row exists, which the model does not capture.
- App.DecideDelete and App.DecideEdit take the owner lookup's result as input: the row, or none. With `.single()` (app.py:303, 311), the real client raises when the report does not exist or belongs to someone else. That request then never gets the 400 refusal JSON the model gives for "none". A row whose status column is missing cannot come from `select("status")` and is not modelled.
- Report ids come from `uuid.uuid4()` and are inputs of the key functions. User ids are UUIDs. The key lemmas assume ids without '/'. With a '/' in an id, two different reports could share a key.
- App.DecideEdit: the request body is modelled as a JSON object or nothing. `request.json or {}` turns a falsy body (null, false, 0, "", []) into the empty object, which the model's "nothing" covers. A non-empty body that is not an object (a non-empty list, a non-zero number, a non-empty string, true) passes the status gate and then makes `payload.get` raise, which is not modelled.
- `services/geo.py` (reverse geocoding over the network, exceptions swallowed) is not part of this model.
- The login and sign-up flows are not part of this model. Nor are `login_required`, `api_set_status` and `api_my_reports`, which are session and database glue.
