# Upload and download decisions of the media conversion backend

The backend (`backend/app.py`) is a small Flask service with two endpoints.

- `POST /upload` takes a file, an optional `file_type` (an extension such as
  `png` or `.PNG`) and an optional `convert_to` target. It checks these
  against a fixed table of 14 supported extensions, each mapped to a media
  category (image, video or audio). It then saves the file in its category
  folder and converts it when a different target of the same category was
  requested.
- `GET /download` takes a `filename` and an optional `convert_to`. It
  searches the category folders for the file and applies the same target
  checks against the stored file's extension. It then sends the file as
  stored or a converted copy.

This project models the decision logic of both endpoints.

- `Text` models the normalisation `s.lower().lstrip('.')`.
- `PurePath` models `name`, `suffix` and `stem` of a POSIX `pathlib` path.
- `Extensions` models the extension table, the sorted key list that the
  error responses carry, the target check both endpoints share, and the
  converter that each category is dispatched to.
- `Upload` models the guard chain of the upload endpoint. It turns the three
  inputs into one of six error kinds, the failure of the save, or an accepted plan. The plan holds the
  extension, the category, the saved name and the optional conversion with
  its target and converted name.
- `Download` models the folder search loop (as a method), the target
  validation and the choice between sending the stored file, converting it,
  or reporting that the category has no converter.

The source repeats the target checks in both endpoints. The model defines
them once, as `Extensions.CheckTarget`, and both decisions use it.

The project also proves a bridge between the two endpoints:
`Download.AgreesWithUpload`. Take an accepted upload that is stored under a
plain name whose own suffix is the accepted extension and whose stem is not
`.`, and assume that the
folder search returns this copy. Two uploads can store the same plain name in
different folders (`a.png` as is goes to image, `a.png` with `file_type=mp3`
to audio), and then the visiting order decides which copy is found;
`Download.OnlyFolderFound` shows that the search returns this copy when no
other folder holds the name. Downloading it with the same `convert_to` sends
it as stored exactly when the upload planned no conversion. Otherwise it converts the file to the same target under the same
name. `Download.FileTypeOverrideDisagrees` shows why the premise is needed.
A `.bmp` file uploaded with `file_type=png` and `convert_to=png` is accepted
without conversion. Downloading the stored `.bmp` with `convert_to=png`
converts it.

The service validates and converts synchronously. Besides the converter and
send errors listed under "## Left out", it reports these error kinds: `missing_file`, `missing_extension`, `unsupported_extension`,
`unsupported_target_extension`, `mismatched_target_type` and
`empty_filename` on upload, and an uncaught error when the sanitized name is
empty (the save target is then the category folder itself, lines 120-125), and `missing_filename`, `file_not_found`,
`unsupported_target_extension`, `mismatched_target_type` and
`conversion_not_supported` on download.

## Model

| member | source | states |
|---|---|---|
| Text.LowerChar | backend/app.py:74 | one character lowered: never an upper-case letter, unchanged unless it is one, and a letter A–Z moves to its lower-case form |
| Text.Lower | backend/app.py:74 | `lower()` keeps the length of the string |
| Text.LowerSpec | backend/app.py:74 | `lower()` maps each character to its lower-case form in place, so the result has no upper-case letter |
| Text.LowerOfLowerCase | backend/app.py:74 | lower-casing leaves a lower-case string unchanged |
| Text.StripLeadingDotsSpec | backend/app.py:74 | `lstrip('.')` keeps a suffix of its input and removes only dots |
| Text.StripLeadingDots | backend/app.py:74 | the stripped string never starts with a dot and is no longer than its input |
| Text.Normalize | backend/app.py:74 | a normalised extension never starts with a dot (`.PNG` gives `png`) |
| Text.NormalizeLowerCase | backend/app.py:74 | a normalised extension has no upper-case letter |
| Text.LowerStripCommute | backend/app.py:74-80 | stripping dots then lower-casing (the filename branch) equals lower-casing then stripping dots (the `file_type` branch) |
| Text.NormalizeNormalForm | backend/app.py:74 | a non-empty lower-case string without a leading dot is its own normal form |
| Text.NormalizeIdempotent | backend/app.py:74 | normalising twice equals normalising once |
| Text.NormalizeEmpty | backend/app.py:72-76 | the normal form is empty exactly when the field consists only of dots, so `file_type` then falls back to the filename |
| PurePath.RFindSpec | backend/app.py:78 | no occurrence of the character follows the index `rfind` reports |
| PurePath.RFindAt | backend/app.py:78 | an occurrence with none after it is the one `rfind` reports |
| PurePath.RFind | backend/app.py:78 | `rfind` gives -1 or an index holding the character |
| PurePath.Name | backend/app.py:245 | `Path.name` is empty or does not end in `/` |
| PurePath.NameSpec | backend/app.py:245 | `Path.name` is empty or a single component, and a single component is its own name |
| PurePath.NameExample | backend/app.py:245 | a trailing slash does not change the final component |
| PurePath.Suffix | backend/app.py:78 | a suffix is empty or a dot followed by at least one character that is not a dot |
| PurePath.SuffixSpec | backend/app.py:78 | a suffix contains exactly one dot, its first character |
| PurePath.SuffixNonEmptyIff | backend/app.py:78-79 | a suffix exists exactly when the name has a dot after its first character and does not end in a dot |
| PurePath.StemSuffixSplit | backend/app.py:130 | the stem followed by the suffix is the name, and a name with a suffix has a non-empty stem |
| PurePath.Stem | backend/app.py:130 | the stem is no longer than the name |
| PurePath.DotFileExample | backend/app.py:78 | `.bashrc` has no suffix and is all stem |
| PurePath.LastDotExample | backend/app.py:78 | only the last dot counts: `a.tar.gz` has suffix `.gz` and stem `a.tar` |
| Extensions.CategoryOf | backend/app.py:239 | `SUPPORTED_EXTENSIONS.get` gives a category exactly for the table keys; that category is always image, video or audio and is one of the category folders |
| Extensions.TableCategories | backend/app.py:13-36 | every table value is image, video or audio, and each of these is a category folder |
| Extensions.KeysAreNormalized | backend/app.py:15-36 | every key is non-empty and already in normal form, so user input can reach every key |
| Extensions.AllowedFileTypes | backend/app.py:13 | the five category folders as written |
| Extensions.SupportedExtensions | backend/app.py:16-36 | the 14 table entries as written |
| Extensions.SortedSupported | backend/app.py:89 | the key list the error responses carry, shown by `SortedSupportedIsSortedKeys` to be `sorted(list(SUPPORTED_EXTENSIONS.keys()))` |
| Extensions.LexLess | backend/app.py:89 | Python's `<` on strings: code points compared at the first difference, a proper prefix first |
| Extensions.LexLessIrreflexive | backend/app.py:89 | `<` on strings is irreflexive |
| Extensions.LexLessTransitive | backend/app.py:89 | `<` on strings is transitive |
| Extensions.LexLessAt | backend/app.py:89 | two strings with a common prefix compare by the first position where they differ |
| Extensions.SortedPairwise | backend/app.py:89 | a sequence whose adjacent elements increase is increasing between every pair |
| Extensions.SortedUnique | backend/app.py:89 | two strictly increasing sequences with the same elements are equal |
| Extensions.SortedSupportedSorted | backend/app.py:89 | the listed supported extensions are in strictly increasing order |
| Extensions.SortedSupportedHasKeys | backend/app.py:16-36 | the listed supported extensions are exactly the table keys |
| Extensions.SortedSupportedIsSortedKeys | backend/app.py:89 | any increasing listing of the table keys is the listed constant, with 14 entries, so the constant is `sorted(list(SUPPORTED_EXTENSIONS.keys()))` |
| Extensions.FieldExtension | backend/app.py:96-102 | the field is treated as absent exactly when it is missing or consists only of dots (`""`, `"."`, `".."` …); otherwise it gives a non-empty extension without a leading dot |
| Extensions.CheckTarget | backend/app.py:102-115 | no target is accepted; a non-empty target outside the table is unsupported; a table target whose category differs from the source's is mismatched; a passing target has the source's category |
| Extensions.ToolFor | backend/app.py:134-170 | images go to Pillow, audio and video to ffmpeg, any other category to neither |
| Extensions.FoldersWithoutConverter | backend/app.py:134-170 | of the category folders, exactly `document` and `other` have no converter |
| Extensions.TableCategoriesConvertible | backend/app.py:134-170 | every table category has a converter |
| Upload.SourceExtension | backend/app.py:69-80 | a non-empty normalised `file_type` is used; otherwise the filename's suffix, normalised; none exists exactly when both are empty |
| Upload.SourceExtensionLowerCase | backend/app.py:72-80 | the extension has no upper-case letter |
| Upload.Decide | backend/app.py:63-130 | both unsupported errors carry the sorted key list; an accepted upload has a non-empty filename and a non-empty sanitized name that it is saved under, and has the source extension and that extension's table category |
| Upload.ErrorOrder | backend/app.py:63-125 | each error kind is reported exactly when all earlier checks pass and its own check fails, in the order missing_file, missing_extension, unsupported_extension, unsupported_target_extension, mismatched_target_type, empty_filename, then the failing save of an emptied sanitized name; the upload is accepted exactly when every check passes |
| Upload.ConversionPlan | backend/app.py:127-130 | a conversion is planned exactly when a target is given and differs from the extension; its target has the upload's category, and the converted name is the saved name's stem, a dot, and the target |
| Upload.AcceptedCategoryConvertible | backend/app.py:134-170 | an accepted upload is an image, video or audio file, so upload never reaches `conversion_not_supported` |
| Upload.FileTypeExample | backend/app.py:72-93 | `file_type=.PNG` is accepted as `png` (image) for any non-empty filename that `secure_filename` does not empty, whatever its suffix, with no conversion |
| Upload.UnsavableNameFails | backend/app.py:117-125 | a name that `secure_filename` empties passes every check with a `file_type` and then fails at the save |
| Upload.SameTargetNoConversion | backend/app.py:129 | a target equal to the extension plans no conversion |
| Upload.PngToMp3Rejected | backend/app.py:110-115 | `png` to `mp3` is rejected as `mismatched_target_type` |
| Upload.UnknownExtensionRejected | backend/app.py:85-90 | `xyz` is rejected as `unsupported_extension` with the sorted list, whatever the target |
| Upload.DotFileMissingExtension | backend/app.py:76-83 | `.bashrc` without `file_type` is rejected as `missing_extension` before the target is looked at |
| Download.Candidate | backend/app.py:217 | the path tried in a folder has the sanitized name as its own name when that name is a plain component |
| Download.FirstFound | backend/app.py:214-222 | what the search reports: a folder from the visiting order whose candidate path exists, with that path |
| Download.Locate | backend/app.py:214-222 | the loop over the category folders reports what `FirstFound` specifies |
| Download.FirstFoundSpec | backend/app.py:214-225 | nothing is found exactly when no folder holds the name; otherwise the found folder holds it and no earlier folder does |
| Download.FoundInFolders | backend/app.py:216-222 | a search over the category folders reports one of the category folders |
| Download.OnlyFolderFound | backend/app.py:216-222 | when exactly one folder holds the name, that folder is found, whatever order the folders are visited in |
| Download.StoredExtension | backend/app.py:220 | the stored file's extension is the normal form of its suffix, and is empty exactly when there is no suffix |
| Download.Decide | backend/app.py:209-250 | `missing_filename` exactly for an absent or empty filename; `file_not_found` exactly when a filename is given but not found; the unsupported error carries the sorted list; a file sent as stored keeps its own name |
| Download.ConvertStored | backend/app.py:250-301 | of the five category folders, exactly `document` and `other` report `conversion_not_supported`; every other folder converts with its category's tool to the requested target, under the stored stem, a dot and the target |
| Download.SendStoredIff | backend/app.py:242-245 | a found file is sent as stored exactly when there is no target or the target is its own supported extension |
| Download.UnsupportedTargetIff | backend/app.py:233-235 | for a found file, the unsupported-target error is reported exactly for a non-empty target outside the table |
| Download.MismatchedTargetIff | backend/app.py:237-240 | for a found file, the mismatch is reported exactly for a table target whose category differs from that of the stored extension (which differs from every target when the extension is not in the table) |
| Download.ConversionPlan | backend/app.py:242-267 | a conversion goes to a different table extension of the same category, uses the folder's converter, and is named after the stored stem, a dot and the target |
| Download.DecideConverts | backend/app.py:233-250 | a found file whose target passes both checks and differs from its extension reaches the conversion branch |
| Download.NotConvertibleFolder | backend/app.py:300-301 | a `png` found in a folder without a converter passes the checks for `jpg`, but yields `conversion_not_supported` |
| Download.SameCategoryTarget | backend/app.py:233-240 | a table target of the same category as a table extension passes both checks |
| Download.NameOfJoin | backend/app.py:245 | the name of `dir/name` is `name` for a plain component |
| Download.StoredCopy | backend/app.py:217-220 | for a plain component `name` whose stem is not `.`, a file saved as `dir/name` has the name, extension and stem that `name` has |
| Download.AgreesWithUpload | backend/app.py:242-250 | downloading an accepted upload, stored under a plain name that carries its extension and found by the search as that copy, sends it as stored when the upload planned no conversion and otherwise converts it to the same target under the same name |
| Download.AgreesOnConversion | backend/app.py:250 | the conversion case of the agreement: same converter, target and converted name |
| Download.ConvertsPlanned | backend/app.py:250 | the conversion case stated on the accepted plan alone |
| Download.FileTypeOverrideDisagrees | backend/app.py:243-250 | a `.bmp` uploaded as `png` with target `png` plans no conversion, yet downloading it with `png` converts it |
| Download.StoredBmpConverts | backend/app.py:243-265 | a stored `.bmp` in the image folder, downloaded with `png`, is converted by Pillow under the stem, a dot and `png` |

## Left out

- Flask routing, request parsing, JSON bodies, HTTP status codes, the CORS hook and the 50 MB request limit are framework plumbing. The model returns which outcome is reported, not the response.
- `secure_filename` is library code outside this model. Upload takes it as the function parameter `sanitize`. Download's search takes the already-sanitized name.
- Saving the uploaded file and creating folders are file-system effects and are left out. The search is modelled with the existence test `pathExists` as a parameter. It stands for `Path.exists()`, which is also true of directories: a name that `secure_filename` empties (such as `..`) makes the candidate the category folder itself, which exists once an upload of that category has created it (the code never creates `document` or `other`).
- Download.Locate: the loop visits the folders of a Python set, whose order is decided by string hashing at run time. The model takes that order as the parameter `order` and does not fix it. `OnlyFolderFound` shows that the order matters only when several folders hold the same name.
- The source registers the download route after `app.run(...)` at line 191. When the file is run as a script, the route is only defined once the server stops. Route registration is not part of this model.
- Pillow conversion (including flattening RGBA onto white for JPEG), the ffmpeg process, its PATH check, its 120-second timeout, temporary files and `send_file` are left out, and so are the errors they raise. `ffmpeg_missing` and `conversion_failed` come from the ffmpeg branches (lines 150-151, 165-166, 268-269, 282-288). `conversion_exception` is any exception in the conversion blocks: Pillow, the subprocess, `NamedTemporaryFile` or `send_file` of the converted copy (lines 176-177, 303-304). `send_failed` is an exception of `send_file` in the direct-send branch (lines 244-247), so a download the model decides as `SendStored` can still end in `send_failed`. The model stops at the choice of converter and output name.
- Text.Lower: lowers only the ASCII letters A–Z, not the full Unicode case mapping of Python's `str.lower()`. Every table key is plain ASCII lower case, and no other character lowers to an ASCII letter except KELVIN SIGN, which would lower to `k`, and LATIN CAPITAL LETTER I WITH DOT ABOVE, which lowers to `i` followed by COMBINING DOT ABOVE. No key contains `k`, and the combining mark stays in the result, which then matches no key, so every table-membership result is the same as in the source.
- PurePath.Suffix: models POSIX paths only (separator `/`). It uses the rule of Python 3.13 and earlier: a name whose last dot is its first or last character has no suffix. Windows drive letters and backslashes are not modelled.
- Upload.Request takes the uploaded file's filename as a string. A file part without a filename (`None`) is not modelled.
