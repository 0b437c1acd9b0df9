# Google Drive upload relay — Dafny model

A model of the decision logic in `main.py`, the FastAPI back end that
forwards files to a user's Google Drive. It covers:

- bearer-token extraction from the `Authorization` header;
- the image test (`is_image`) and the all-images rule (`is_all_images`),
  with a faithful POSIX `os.path.splitext` and ASCII `lower()`;
- the upload dispatcher: merge the images into one PDF named
  `<stem>_merged.pdf`, or upload each file on its own;
- folder resolution: the "My Doc" root and its four default subfolders,
  get-or-create of a target or parent folder, and the read-only lookup
  of `list_files`;
- the summary shape `{id, name, type, webViewLink, thumbnailLink}`.

Google Drive is an abstract store, a `seq<Item>` in creation order:

- `files().list(q)` is an order-preserving filter (`Drive.List`);
- `files[0]` is its head (`Drive.First`);
- `files().create` appends one live item with a fresh id (`Drive.Create`).

Every handler is a function or method from a store to a result and a new store.

Modules and files:

| file | module | contents |
|---|---|---|
| results.dfy | Results | `Option`, `Result`, the two error kinds (401 and 500) |
| strings.dfy | Strings | `startswith`, Python `str.split(" ")`, ASCII `lower()`, `rfind` |
| paths.dfy | Paths | POSIX `os.path.splitext` |
| drive.dfy | Drive | items, queries, list, first, create |
| folders.dfy | Folders | root and defaults, get-or-create, lookup |
| responses.dfy | Responses | item summaries |
| upload.dfy | Upload | image test, merge and per-file paths, dispatch |
| handlers.dfy | Handlers | `upload_file`, `create_folder`, `list_files` |

An empty file list is handled as the code handles it. The framework's
`File(...)` declaration rejects a request that carries no file list
before the handler runs. When the handler does receive an empty list,
`is_all_images` is false (main.py:118), so it takes the per-file path
(main.py:156-176), uploads nothing and returns an empty list.
`Upload.Dispatch` on `[]` therefore yields `Ok([])` and creates nothing.

## Model

| member | source | states |
|---|---|---|
| Auth.ParseBearer | main.py:16-19 | A header that does not start with "Bearer " (including the empty header) is a 401 "Invalid Authorization header". Otherwise the token is the text after "Bearer " up to the next space or the end of the header, and it contains no space. |
| Auth.TokenIsFirstWord | main.py:19 | For every space-free token t and any tail, "Bearer " + t + " " + tail yields exactly t. |
| Auth.TokenIsRemainder | main.py:19 | For every space-free token t, "Bearer " + t yields exactly t. |
| Auth.ParseBearerEmptyToken | main.py:16-19 | "Bearer " passes the prefix check and yields the empty token, not an error. |
| Auth.ParseBearerDoubleSpace | main.py:19 | "Bearer  x" yields the empty token: split(" ")[1] is the empty word between the two spaces. |
| Auth.ParseBearerLowerCaseScheme | main.py:16-17 | The scheme check is case-sensitive: "bearer abc" and "" are both 401. |
| Strings.Split | main.py:19 | split(" ") gives at least one piece, and no piece contains the separator. The first piece is a prefix of the input ending at the end or at a separator. There is exactly one piece iff the separator does not occur. |
| Strings.SplitJoin | main.py:19 | Joining the pieces with the separator gives back the original string. |
| Strings.SplitAfterSeparator | main.py:19 | Splitting a separator-free word, a separator and a tail gives the word followed by the pieces of the tail. |
| Strings.Lower | main.py:114 | lower() keeps the length and leaves no ASCII capital. Each capital becomes the matching small letter, and every other character stays in place. |
| Strings.LowerIdempotent | main.py:114 | Lower-casing an already lower-cased string changes nothing. |
| Strings.LowerKeepsLowercase | main.py:114 | A string without capitals is its own lower-case form. |
| Strings.RFind | main.py:114 | rfind returns the last index of the character, or -1 exactly when the character does not occur. |
| Paths.SplitExt | main.py:114 | root + ext is the path. ext is empty or one dot followed by neither '.' nor '/'. ext is non-empty iff the last path component has a dot preceded by a non-dot character within that component. |
| Paths.SplitExtPlainName | main.py:114 | "photo.JPG" splits into "photo" and ".JPG". |
| Paths.SplitExtTwoDots | main.py:114 | "a.b.png" splits at the last dot: "a.b" and ".png". |
| Paths.SplitExtDotFile | main.py:114 | A leading dot does not start an extension: ".png" has none. |
| Paths.SplitExtDottedDirectory | main.py:114 | A dot in a directory name is not an extension: "dir.d/file" has none. |
| Upload.AllAreImagesIff | main.py:118 | The entry-by-entry check of the batch holds iff every entry is an image. |
| Upload.MergeRule | main.py:117-118 | The merge path is taken iff the batch is non-empty and every entry is an image. |
| Upload.OneNonImageDisqualifies | main.py:118 | One non-image entry disqualifies the whole batch. |
| Upload.ExtensionCaseInsensitive | main.py:114-115 | The extension test ignores case: any file whose extension is ".JPG" is an image, whatever its content type. |
| Upload.ContentTypeCaseSensitive | main.py:112 | The content-type test is case-sensitive: "IMAGE/PNG" on a file with extension ".txt" is not an image. |
| Upload.DotFileIsNotImageByName | main.py:114-115 | ".png" without an image content type is not an image, because a dot-file has no extension. |
| Upload.PdfName | main.py:126 | The merged name is the first filename's splitext root followed by "_merged.pdf": the name ends in the suffix, and the first filename is what precedes the suffix plus exactly its splitext extension. |
| Upload.CollectBytes | main.py:128-133 | The list of bytes has one entry per file, each that file's content, in input order. |
| Upload.UploadEach | main.py:158-176 | One item is appended per file, in input order. Each item has the file's name, declared type and bytes, and the target as its only parent. Each summary describes its item and is a folder iff the declared type is the Drive folder type. The new ids are pairwise distinct and distinct from every earlier id. |
| Upload.MergeUpload | main.py:120-154 | A conversion failure is a 500 carrying the converter's message, and nothing is created. Otherwise exactly one live item is created: an application/pdf under the target, with the merged name and the converter's bytes. The response is the single summary of that item, typed "file". |
| Upload.Dispatch | main.py:117-176 | An all-images batch takes the merge path. On success exactly one item is appended, the merged PDF under the target, and the response is its summary. On conversion failure the result is a 500 and nothing changes. Other batches, the empty one included, get one upload and one summary per file, in order. |
| Responses.Summarize | main.py:169-176 | The summary keeps id, name and both links. Its type is "folder" iff the item's mimeType is the Drive folder type. |
| Responses.SummarizeAll | main.py:258-269 | One summary per item, in order. |
| Drive.List | main.py:253-255 | Every listed item matches the query, and the listing is no longer than the store. |
| Drive.ListMembers | main.py:253-255 | An item is listed iff it is in the store and matches the query. |
| Drive.ListAppend | main.py:253-255 | Listing a concatenation is the concatenation of the listings, so listing keeps store order. |
| Drive.FirstIsEarliestMatch | main.py:39-40 | files[0] is the earliest matching item. There is none exactly when no item matches. |
| Drive.FirstAppend | main.py:39-40 | Appending items never changes an existing first match. On a miss, the first match comes from the appended items. |
| Drive.AppendNonMatching | main.py:51-62 | Creating an item that a query does not select leaves that query's answer unchanged. |
| Drive.FirstPersists | main.py:95-96 | Once a lookup finds an item, every later store (created from it by appends) finds the same item. |
| Drive.MaxId | main.py:46-47 | Bounds every id in the store. |
| Drive.Create | main.py:42-47 | create appends one live item with the given name, type, parents and bytes. Its id is fresh; the model picks one above every existing id. |
| Drive.CreateKeepsIdsUnique | main.py:42-47 | Creating an item keeps all ids distinct. |
| Folders.GetOrCreateFolder | main.py:91-105 | An existing live child folder of that name is reused (the first one) and the store is unchanged. Otherwise exactly one live folder is created under the parent. Either way, the returned id is what a later lookup finds. |
| Folders.EnsureDefaults | main.py:50-62 | The store only grows, and afterwards every name is a child folder of the root. A folder is appended only for a listed name that had no live namesake under the root at that moment. So nothing is duplicated, and if all names already existed nothing changes. |
| Folders.CreatedDefaultsStep | main.py:51-62 | Each turn of the loop keeps every appended item a folder created for a missing name. |
| Folders.CreatedDefaultsAreNew | main.py:52-54 | Folders created by the loop have pairwise distinct names, and none had a live namesake under the root beforehand. |
| Folders.EnsureRoot | main.py:34-47 | An existing "My Doc" folder anywhere is reused (the first one). Otherwise one parentless folder is created. Either way, the returned id is what a later lookup finds. |
| Folders.EnsureRootAndDefaults | main.py:27-64 | The store only grows, by at most one item more than the number of default names. The returned id is the first root-named folder, and an existing root is kept. A missing root is created first, as a parentless live folder. Every other appended item is a default folder that was missing when it was created. Every default name is then a child folder of the root. |
| Folders.EnsureRootAndDefaultsIdempotent | main.py:27-64 | A second root check returns the same root and creates nothing. |
| Folders.EnsureRootAndDefaultsNoOp | main.py:39-40 | When the root and every default already exist, the root check creates nothing. |
| Folders.EnsureDefaultsCreatesAllMissing | main.py:51-62 | When none of the distinct names exists, one folder per name is created, in list order. |
| Folders.DefaultFoldersDistinct | main.py:50 | The four default names are distinct. |
| Folders.EnsureRootAndDefaultsFromEmpty | main.py:27-64 | On an empty Drive, the root check creates exactly the root and one folder per default. |
| Folders.ResolveTarget | main.py:87-105 | "My Doc" is the root and creates nothing. Any other name reuses the first live child folder of the root with that name, or creates exactly one. The store grows by at most one item. |
| Folders.ResolveTargetIdempotent | main.py:89-105 | Resolving the same target twice returns the same folder, and the second call creates nothing. |
| Folders.ResolveParent | main.py:197-212 | An empty name or "My Doc" is the root. Any other name resolves exactly as an upload target does. |
| Folders.LookupFolder | main.py:242-250 | "My Doc" is the root. Otherwise the result is the first live child folder of the root with that name, and it is absent exactly when there is none. |
| Folders.LookupAgreesWithResolve | main.py:242-250 | When the lookup finds a folder, resolving the name returns that folder and creates nothing. When it misses, resolving creates exactly one folder. |
| Handlers.UploadFiles | main.py:76-185 | A bad header is a 401 and the store is unchanged. Otherwise the root and target are resolved, and the response names the requested folder. An all-images batch appends exactly the merged PDF under the target and returns its summary, or is a 500 that adds nothing after resolution. Any other batch uploads each file under the target, in order, with its summary. |
| Handlers.CreateFolder | main.py:187-230 | A bad header is a 401 and the store is unchanged. Otherwise the parent is resolved, and a new live folder is always created under it. The summary has the requested name, type "folder" and no thumbnail. |
| Handlers.ListFiles | main.py:234-271 | A bad header is a 401. Otherwise the root check runs, and an unknown folder lists nothing without being created. A known folder lists one summary per live child, in store order. |
| Handlers.ListedChild | main.py:253-255 | Every live item under a folder appears in that folder's listing. |
| Handlers.ListingRootShowsDefaults | main.py:240-271 | Listing "My Doc" always shows each default folder, typed "folder". |
| Handlers.RootCheckSettled | main.py:27-64 | After one root check, any later store that only grew finds the same root and creates nothing. |
| Handlers.ParentSettled | main.py:197-212 | After a parent has been resolved, any later store finds the same root. The parent resolves to the same folder, and nothing is created. |
| Handlers.CreatedFolderIsListed | main.py:214-271 | A folder created by create_folder appears, with the same summary, in the listing of its parent folder. |
| Handlers.CreateFolderTwiceMakesTwo | main.py:214-219 | create_folder does not deduplicate: two identical requests create two folders with the same name and different ids. |

## Left out

- delete_file and rename_file: single remote calls with no decision logic.
- Building the Drive client: the credential object, and the 401 for a build failure, are foreign calls.
- Remote failures, and their wrapping into 500s by each handler's `except` clause, are not modelled. The only 500 modelled is a failed PDF conversion.
- img2pdf and the media upload objects are foreign code. The conversion is the function parameter `convert`, which yields PDF bytes or a failure message.
- Reading upload bodies is asynchronous I/O. The bytes are given with each file.
- `print` calls are not modelled.
- Drive's query language is not modelled, including the unescaped `'` in folder names that breaks the query string. Queries are the three structured forms the code builds.
- Drive's own result order, concurrent clients and races between check and create are not modelled. The store answers in creation order.
- View and thumbnail links are generated by Drive. Created items carry none, and listings pass through whatever the item holds.
- Drive sets a file's stored mimeType from its media type. The model stores the declared content type.
- The unused `folder_id` form field of upload_file is not modelled.
- Framework validation is not modelled: the 422s for a missing form field or file list.
- A file part without a filename or content type is not modelled: both are strings here. In the code, `file.content_type.startswith` on a missing content type (main.py:112) raises. The handler then returns a 500 (main.py:183-185), after the root and target folders may already have been created (main.py:85-105).
- Only the first result page of each `files().list` call is read (`results.get('files', [])`, with no page token). The model's `Drive.List` returns every match, so listings of folders too large for one page are complete only in the model.
- The constant "status": "success" fields of the responses are not modelled.
- Strings.Lower: only ASCII letters are folded. Python's full Unicode `lower()` matters for the extension test only through U+212A KELVIN SIGN (to 'k'), and no listed extension contains 'k'.
