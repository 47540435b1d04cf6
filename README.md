# NeosH5P content files, library storage and integration settings

This project models three parts of the NeosH5P package, which runs H5P interactive content inside Neos:

- **The content entity** (`Classes/Domain/Model/Content.php`):
  - How a content is created and updated from H5P's metadata array.
  - The array it hands to H5P's parameter filter.
  - The life cycle of its files. During a request, the stored archive is dumped into a working directory `<H5P_TEMP_DIR>/<contentId>`, at most once. At the end, the directory is packed into `<H5P_TEMP_DIR>/<contentId>.zip`, which is imported as the new stored resource and then cleaned up.
- **The file storage adapter** (`Classes/H5PAdapter/Core/FileAdapter.php`):
  - Packing an uploaded library directory into `<dir>.zip` and attaching the imported archive to its library record.
  - Handing out temporary paths.
  - The cached-asset cleanup, which has nothing to do.
- **The integration service** (`Classes/Domain/Service/H5PIntegrationService.php`):
  - The `window.H5PIntegration` settings: core and editor asset URLs with the cache buster, the user-dependent core settings, the editor settings, and one `cid-<id>` entry per displayed content. As written, that entry's user data is always the default `{0: {state: "{}"}}`. A corrected variant preloads the user's saved rows (see Findings).

The file system, Flow's resource store and PHP's `ZipArchive` are modelled abstractly:

- The file system is a map from paths to directories and files (module `Archives`).
- A stored blob is either plain data or an archive, which is a list of named entries.
- A `FileSystem`, a `ResourceManager` and a `ZipArchive` class hold that state. Their methods say exactly how it changes (module `Storage`).
- The content is a class whose fields the methods update.
- The settings are values built from an `Env` that bundles the configuration, the static asset lists, the option values, the current user and the stored contents.

The packing loop is proved against a specification, `PackOf`: restoring the archive's entries below the directory gives back exactly the files below it. Packing a directory and extracting the archive into an empty one gives back the same files (`PackThenExtract`). Dumping after a repack therefore restores the working directory's files (`RepackThenDumpRestoresFiles`).

Modules:

- `Paths`: joining, relative names and integer rendering.
- `Archives`: the tree, archives, packing, extraction and pruning.
- `Storage`: the stateful collaborators and the directory packer.
- `ContentModel`: the entity.
- `H5PFileAdapter`: the adapter.
- `Integration`: the settings.

## Model

| member | source | states |
|---|---|---|
| ContentModel.FromMetadata | Classes/Domain/Model/Content.php:184-206 | A content is created exactly when title, params and disable are all given; it starts with an empty slug and empty filtered parameters, and both timestamps are the creation time |
| ContentModel.CreateFromMetadata | Classes/Domain/Model/Content.php:184-206 | Returns a fresh content holding exactly the created record, with no zipped content file and the dumped flag unset, or null where a required key is missing |
| ContentModel.CreatedAssocArray | Classes/Domain/Model/Content.php:213-227 | The array a created content hands to the parameter filter carries its id, title, library, empty slug, disable flags, embed type, params and empty filtered text |
| ContentModel.Content.ToAssocArray | Classes/Domain/Model/Content.php:213-227 | The array holds id, title, library, slug, disable, embed type, parameters and filtered text of the content's current fields |
| ContentModel.Content.UpdateFromMetadata | Classes/Domain/Model/Content.php:240-253 | Succeeds exactly when a title is given; the content's persistent fields become the updated record and the zipped content file is untouched |
| ContentModel.UpdateFromMetadataEffect | Classes/Domain/Model/Content.php:240-253 | With a title, the update sets title, library, empty filtered text and update time, sets parameters and disable only where given, and changes no other field |
| ContentModel.UpdateWithoutTitleOnlyStamps | Classes/Domain/Model/Content.php:242-243 | Without a title only the update time has moved when the setter throws |
| ContentModel.UpdateIdempotent | Classes/Domain/Model/Content.php:240-253 | Applying the same metadata twice at the same time is the same as applying it once |
| ContentModel.CreateThenUpdateAgrees | Classes/Domain/Model/Content.php:184-253 | Updating a new content with the metadata it was created from, at its creation time, changes nothing |
| ContentModel.WorkDir | Classes/Domain/Model/Content.php:358-361 | The working directory is a direct child of the temporary directory whose name is the decimal content id |
| ContentModel.WorkDirInjective | Classes/Domain/Model/Content.php:358-361 | Different contents never share a working directory |
| ContentModel.StagingZip | Classes/Domain/Model/Content.php:318 | The staging archive is a direct child of the temporary directory named `<contentId>.zip` |
| ContentModel.StagingOutsideWorkDirs | Classes/Domain/Model/Content.php:318-342 | No staging archive is any content's working directory or lies inside one, so packing never picks up an archive |
| ContentModel.Content.DumpContentFileToTemporaryDirectory | Classes/Domain/Model/Content.php:264-285 | The dumped flag is set afterwards; a second call changes no file; a first call creates the working directory and extracts the stored archive, if any, into it |
| ContentModel.DumpCreatesWorkDir | Classes/Domain/Model/Content.php:272-273 | A dump whose directory creation succeeds always leaves the working directory in place |
| ContentModel.DumpWithoutContentFileWritesNothing | Classes/Domain/Model/Content.php:275-279 | Without a zipped content file the dump writes no file |
| ContentModel.Content.CreateZippedContentFileFromTemporaryDirectory | Classes/Domain/Model/Content.php:290-356 | The tree, resource store and handle change as the repack as written (top-level emptiness test) prescribes |
| ContentModel.Content.Repack | Classes/Domain/Model/Content.php:290-356 | Prune, test for emptiness, delete and clear on empty, otherwise pack, delete the old resource, import and clean up |
| ContentModel.Content.PackAndImport | Classes/Domain/Model/Content.php:318-355 | Packs the files below the working directory into a truncated archive, deletes the old resource, and on a successful import takes the new handle and removes archive and directory |
| ContentModel.RepackOfEmptyClearsHandle | Classes/Domain/Model/Content.php:309-315 | With nothing to pack, the old resource is gone, every other resource kept, the handle cleared, nothing imported and no file changed |
| ContentModel.RepackThatThrowsKeepsResource | Classes/Domain/Model/Content.php:293 | Where removing empty directories reaches a regular file and throws, the store and the handle are untouched and no file changes; only empty directories on the path are gone |
| ContentModel.RepackPacksEveryFile | Classes/Domain/Model/Content.php:325-342 | The repack's archive has one entry per file below the working directory, under its relative name with its contents, and every such file has its entry |
| ContentModel.RepackReplacesResource | Classes/Domain/Model/Content.php:348-355 | An import that happened stores the non-empty archive under the handle the content now holds, the old resource is deleted, and the staging archive and working directory are gone |
| ContentModel.RepackThenDumpRestoresFiles | Classes/Domain/Model/Content.php:264-356 | After a repack that imported its archive, the next dump writes back exactly the files the working directory held before |
| ContentModel.EmptySubdirectoryTreeShape | Classes/Domain/Model/Content.php:293-307 | A working directory holding only an empty subdirectory survives pruning and passes the top-level test while holding no file |
| ContentModel.EmptySubdirectoryLeavesDanglingHandle | Classes/Domain/Model/Content.php:296-351 | For that directory the repack as written deletes the stored resource and then keeps a handle to data that no longer exists |
| ContentModel.Content.CreateZippedContentFileCorrected | Classes/Domain/Model/Content.php:290-356 | The repack with a files-below emptiness test, which never turns a handle to stored data into a dangling one when the staging path is not a directory |
| ContentModel.CorrectedRepackKeepsHandleLive | Classes/Domain/Model/Content.php:290-356 | With the files-below test, a handle that referred to stored data before the repack is cleared or refers to stored data afterwards |
| Storage.FileSystem.RemoveEmptyDirectoriesOnPath | Classes/Domain/Model/Content.php:293 | Walks from the path up through its ancestors: skips missing paths, removes empty directories, and stops at the first non-empty directory or after the top-level ancestor; fails where it reaches a regular file |
| Archives.PruneSkipsMissingPath | Classes/Domain/Model/Content.php:293-299 | A missing working directory does not stop the walk: its empty parent is removed; a regular file on the path makes the walk throw |
| Storage.FileSystem.CreateDirectoryRecursively | Classes/Domain/Model/Content.php:273 | Succeeds where the directory exists or can be made; afterwards it is a directory and no file changed |
| Storage.FileSystem.Unlink | Classes/Domain/Model/Content.php:354 | Removes exactly the staging archive when it is a regular file, and reports failure otherwise |
| Storage.FileSystem.RemoveDirectoryRecursively | Classes/Domain/Model/Content.php:355 | The directory and everything below it are gone and nothing else changes |
| Storage.FileSystem.ExtractTo | Classes/Domain/Model/Content.php:283 | The tree afterwards is the old tree with the archive's directories and files written below the destination |
| Storage.ZipArchive.Open | Classes/Domain/Model/Content.php:319-323 | Opening succeeds unless the path is a directory or an existing file that is no archive; with OVERWRITE it starts empty, otherwise with the existing entries |
| Storage.ZipArchive.AddFile | Classes/Domain/Model/Content.php:339 | Adds the file's contents under the given name, replacing an entry of that name, and only when open and given a regular file |
| Storage.ZipArchive.Close | Classes/Domain/Model/Content.php:345 | Writes the archive at its path, or removes the file when there are no entries |
| Storage.ResourceManager.ImportResource | Classes/Domain/Model/Content.php:351 | A regular file is stored under a handle never used before, with its contents; anything else stores nothing |
| Storage.ResourceManager.DeleteResource | Classes/Domain/Model/Content.php:309-311 | Exactly the given resource is gone |
| Storage.AddDirectoryFiles | Classes/Domain/Model/Content.php:325-342 | After the walk, an open archive is a pack of the files below the directory over what it held before, with distinct names kept distinct |
| Archives.PackEntryPerFile | Classes/Domain/Model/Content.php:332-342 | A fresh pack with distinct names holds exactly one entry per file below the directory, named by its relative path, with its contents |
| Archives.PackThenExtract | Classes/Domain/Model/Content.php:264-342 | Extracting a pack into a directory without files gives back the packed files under the same paths with the same contents |
| Paths.RelativePathOfJoin | Classes/Domain/Model/Content.php:337 | Taking the relative name of `dir/rel` gives back `rel`, and it lies below `dir` exactly when `rel` is non-empty |
| Paths.JoinOfRelativePath | Classes/H5PAdapter/Core/FileAdapter.php:73 | A path below `dir` is `dir/` followed by its non-empty relative name |
| Paths.IntToStringInjective | Classes/Domain/Model/Content.php:360 | Different integers render as different decimal strings |
| H5PFileAdapter.ZipFileName | Classes/H5PAdapter/Core/FileAdapter.php:55 | `<dir>.zip` is the directory's name plus `.zip`, and is neither the directory nor inside it |
| H5PFileAdapter.ZipDirectory | Classes/H5PAdapter/Core/FileAdapter.php:52-82 | For a directory, returns `<dir>.zip` and writes there an archive that extends the existing one with every file below the directory; for anything else, changes nothing |
| H5PFileAdapter.FreshPackOfFilesIsNonEmpty | Classes/H5PAdapter/Core/FileAdapter.php:52-82 | Packing a directory with at least one file into a fresh archive gives one entry per file, so the archive file is written |
| H5PFileAdapter.LibraryRepository.AttachZippedLibraryFile | Classes/H5PAdapter/Core/FileAdapter.php:42-45 | The record with the library id gets the handle; without such a record nothing changes and the call fails |
| H5PFileAdapter.SaveLibrary | Classes/H5PAdapter/Core/FileAdapter.php:37-46 | Zips the upload directory, imports the archive under a new handle and attaches it to the library record; every earlier resource and the archive on disk are kept |
| H5PFileAdapter.TmpPath | Classes/H5PAdapter/Core/FileAdapter.php:127-132 | The temporary path lies below `Temporary/H5P` of the data path, is named `h5p-` followed by the unique id, and is a direct child when the id has no separator |
| H5PFileAdapter.GetTmpPath | Classes/H5PAdapter/Core/FileAdapter.php:127-132 | Creates the temporary directory and returns the temporary path inside it, or fails where the directory cannot be created |
| Integration.CacheBuster | Classes/Domain/Service/H5PIntegrationService.php:290-294 | The cache buster is `?v=` followed by the installed version |
| Integration.CacheBusterCarriesVersion | Classes/Domain/Service/H5PIntegrationService.php:290-294 | The version can be read back out of the cache buster, so different versions never share one |
| Integration.Urls | Classes/Domain/Service/H5PIntegrationService.php:221-244 | One URL per name, in order: public folder, asset folder, `/`, the name and the cache buster |
| Integration.UrlsDetermineNames | Classes/Domain/Service/H5PIntegrationService.php:221-244 | Every URL gives back its name, so equal URL lists come from equal name lists |
| Integration.BuildUrls | Classes/Domain/Service/H5PIntegrationService.php:221-228 | The loop yields exactly the URL list of the names |
| Integration.GetRelativeCoreScriptUrls | Classes/Domain/Service/H5PIntegrationService.php:221-228 | The URLs of H5P core's scripts in the core folder |
| Integration.GetRelativeCoreStyleUrls | Classes/Domain/Service/H5PIntegrationService.php:237-244 | The URLs of H5P core's styles in the core folder |
| Integration.GetRelativeEditorStyleUrls | Classes/Domain/Service/H5PIntegrationService.php:281-288 | The URLs of the editor's styles in the editor folder |
| Integration.Contains | Classes/Domain/Service/H5PIntegrationService.php:262 | The test holds exactly when the substring occurs at some index |
| Integration.Kept | Classes/Domain/Service/H5PIntegrationService.php:258-265 | The scripts kept are exactly those that do not name the iframe creator |
| Integration.KeptAppend | Classes/Domain/Service/H5PIntegrationService.php:258-265 | The filter keeps input order: it distributes over concatenation |
| Integration.EditorScriptUrlsShape | Classes/Domain/Service/H5PIntegrationService.php:253-272 | One cache-busted URL for every listed script not naming the iframe creator and for no other, then the English language script last |
| Integration.GetRelativeEditorScriptUrls | Classes/Domain/Service/H5PIntegrationService.php:253-272 | The loop yields exactly the editor script URL list |
| Integration.GenerateEditorSettings | Classes/Domain/Service/H5PIntegrationService.php:173-212 | Assets are core then editor styles and scripts; paths, icon size, AJAX path and library URL are built from the configuration; `nodeVersionId` is present exactly when an id other than -1 is given |
| Integration.GetContentUserData | Classes/Domain/Service/H5PIntegrationService.php:360-376 | As written, the result is always the default state, whatever rows are saved |
| Integration.PreloadContentUserData | Classes/Domain/Service/H5PIntegrationService.php:360-376 | The loop writes every saved row over the default, in order |
| Integration.PreloadedHoldsLastRow | Classes/Domain/Service/H5PIntegrationService.php:366-375 | Every saved key maps to the data of the last row saved under it; unsaved keys keep the default |
| Integration.SavedStateIsDropped | Classes/Domain/Service/H5PIntegrationService.php:366-375 | A saved state appears in the corrected result but not in the result as written |
| Integration.GenerateContentSettings | Classes/Domain/Service/H5PIntegrationService.php:303-353 | The empty array exactly for an id without content; otherwise the content's settings, whose user data is the default whether or not it was asked for |
| Integration.GenerateContentSettingsCorrected | Classes/Domain/Service/H5PIntegrationService.php:303-353 | The same settings with the corrected preloading: the saved rows written over the default when state saving is on and there is a current user |
| Integration.ContentSettingsPreloadSavedState | Classes/Domain/Service/H5PIntegrationService.php:366-375 | In the corrected settings, with state saving on and a current user, every saved key carries the last saved row's data; other keys keep the default |
| Integration.PreloadChangesDefaultExactly | Classes/Domain/Service/H5PIntegrationService.php:366-375 | The corrected preloaded data differs from the default exactly when some last row of its key holds a value other than the default |
| Integration.AsWrittenSettingsDropSavedRows | Classes/Domain/Service/H5PIntegrationService.php:348-375 | The content settings as written and the corrected ones differ exactly for a stored content, with user data asked for, whose saved rows change some default value |
| Integration.FileUrls | Classes/Domain/Service/H5PIntegrationService.php:338-342 | One URL per dependency file, its path followed by its version |
| Integration.GenerateCoreSettings | Classes/Domain/Service/H5PIntegrationService.php:122-163 | Statistics are posted only when tracking is on and there is a user; there is a user entry exactly when there is a current user; the save frequency is given only when state saving is on; the other entries come from the base URI, options and core asset URLs |
| Integration.CidKeyInjective | Classes/Domain/Service/H5PIntegrationService.php:98 | Different content ids give different `cid-` keys |
| Integration.ContentsFor | Classes/Domain/Service/H5PIntegrationService.php:96-98 | The contents map has one `cid-<id>` key per requested id, holding that id's content settings |
| Integration.CidKeysCount | Classes/Domain/Service/H5PIntegrationService.php:96-98 | There are as many `cid-` keys as distinct requested ids |
| Integration.ContentsForCount | Classes/Domain/Service/H5PIntegrationService.php:96-98 | The contents map has one entry per distinct requested id |
| Integration.GetSettings | Classes/Domain/Service/H5PIntegrationService.php:94-101 | The core settings, with a contents entry exactly when some id is requested, holding the contents map of the ids |
| Integration.GetSettingsWithEditor | Classes/Domain/Service/H5PIntegrationService.php:108-113 | The core settings with the editor settings added, and no contents entry |

## Left out

- `H5P_TEMP_DIR` is not declared in `FileAdapter.php`, so the temporary directory is a parameter (`tempDir`). `FLOW_PATH_DATA` is the parameter `dataPath`.
- `getRealPath` and symbolic links are not modelled. A walked path is its own real path.
- The zip byte format and compression are not modelled. An archive is its list of named entries.
- `createTemporaryLocalCopy` is a lookup in the resource store. The local copy it writes is not modelled.
- `uniqid` is not modelled. The identifier it generates is the parameter `unique`.
- The database assigns the content id, so it is a parameter of `CreateFromMetadata`.
- The clock (`new \DateTime()`) is the parameter `now`.
- `H5PCore::determineEmbedType` is the parameter `embedType`.
- `H5PCore::libraryToString`, the display options and the dependency files that `H5PCore` lists for a content are inputs, stored with the content.
- The URI builder is not modelled. The absolute URI it produces for the editor AJAX action is the parameter `editorAjaxAction`.
- The settings entries `l10n`, `copyrightSemantics`, `apiVersion`, `exportUrl` and `embedCode` are not modelled. They are constants or come from H5P core.
- Exceptions, PHP errors and failing file functions are modelled as `None`, `false` or an unchanged state, as each method's contract says. Which one PHP raises is not modelled.
- Doctrine persistence is not modelled: `update` of a library record is a map update.
- The repositories' queries are not modelled: the stored contents and the saved user-data rows are inputs.
- `first()` of the user's electronic addresses is the first address of a sequence.
- `first()` of the user's accounts is not modelled: the saved rows in the input are those of the current user's account.
- Concurrency between requests is not modelled.
- The Neos `Files` utility is not part of this model. Its `removeEmptyDirectoriesOnPath`, `createDirectoryRecursively` and `removeDirectoryRecursively` are modelled from the library's behaviour, as the `Storage.FileSystem` methods state it.
- `H5PFileAdapter.DeleteCachedAssets`: the source method has an empty body (the cascade on the stored assets does the work), so the model is an empty method with no frame and nothing to state.
- Integration.GetSettings: does not repeat every core-settings entry of `GenerateCoreSettings`. It states the user entry, the statistics flag and the core asset URLs, and the contents entry in full.
- Integration.GetSettingsWithEditor: states the editor assets, the AJAX path, `nodeVersionId` and the core asset URLs. It does not repeat the remaining entries of `GenerateEditorSettings` and `GenerateCoreSettings`.
- Storage.FileSystem.ExtractTo: where a regular file sits on a directory path an entry needs, or a directory on an entry's own path, the model writes the directory and the entry over it. PHP's `extractTo` fails on that entry and stops, so the file stays and later entries are not written. Modelling that stop needs an order-dependent fold and a tree invariant that no file has anything below it; `Archives.Extracted` and the dump round trip are stated without them.

## Findings

| source | as written | input that shows it | evidently intended | confidence | as-written member | corrected member |
|---|---|---|---|---|---|---|
| Classes/Domain/Model/Content.php:302-351 | The emptiness test counts only the top-level entries of the working directory. A directory holding only an empty subdirectory passes. No file is packed, so `close` writes no archive. The old resource has already been deleted, so the import throws and the content keeps a handle to deleted data | A working directory `/tmp/1` that holds only the empty directory `/tmp/1/images`, for a content with a stored archive | A directory without any file counts as empty: the old resource is deleted and the handle cleared | not executed | ContentModel.EmptySubdirectoryLeavesDanglingHandle | ContentModel.CorrectedRepackKeepsHandleLive |
| Classes/Domain/Service/H5PIntegrationService.php:366-375 | The loop writes each saved row into a local `$settings` that is never read. The function returns the default `[0 => ['state' => '{}']]` | One saved row with sub-content 0, data id `state` and data `{"progress":1}` | The saved rows are written over the default that is returned | not executed | Integration.SavedStateIsDropped | Integration.PreloadedHoldsLastRow |
