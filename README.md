# scorm-poc: course ingestion, manifest resolution, upload form and SCORM API shim

This project is a Dafny model of four pieces of the scorm-poc learning-content player, together with proofs about them.

- **Course routes** (`backend/routes/courses.js`, module `Courses`).
  - The listing numbers the upload folders from 1 and gives each a display name.
  - A course id is either a 1-based position or a folder name, and is resolved to a folder.
  - The folder's `imsmanifest.xml` is resolved into a course: the manifest follows IMS Content Packaging as profiled by the SCORM 2004 Content Aggregation Model.
  - Resolving the manifest means:
    - building the resource index (the last resource with an identifier wins);
    - choosing the default organization, or else the first one;
    - detecting a sequencing element;
    - flattening the organization's referencing items into SCOs with launch URLs and titles.
  - The parsed manifest is an immutable element tree (module `Xml`). `getElementsByTagName` is a pre-order filter over descendants.
- **Upload route** (`backend/routes/upload.js`, module `Upload`, over the file-system model `FileStore`).
  - The saved ZIP's name, minus `.zip`, names the extraction folder.
  - Entries are written strictly in archive order. A file entry creates its parent directory and overwrites any file already there.
  - An empty file aborts the extraction.
  - The files in the folder are counted recursively and must match the archive's file count; then the ZIP is unlinked.
  - Any failure removes the folder and the ZIP.
  - The file system is a map from paths (sequences of segments) to bytes plus a set of directories. It is mutated through a `FileSystem` object whose primitives behave like `mkdir -p`, a truncating write, `rm -rf` and `unlink`.
- **Upload form** (`src/app/app.component.ts`, module `UploadForm`).
  - `handleUploadFile` splits the accept list on `,` and trims each pattern.
  - It matches the MIME type against the patterns: a `type/*` wildcard, an exact match, or the `application/x-zip-compressed` alias for `application/zip`.
  - It then checks the maximum and minimum size. The first failing check is recorded in `error`; if every check passes, the file is handed to the upload service.
- **SCORM run-time API shim** (`src/app/services/scorm-api.service.ts`, module `ScormApi`).
  - A key/value store of data-model elements, answering only while initialized. The element `adl.nav.request` is kept apart from the store.
  - It is exposed through the SCORM 1.2 facade (`LMS…` names) and the SCORM 2004 facade (the API of section 3.1 of the SCORM 2004 Run-Time Environment book).

Shared string operations live in module `Text`: `split` on one character, `pop`, `[0]`, `trim` with the ECMAScript white-space set, `startsWith`, `endsWith`, and `^\d+$` with `parseInt`. `Wrappers` holds `Option` and `Result`.

Inputs the model takes as parameters instead of computing them:

- the folder listing (`readdir` order);
- which folders exist on disk, and whether each one's manifest is absent, unreadable or parsed;
- the saved upload name;
- the archive's entries and their decompressed bytes.

Behaviours of the code worth knowing:

- A dangling `identifierref` is a `TypeError` caught by the handler. The request answers with the generic 500 (`ServerError`).
- Launch URLs are `"/uploads/" + folder + "/" + href`, and nothing else is appended to them.
- Entry paths are joined with `path.join` without any confinement check. `Upload.FailureRollsBack` shows that a file written outside the folder survives the rollback, and `FileStore.JoinCanEscape` shows how such an entry path arises.
- The zero-size check applies to every file entry, even one that is genuinely empty in the archive.
- A file entry whose path ends in `/` keeps that slash through `path.join`. Opening a write stream on such a path fails, so the model answers `WriteFailed` for it, after its parent directory has been created.
- The ZIP is deleted on failure as well as on success.
- The recount compares all files under the folder with the archive's file count. Files already in the folder and duplicate entry paths therefore both matter, and they can offset each other.
- The frontend model type says `scosCount` while the backend emits `scoCount`. The model uses the backend's `scoCount`.

## Model

| member | source | states |
|---|---|---|
| Courses.DisplayName | backend/routes/courses.js:16 | the name has no `-`; it is the folder itself when there is no `-`, otherwise the suffix after the last `-` |
| Courses.ListCourses | backend/routes/courses.js:15-18 | one entry per folder in listing order, with id i+1, the folder, path `/uploads/<folder>` and the display name |
| Courses.ResolveCourseId | backend/routes/courses.js:36-44 | the id's folder: a resolved folder is one of the listed folders; a failure is index-out-of-range exactly for an all-digit id and no-such-course otherwise (both directions are in NumericLookup and NameLookup) |
| Courses.FindByName | backend/routes/courses.js:42 | the index of the first folder equal to the id or whose last `-` field is the id, or the length of the list when there is none |
| Courses.NumericLookup | backend/routes/courses.js:37-40 | an all-digit id k resolves to dirs[k-1] exactly when 1 <= k <= the number of folders, and to index-out-of-range otherwise |
| Courses.ZeroIsNeverFound | backend/routes/courses.js:38-39 | the id "0" is always out of range |
| Courses.ListedIdsResolve | backend/routes/courses.js:17 | the decimal form of every listed id resolves back to that entry's folder |
| Courses.NameLookup | backend/routes/courses.js:41-44 | for a non-numeric id: a resolved folder is the first folder that is the id or whose display name is the id; conversely that first match is resolved whenever it is non-empty, and is not found when it is the empty name; with no such folder the id is not found |
| Courses.ResourceIndex | backend/routes/courses.js:61-71 | the map that setting each identified resource in turn produces; its keys are pinned by ResourceIndexKeys and its values by ResourceIndexLastWins |
| Courses.ResourceIndexKeys | backend/routes/courses.js:61-71 | the index holds exactly the non-empty identifiers of the resource elements |
| Courses.ResourceIndexLastWins | backend/routes/courses.js:63-70 | for a duplicated identifier the last resource in document order provides href and scormType |
| Courses.BuildResourceIndex | backend/routes/courses.js:61-71 | the loop's map equals the resource-index fold over every `resource` element in document order |
| Courses.DefaultMatch | backend/routes/courses.js:80-85 | the position of the first organization whose identifier is the non-empty default, or none |
| Courses.ChooseOrganization | backend/routes/courses.js:73-87 | the organization rule: the first default match, else the first organization, else NoOrganization, with NoOrganizations when there is no container; proved against the loop by SelectOrganization and characterised by DefaultOrganizationWins, FirstOrganizationFallback and OrganizationFailures |
| Courses.SelectOrganization | backend/routes/courses.js:74-87 | the loop with its break chooses exactly what the organization-selection rule chooses, including both failures |
| Courses.DefaultOrganizationWins | backend/routes/courses.js:77-85 | the first organization (document-wide) carrying the non-empty default identifier is chosen |
| Courses.FirstOrganizationFallback | backend/routes/courses.js:86 | with no organization matching the default, the first organization is chosen |
| Courses.OrganizationFailures | backend/routes/courses.js:74-87 | no `organizations` element gives NoOrganizations, no `organization` gives NoOrganization, and a chosen organization is one of the document's |
| Courses.HasSequencing | backend/routes/courses.js:89-92 | the flag: some `imsss:sequencing` or `sequencing` element below the organization; HasSequencingIff states it as the existence of such a descendant |
| Courses.HasSequencingIff | backend/routes/courses.js:90-92 | the flag is true iff some descendant of the organization is `imsss:sequencing` or `sequencing` |
| Courses.SequencingAtAnyDepth | backend/routes/courses.js:90-92 | a sequencing element nested at any depth below the organization sets the flag |
| Courses.FilterRef | backend/routes/courses.js:95 | keeps exactly the items with a non-empty identifierref, never more than it was given; order and repetitions are in FilterRefAppend |
| Courses.FilterRefAppend | backend/routes/courses.js:95 | `filter` splits over concatenation, and keeps a single item exactly when it has a reference, so order and multiplicity are preserved |
| Courses.ScoItems | backend/routes/courses.js:95 | the items with a reference among the organization's `item` descendants; membership is in ScoItemsAre, document order in LaunchableAppend and LaunchableTree |
| Courses.ScoItemsAre | backend/routes/courses.js:95 | the launchable items are exactly the organization's `item` descendants with a non-empty identifierref |
| Courses.LaunchableAppend | backend/routes/courses.js:95 | the launchable items below siblings a + b are those below a followed by those below b |
| Courses.LaunchableTree | backend/routes/courses.js:95 | in a subtree, the root comes first when it is a referencing item, followed by the launchable items below it (pre-order) |
| Courses.TitleOf | backend/routes/courses.js:99-100 | the title is never empty and has no white space at its ends; its value is in TitleIsFirstTitle |
| Courses.TitleIsFirstTitle | backend/routes/courses.js:99-100 | the title is "Untitled" when the item has no `title` descendant; otherwise it is the trimmed text of the first `title` in document order, or "Untitled" when that trims to nothing |
| Courses.ScoOf | backend/routes/courses.js:97-105 | one SCO: the item's identifier and title, the launch URL `/uploads/<folder>/<href>` and the resource's scormType; BuildScosEntries places it at the item's position |
| Courses.BuildScos | backend/routes/courses.js:96-107 | the `map` over the launchable items, failing as a whole on a reference the index lacks; stated by BuildScosDefined and BuildScosEntries |
| Courses.BuildScosDefined | backend/routes/courses.js:96-107 | the SCO list exists iff every item's reference is in the index |
| Courses.BuildScosEntries | backend/routes/courses.js:96-106 | an existing list has one entry per item, in the items' order, each built from the item and its indexed resource |
| Courses.ResolveManifest | backend/routes/courses.js:60-114 | a parsed manifest's course, or the organization failure, or ServerError for a dangling reference; what a success holds is in ResolvedCourse and the failure in DanglingReferenceFails |
| Courses.CourseById | backend/routes/courses.js:28-119 | the course route as a function: not-found reasons, missing folder, missing manifest (400), unreadable manifest (500), else the manifest's resolution; the handler is proved equal to it by GetCourse |
| Courses.GetCourse | backend/routes/courses.js:28-119 | the handler's steps compute the course-by-id function, including every 404, 400 and 500 outcome |
| Courses.ResolvedCourse | backend/routes/courses.js:95-114 | a resolved course has, in document order, one SCO per launchable item built from that item and its resource (title, launch URL `/uploads/<folder>/<href>`), scoCount equal to their number, the sequencing flag, and the display name |
| Courses.DanglingReferenceFails | backend/routes/courses.js:101-104 | an item whose reference is missing from the index fails the whole request with no partial list |
| Xml.FilterNamed | backend/routes/courses.js:62 | keeps exactly the elements with the tag name, never more than it was given; order and repetitions are in FilterNamedAppend |
| Xml.FilterNamedAppend | backend/routes/courses.js:62 | the tag filter splits over concatenation, and keeps a single node exactly when it has the name |
| Xml.ForestAppend | backend/routes/courses.js:62 | the document order of siblings a + b is that of a, then that of b |
| Xml.ElementsByTagNameAppend | backend/routes/courses.js:62 | a tag query over siblings a + b answers the matches inside a, then those inside b |
| Xml.TreeOrder | backend/routes/courses.js:90-95 | a tag query over a subtree puts the root first when it matches, then the matches below it, in document order |
| Xml.ElementsByTagName | backend/routes/courses.js:62 | getElementsByTagName: the descendants with the tag name in document order; membership by FilterNamed, order by ElementsByTagNameAppend and TreeOrder |
| Xml.FirstNamed | backend/routes/courses.js:74 | `[0]` of a tag query is the first element with that name in document order |
| Xml.TextContent | backend/routes/courses.js:100 | textContent: the character data of every descendant in document order; TitleIsFirstTitle uses it for the title |
| Xml.ForestTransitive | backend/routes/courses.js:90-91 | whatever lies below a descendant is itself a descendant |
| Text.Split | backend/routes/courses.js:16 | at least one field, no field contains the separator, and joining the fields gives the string back |
| Text.SplitJoin | src/app/app.component.ts:28 | splitting a join of separator-free fields returns the fields |
| Text.SplitConcat | src/app/app.component.ts:28 | splitting `a + sep + b` gives the fields of a followed by those of b |
| Text.LastFieldIsTail | backend/routes/courses.js:16 | `split(sep).pop()` has no separator and is the text after the last separator, or the whole string |
| Text.FirstField | src/app/app.component.ts:34 | `split(sep)[0]` is the text before the first separator |
| Text.Trim | backend/routes/courses.js:100 | the result is a slice with only white space cut from both ends and no white space left at either end |
| Text.TrimIdempotent | src/app/app.component.ts:28 | trimming twice is trimming once |
| Text.DecimalString | backend/routes/courses.js:17 | the decimal form of n is all digits and parses back to n |
| Upload.FolderName | backend/routes/upload.js:49 | one trailing `.zip`, in any case, is removed and nothing else changes |
| Upload.StripsOneZip | backend/routes/upload.js:49 | exactly one extension is stripped even when the name before it ends in `.zip` too |
| Upload.FileCount | backend/routes/upload.js:61 | the number of non-directory entries; related to the targets by TargetsAtMostFileCount, DuplicateShrinksTargets and DistinctTargetsCount |
| Upload.Targets | backend/routes/upload.js:64-65 | a path is a target iff some file entry's path joins to it |
| Upload.ApplyEntry | backend/routes/upload.js:64-93 | one entry never removes a file or directory and changes no file except its own target; a directory entry succeeds iff mkdir -p can, and then the target and all its ancestors are directories; a file entry succeeds iff its parent can be created, its path does not end in `/`, the target can then be written and the data is non-empty, and then the target holds exactly that data |
| Upload.FileEntryOverwrites | backend/routes/upload.js:73-92 | a file entry whose target is already a file succeeds when its data is non-empty and its path does not end in `/`, and replaces that file's content, changing nothing else |
| Upload.ApplyEntries | backend/routes/upload.js:64-94 | the loop over the entries in order, stopping at the first error with what was written before it; its properties are the ApplyEntries… lemmas below |
| Upload.ApplyEntriesSucceed | backend/routes/upload.js:64-94 | entries that need no directory where a file is, or will be, and whose files are non-empty and not directories, are all written without error |
| Upload.ApplyEntriesAppend | backend/routes/upload.js:64-94 | entries are processed strictly in order: a later part starts from where an earlier part stopped, or not at all after an error |
| Upload.ApplyEntriesKeepsTree | backend/routes/upload.js:64-94 | the loop keeps the file system a well-formed tree |
| Upload.ApplyEntriesGrows | backend/routes/upload.js:64-94 | the loop never removes a file or a directory |
| Upload.UntouchedFileKept | backend/routes/upload.js:64-94 | a file no entry targets keeps its content, whether or not the loop fails |
| Upload.ApplyEntryFiles | backend/routes/upload.js:64-93 | a step that succeeds adds exactly its own target to the files, and a directory entry adds none |
| Upload.ApplyEntriesFiles | backend/routes/upload.js:64-94 | after a successful loop the files are the earlier ones plus every target |
| Upload.EmptyFileAborts | backend/routes/upload.js:88-92 | an empty file entry anywhere in the archive makes the loop fail |
| Upload.LastWriteWins | backend/routes/upload.js:75-77 | on success a path holds the content of the last entry that wrote it, and that content is non-empty |
| Upload.TargetsAtMostFileCount | backend/routes/upload.js:61 | there are at most as many distinct targets as file entries |
| Upload.DuplicateShrinksTargets | backend/routes/upload.js:61 | two file entries with the same target leave fewer targets than file entries |
| Upload.DistinctTargetsCount | backend/routes/upload.js:61 | without duplicate targets, the number of targets equals the file count |
| Upload.FilesAfterLoop | backend/routes/upload.js:97 | after a successful loop the folder's files are its earlier files plus the targets inside it |
| Upload.DuplicateEntriesFail | backend/routes/upload.js:96-102 | in a folder without files, two entries writing the same path make the extraction fail |
| Upload.PreexistingFileFails | backend/routes/upload.js:96-102 | a file already in the folder that no entry overwrites makes the recount fail when the entries land inside the folder under distinct paths |
| Upload.CleanArchiveSucceeds | backend/routes/upload.js:96-107 | a fresh folder, distinct targets inside it, a loop that completes and a ZIP that exists give success |
| Upload.Extract | backend/routes/upload.js:54-105 | the try block as a function: folder creation, archive opening, the entry loop, the recount and the unlink, each with its error; proved against TryExtract and characterised by the lemmas below |
| Upload.CompatibleArchiveSucceeds | backend/routes/upload.js:54-107 | a fresh folder, compatible entries and distinct targets inside it, and a ZIP that exists give success, with no assumption about the loop |
| Upload.ExtractKeepsTree | backend/routes/upload.js:54-105 | the try block keeps the file system a well-formed tree |
| Upload.Rollback | backend/routes/upload.js:108-112 | the catch block: remove the folder when it exists, then unlink the ZIP when it is a file; its effect is stated by FailureRollsBack |
| Upload.FailureRollsBack | backend/routes/upload.js:108-113 | after a failure nothing remains at or below the folder, the ZIP is not a file, and everything else extraction wrote stays, with the same content |
| Upload.SuccessShape | backend/routes/upload.js:100-107 | success answers folder and `/uploads/<folder>`, keeps the folder with every target, unlinks the ZIP, and the recount matched the file count |
| Upload.UploadOutcome | backend/routes/upload.js:44-115 | the whole handler as a function of the store, the saved name and the archive; proved against HandleUpload and characterised by SuccessShape, FailureRollsBack, NonZipNameFails and NoFileNoChange |
| Upload.NonZipNameFails | backend/routes/upload.js:49-55 | a saved name without `.zip` makes the folder coincide with the ZIP: mkdir fails and the rollback deletes the upload |
| Upload.NoFileNoChange | backend/routes/upload.js:45 | without a file the answer is NoFileUploaded and nothing changes |
| Upload.RemovedFolder | backend/routes/upload.js:23-27 | removeFolder as a function: rm -rf when the path exists, else no change; AfterRemove, RemoveIdempotent and RemoveAbsentIsNoOp state its effect |
| Upload.RemoveFolder | backend/routes/upload.js:23-27 | removes the path and everything below it when it exists, and otherwise changes nothing |
| Upload.CountFiles | backend/routes/upload.js:30-42 | returns the number of regular files at any depth below the directory |
| Upload.ReadEntry | backend/routes/upload.js:33-39 | one pass of countFiles' loop names an existing entry, adds the files below it or the file itself, and recurses only into a smaller subtree |
| Upload.ExtractEntry | backend/routes/upload.js:64-93 | one pass of the loop changes the file system as the entry step does and reports its error |
| Upload.TryExtract | backend/routes/upload.js:54-105 | the try block leaves the state and error that the extraction function gives |
| Upload.HandleUpload | backend/routes/upload.js:44-115 | the handler leaves the file system and answer that the upload-outcome function gives |
| FileStore.Resolve | backend/routes/upload.js:65 | path.join's segment walk: empty and `.` segments are dropped, `..` goes up but never above the root, and the rest go down; JoinName and JoinCanEscape state its effect |
| FileStore.Join | backend/routes/upload.js:65 | path.join of a folder and an entry path, by splitting the path on `/` and resolving the segments |
| FileStore.Parent | backend/routes/upload.js:73 | path.dirname: the path without its last segment, the root for the root |
| FileStore.JoinName | backend/routes/upload.js:34 | joining a plain name appends one segment |
| FileStore.JoinCanEscape | backend/routes/upload.js:65 | `path.join(dir, "../name")` lands beside the folder, not inside it |
| FileStore.AfterMkdir | backend/routes/upload.js:55 | after mkdir -p the files are unchanged, and a path is a directory exactly when it was one before or is a non-root ancestor of the path (the path included) |
| FileStore.AfterRemove | backend/routes/upload.js:25 | rm -rf leaves nothing at or below the path and everything else as it was |
| FileStore.MkdirKeepsTree | backend/routes/upload.js:68 | a successful mkdir -p keeps the tree well formed |
| FileStore.WriteKeepsTree | backend/routes/upload.js:77 | a successful write keeps the tree well formed |
| FileStore.RemoveKeepsTree | backend/routes/upload.js:25 | rm -rf keeps the tree well formed |
| FileStore.RemoveIdempotent | backend/routes/upload.js:23-27 | removing a folder twice is removing it once |
| FileStore.RemoveAbsentIsNoOp | backend/routes/upload.js:24 | removing a path that does not exist changes nothing |
| FileStore.Children | backend/routes/upload.js:32 | readdir: the names of the files and directories one level below; ChildrenCoverAll and OneChild relate it to the files below |
| FileStore.PathExists | backend/routes/upload.js:24 | existsSync: the root, a file or a directory |
| FileStore.ChildrenCoverAll | backend/routes/upload.js:32-40 | every file below a directory is reached through one of its entries |
| FileStore.OneChild | backend/routes/upload.js:35-39 | an entry contributes the files below it when it is a directory, or itself when it is a file |
| FileStore.CountStep | backend/routes/upload.js:35-39 | reading one more entry adds the number of files below it when it is a directory, or one when it is a file |
| FileStore.SubdirSmaller | backend/routes/upload.js:36 | a subdirectory has strictly fewer directories below it, so the recursion ends |
| FileStore.FileSystem.Mkdir | backend/routes/upload.js:55 | succeeds iff no ancestor of the path, nor the path itself, is a file, and then makes them all directories |
| FileStore.FileSystem.WriteFile | backend/routes/upload.js:76-86 | succeeds iff the path is not the root or a directory and its parent is a directory, and then holds exactly the data |
| FileStore.FileSystem.Remove | backend/routes/upload.js:25 | the state becomes the rm -rf state |
| FileStore.FileSystem.Unlink | backend/routes/upload.js:105 | succeeds iff the path is a file, and then removes only it |
| UploadForm.Patterns | src/app/app.component.ts:28 | one pattern per comma-separated field, each trimmed |
| UploadForm.Matches | src/app/app.component.ts:32-38 | one pattern: a `/*` pattern is a prefix test on the text before its first `/`; another must equal the type, and `application/zip` also takes `application/x-zip-compressed`; WildcardIsPrefixTest shows its reach |
| UploadForm.AnyMatches | src/app/app.component.ts:31 | `some`: some pattern matches; AnyMatchesAppend relates it to concatenation |
| UploadForm.IsValidType | src/app/app.component.ts:28-39 | the accept list, split and trimmed, has a matching pattern; AcceptListUnion, SinglePattern and DefaultAcceptsZip characterise it |
| UploadForm.Validate | src/app/app.component.ts:41-59 | the first failing check, or none; stated by ValidationVerdicts and DefaultBounds, and proved against HandleUploadFile |
| UploadForm.ValidationVerdicts | src/app/app.component.ts:41-59 | invalid type first, then too large, then too small; each verdict exactly when its check is the first to fail; both bounds accepted |
| UploadForm.DefaultBounds | src/app/app.component.ts:17-18 | with the defaults nothing is too small and every valid file up to 6 MiB passes |
| UploadForm.AnyMatchesAppend | src/app/app.component.ts:31 | `some` over two lists is `some` over either |
| UploadForm.TrimAllAppend | src/app/app.component.ts:28 | trimming each pattern commutes with concatenating lists |
| UploadForm.AcceptListUnion | src/app/app.component.ts:28-39 | a list `a,b` accepts exactly what a or b accepts |
| UploadForm.SinglePattern | src/app/app.component.ts:28-39 | a single comma-free, untrimmed pattern accepts exactly what the pattern matches |
| UploadForm.DefaultAcceptsZip | src/app/app.component.ts:16 | the default list accepts exactly `application/zip` and `application/x-zip-compressed` |
| UploadForm.WildcardIsPrefixTest | src/app/app.component.ts:33-36 | example: a wildcard is a bare prefix test: `image/*` accepts `imagery/x` and `image` but not `text/image` |
| UploadForm.AppComponent.constructor | src/app/app.component.ts:15-18 | no error, accept list `application/zip`, maximum 6·1024·1024, minimum 0 |
| UploadForm.AppComponent.HandleUploadFile | src/app/app.component.ts:27-71 | a failed check sets its error and sends nothing; a pass sends the file and leaves the error as it was |
| UploadForm.AppComponent.UploadSucceeded | src/app/app.component.ts:62-65 | the course list is fetched again and nothing else changes |
| UploadForm.AppComponent.UploadFailedCallback | src/app/app.component.ts:66-69 | the error becomes upload-failed and nothing else changes |
| ScormApi.Read | src/app/services/scorm-api.service.ts:20-27 | getValue on a state: "false" before Initialize, the kept navigation request, else the stored value or ""; its properties are ClosedRefuses, WriteThenRead, WriteLeavesOthers and UnsetReadsEmpty |
| ScormApi.Write | src/app/services/scorm-api.service.ts:29-39 | setValue on a state: refused before Initialize, the navigation request kept apart, else stored; its properties are WriteThenRead, WriteLeavesOthers and NavRequestHeldApart |
| ScormApi.ClosedRefuses | src/app/services/scorm-api.service.ts:20-30 | while not initialized, reads and writes answer "false" and a write changes nothing |
| ScormApi.WriteThenRead | src/app/services/scorm-api.service.ts:29-38 | an initialized write answers "true" and reads back the written value |
| ScormApi.WriteLeavesOthers | src/app/services/scorm-api.service.ts:31-36 | a write changes no other element's reading |
| ScormApi.NavRequestHeldApart | src/app/services/scorm-api.service.ts:31-36 | `adl.nav.request` never reaches cmiData, other elements never reach it, and another write adds exactly its own key |
| ScormApi.UnsetReadsEmpty | src/app/services/scorm-api.service.ts:26 | an element never written reads as "" |
| ScormApi.EntryName | src/app/services/scorm-api.service.ts:58-78 | each facade's property name for each of the eight functions; EntryNamesDistinct shows they are distinct |
| ScormApi.EntryOf | src/app/services/scorm-api.service.ts:58-78 | a found name is that function's property name; a name not found belongs to no function |
| ScormApi.EntryNamesDistinct | src/app/services/scorm-api.service.ts:58-78 | every facade name finds its own function |
| ScormApi.Dispatch | src/app/services/scorm-api.service.ts:58-78 | what each facade function does: the five service calls and the three fixed error answers; NoErrorEver and TerminateKeepsData state it |
| ScormApi.CallByName | src/app/services/scorm-api.service.ts:57-82 | calling a facade property by name, or nothing for a name the facade lacks; proved against Invoke, and FacadesAgree relates the two facades |
| ScormApi.FacadesAgree | src/app/services/scorm-api.service.ts:57-78 | the 1.2 and 2004 names of a function do the same thing |
| ScormApi.NoErrorEver | src/app/services/scorm-api.service.ts:64-76 | GetLastError answers "0" and GetErrorString "No error" in any state, changing nothing |
| ScormApi.TerminateKeepsData | src/app/services/scorm-api.service.ts:41-51 | terminate closes the store but keeps cmiData, readings return after re-initializing, and commit changes nothing |
| ScormApi.SessionTrace | src/app/services/scorm-api.service.ts:20-38 | example: a write before initialize is refused; after it the value is stored and read back |
| ScormApi.ScormApiService.constructor | src/app/services/scorm-api.service.ts:9-11 | empty cmiData, not initialized, no navigation request |
| ScormApi.ScormApiService.Initialize | src/app/services/scorm-api.service.ts:13-18 | sets initialized and answers "true", changing nothing else |
| ScormApi.ScormApiService.GetValue | src/app/services/scorm-api.service.ts:20-27 | answers the reading of the element in the current state |
| ScormApi.ScormApiService.SetValue | src/app/services/scorm-api.service.ts:29-39 | changes the state and answers as the write function says |
| ScormApi.ScormApiService.Commit | src/app/services/scorm-api.service.ts:41-46 | answers "true" and changes nothing |
| ScormApi.ScormApiService.Terminate | src/app/services/scorm-api.service.ts:48-51 | clears initialized, keeps cmiData and the navigation request, and answers "true" |
| ScormApi.ScormApiService.GetCmiData | src/app/services/scorm-api.service.ts:53-55 | returns the current store |
| ScormApi.ScormApiService.Invoke | src/app/services/scorm-api.service.ts:57-82 | a call by name on either facade does what that function does; an unknown name changes nothing |

## Left out

- XML text parsing (xmldom `DOMParser`) is not modelled. The model takes the parsed tree, or "unreadable" for a read or parse failure, which answers 500.
- Existence checks on disk (courses.js `existsSync`) are inputs: the set of present folders and the map of manifests.
- The `readdir` of the upload root in both course routes is not modelled, nor its failure (answer 500). The folder list is a given sequence.
- HTTP status codes, JSON bodies and Express routing are not modelled. Outcomes are closed result datatypes.
- multer storage and the `Date.now()` prefix of the saved name are not modelled: the saved name is an input. The module-level creation of the upload root is not modelled either.
- unzipper decompression and stream events are not modelled. Entry contents are bytes that are already available. A read error on the decompression stream is not modelled, because the handler does not listen for it.
- Upload.CountFiles: `readdir`'s entry order is an arbitrary choice from the set of names. The count does not depend on it.
- Only regular files and directories are modelled. Symbolic links and other node kinds (which `countFiles` would count as files) are not.
- Paths are sequences of Unicode strings. Backslash separators and the file system's own name limits are not modelled.
- Logging, `alert`, xAPI statements (`xapi.service.ts`) and the assignment of the facades to `window` are not modelled.
- ScormApi.ScormApiService.Initialize: the xAPI "launched" statement it sends is not modelled.
- ScormApi.ScormApiService.Commit: the xAPI "set_value" statement it sends is not modelled.
- ScormApi.ScormApiService.GetCmiData: returns a value. The live object reference, through which a caller could mutate the store, is not modelled.
- ScormApi.Read: keys inherited from `Object.prototype` (such as `toString`), which the real object would return as functions, are not modelled.
- UploadForm.AppComponent.HandleUploadFile: errors are recorded by kind. The message text, including the floating-point MB/GB formatting, is not modelled.
- The upload service's HTTP request is not modelled. The component records the files it hands over, and the two callbacks are separate methods.
- `getManifestFile`, `ngOnInit`, `onFileChange`, `selectCourse`, `backend/server.js`, the HTTP wrapper services and the player component are not part of this model.
- Courses.NumericLookup: `parseInt` is unbounded here. Ids beyond 2^53, where JavaScript numbers lose precision, are not modelled.
- Strings are sequences of Unicode scalar values, not UTF-16 code units.
- File-system failures other than the structural ones are not modelled: permissions, a full disk and I/O errors. mkdir, write and unlink fail only where the tree forbids them.
- Upload.RemoveFolder and Upload.Rollback: `rm` and the ZIP `unlink` in the catch block are assumed to succeed whenever their guard holds. A rejection of `rm` would escape the handler and is not modelled.
- Requests are modelled one at a time. Two uploads or course requests that interleave at an `await` are not modelled.
