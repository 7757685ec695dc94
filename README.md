# backuptool: assembling the backup archive

This project models how `backup run` builds its backup archive. It covers:

- how one configured directory is walked into a nested ZIP archive (`zipDir`, `addFiles`, `addFile`);
- how the outer archive is assembled: `backup.conf` first, then one nested archive per configured directory, in the configured order (`createTotalZipFile`, `addConfig`);
- how the names are made: the nested archive's entry name (`folderZipName`) and the output file's name (`createTotalFileName`).

The file system is an immutable in-memory tree (`FileTree.Node`). Each directory can or cannot be listed; `FileTree.ReadDir` stands in for `ioutil.ReadDir` and yields the children of a listable directory. Each file can be read in full, cannot be opened, or breaks off after some bytes. A ZIP writer is a class whose state is the ordered list of entries added so far (`Archive.ZipWriter`). A ShouldInclude rule is a function on the path, supplied with each configured directory. The clock reading is a `DateTime` record.

The walk is specified twice:

- `Walk.WalkDir`/`Walk.WalkList` follow the code branch for branch. The methods `AddFiles`, `AddFile` and `ZipDir` are proved to match them.
- `WalkFacts.Planned` is an independent reference. It gives the entry of every accepted, openable file below a directory, in depth-first pre-order. The lemmas in `WalkFacts` relate the walk to it.

The walk's error handling is easy to misread:

- An error in a file the rule accepts ends the listing of that directory.
- The error returned by a subdirectory's walk is dropped.
- `zipDir` drops the walk's error altogether.

As a result, a configured directory always yields a nested archive, possibly a partial one. The outer archive fails only when its output file cannot be created or written.

## Model

| member | source | states |
|---|---|---|
| Archive.ZipWriter.constructor | src/parsecsreach.com/backuptool/cmd/backup/run.go:125 | a new writer has no entries and is open |
| Archive.ZipWriter.Add | src/parsecsreach.com/backuptool/cmd/backup/run.go:169-176 | creating an entry and copying into it appends exactly one entry with that name and content; earlier entries are unchanged and duplicate names are not detected |
| Archive.ZipWriter.Close | src/parsecsreach.com/backuptool/cmd/backup/run.go:129-132 | closing keeps the entries and fails (with a flush error) exactly when the sink rejects writes |
| FileTree.FindChildSpec | src/parsecsreach.com/backuptool/cmd/backup/run.go:139-142 | resolving one path segment finds nothing exactly when no child has that name; otherwise it finds the first child with that name |
| Naming.Base | src/parsecsreach.com/backuptool/cmd/backup/run.go:119 | path.Base: "." for the empty path, "/" for slashes only, otherwise the last segment; its properties are in BaseShape, BaseOfAppended and FolderZipNameIsLastSegment |
| Naming.FolderZipName | src/parsecsreach.com/backuptool/cmd/backup/run.go:118-120 | folderZipName: path.Base of the directory plus ".zip"; its properties are in FolderZipNameIsLastSegment and FolderZipNameIsNotConfigName |
| Naming.FormatInt | src/parsecsreach.com/backuptool/cmd/backup/run.go:113 | one numeric field of the layout, zero-padded to its width with the sign first; read back by FormatIntRoundTrip |
| Naming.Timestamp | src/parsecsreach.com/backuptool/cmd/backup/run.go:113 | time.Format with layout 2006-01-02T15-04-05; read back by TimestampRoundTrip |
| Naming.TotalFileName | src/parsecsreach.com/backuptool/cmd/backup/run.go:112-116 | createTotalFileName: local folder, "backup_", time stamp, ".zip"; read back by TotalFileNameRoundTrip |
| Naming.BaseShape | src/parsecsreach.com/backuptool/cmd/backup/run.go:119 | path.Base is never empty, and is either "/" or free of slashes |
| Naming.SegmentsOfJoinPath | src/parsecsreach.com/backuptool/cmd/backup/run.go:145 | splitting the absolute path "/s1/.../sn" joined from proper segments gives back those segments, so an absolute, clean path and its segments carry the same information |
| Naming.BaseOfAppended | src/parsecsreach.com/backuptool/cmd/backup/run.go:115-119 | the base of a + b, for a segment b, is b when a is empty or ends in "/", and otherwise Base(a) + b |
| Naming.FolderZipNameIsLastSegment | src/parsecsreach.com/backuptool/cmd/backup/run.go:118-120 | for a path with at least one segment, folderZipName is the last segment plus ".zip" and contains no slash; the empty path gives "..zip", and a path of slashes only gives "/.zip", whose slash ends up in the entry name |
| Naming.FormatIntRoundTrip | src/parsecsreach.com/backuptool/cmd/backup/run.go:113 | the zero-padded decimal form of a time field reads back as the same number, negative years included |
| Naming.AfterYearRoundTrip | src/parsecsreach.com/backuptool/cmd/backup/run.go:113 | "-MM-DDTHH-MM-SS" reads back as month, day, hour, minute and second |
| Naming.TimestampRoundTrip | src/parsecsreach.com/backuptool/cmd/backup/run.go:113 | the time stamp in layout 2006-01-02T15-04-05 reads back as the same date and time |
| Naming.TimestampLength | src/parsecsreach.com/backuptool/cmd/backup/run.go:113 | for years 0 to 9999 the time stamp is exactly 19 characters long |
| Naming.TotalFileNameRoundTrip | src/parsecsreach.com/backuptool/cmd/backup/run.go:112-116 | the output file name is the local folder, "backup_", the time stamp and ".zip", and the time can be read back from it |
| Naming.TotalFileNameInjective | src/parsecsreach.com/backuptool/cmd/backup/run.go:112-116 | runs whose local times differ to the second write to different files of the same folder; two runs within one second (or in a repeated local hour) get the same name, and `os.Create` truncates the earlier file |
| Naming.ArchiveNameIsSegment | src/parsecsreach.com/backuptool/cmd/backup/run.go:115 | "backup_<time stamp>.zip" is a single path segment |
| Naming.ArchiveBaseName | src/parsecsreach.com/backuptool/cmd/backup/run.go:115 | the file is called "backup_<time stamp>.zip" inside the local folder only when the folder is empty or ends in "/"; otherwise its base name is the folder's last segment glued to it |
| Walk.FileStep | src/parsecsreach.com/backuptool/cmd/backup/run.go:161-178 | what addFile adds and returns; AddFile is proved against it |
| Walk.WalkDir | src/parsecsreach.com/backuptool/cmd/backup/run.go:137-143 | what addFiles adds and returns on one directory: a directory that cannot be listed yields its error; AddFiles is proved against it, and HealthyWalk, WalkWithinPlanned and WalkErrorIsOwn state what it does |
| Walk.WalkList | src/parsecsreach.com/backuptool/cmd/backup/run.go:144-158 | the loop of addFiles: early return at an accepted file's error, skipped excluded files, dropped error of each recursive call |
| Walk.WalkFrom | src/parsecsreach.com/backuptool/cmd/backup/run.go:127 | the walk zipDir starts at the configured path; the empty path cannot be listed |
| Walk.AddFile | src/parsecsreach.com/backuptool/cmd/backup/run.go:161-178 | a file that cannot be opened adds nothing and returns the open error; otherwise one entry named prefix + file name is added, holding what was copied, with the copy error if the copy broke off |
| Walk.AddFiles | src/parsecsreach.com/backuptool/cmd/backup/run.go:137-159 | the entries added and the error returned are exactly those of the walk WalkDir; this includes the early return at an accepted file's error and the dropped error of every recursive call |
| Walk.ZipDir | src/parsecsreach.com/backuptool/cmd/backup/run.go:122-135 | the buffer holds exactly the entries of the walk from the configured path, is empty for the empty path (which cannot be listed), and zipDir never reports an error |
| WalkFacts.HealthyWalk | src/parsecsreach.com/backuptool/cmd/backup/run.go:137-159 | in a tree whose directories can all be listed and whose files can all be read, the walk adds, without error, the entry of every file the rule accepts, in depth-first pre-order, and nothing else |
| WalkFacts.HealthyWalkList | src/parsecsreach.com/backuptool/cmd/backup/run.go:144-157 | the same for the loop over one listing: accepted files and whole subdirectories in listing order |
| WalkFacts.WalkWithinPlanned | src/parsecsreach.com/backuptool/cmd/backup/run.go:137-159 | in any tree, the walk's entries occur in the reference listing, in the same order and none twice |
| WalkFacts.WalkEntriesAreWanted | src/parsecsreach.com/backuptool/cmd/backup/run.go:146-150 | every entry the walk adds belongs to a file below the directory that the rule accepts and that could be opened |
| WalkFacts.HealthyFileIncluded | src/parsecsreach.com/backuptool/cmd/backup/run.go:146-150 | in a healthy tree, every file that the rule accepts gets its entry |
| WalkFacts.EntryOnlyIfAccepted | src/parsecsreach.com/backuptool/cmd/backup/run.go:146-150 | in a tree whose names are proper segments, a file whose entry the walk added is a file the rule accepts |
| WalkFacts.SameNameSamePath | src/parsecsreach.com/backuptool/cmd/backup/run.go:155-169 | in such a tree, two files whose entries have the same name lie at the same relative path |
| WalkFacts.FileIncludedIff | src/parsecsreach.com/backuptool/cmd/backup/run.go:144-157 | in a healthy tree whose names are proper segments, a file's entry is in the nested archive exactly when the rule accepts the file's full path |
| WalkFacts.RuleOnlyAtFiles | src/parsecsreach.com/backuptool/cmd/backup/run.go:146-156 | two rules that agree on every file path give the same walk; ShouldInclude is never consulted for a directory, so whether a directory is entered never depends on what the rule says about a directory's own path; it can depend on the rule's verdict on an earlier sibling file, because an accepted file that fails ends the listing (run.go:148-150) |
| WalkFacts.WalkErrorIsOwn | src/parsecsreach.com/backuptool/cmd/backup/run.go:137-159 | a walk returns only its own error: its directory cannot be listed, or one of its own files cannot be opened or copied; a subdirectory's error never reaches the caller |
| WalkFacts.WalkListAppend | src/parsecsreach.com/backuptool/cmd/backup/run.go:144-157 | the loop over a listing stops at the first accepted file that fails and nowhere else |
| WalkFacts.EntryNameSegments | src/parsecsreach.com/backuptool/cmd/backup/run.go:155 | an entry-name prefix built by appending each directory name and "/" splits back into those directory names |
| WalkFacts.WalkEntryNames | src/parsecsreach.com/backuptool/cmd/backup/run.go:169 | every entry name of a nested archive, split at its slashes, is the path of an accepted file relative to the configured directory, so the configured path is not prefixed to it |
| Compose.AddConfig | src/parsecsreach.com/backuptool/cmd/backup/run.go:180-187 | adds exactly one entry, "backup.conf", holding the serialised configuration, and never fails |
| Compose.AddDir | src/parsecsreach.com/backuptool/cmd/backup/run.go:90-105 | one round of the loop appends exactly one entry: the directory's nested archive under its folderZipName |
| Compose.CreateTotalZipFile | src/parsecsreach.com/backuptool/cmd/backup/run.go:75-110 | an output file that cannot be created, or whose sink rejects writes, stops the run with the matching fatal error; otherwise the archive written is exactly TotalArchive |
| Compose.TotalArchiveShape | src/parsecsreach.com/backuptool/cmd/backup/run.go:84-106 | the archive holds backup.conf first, then exactly one entry per configured directory, in the configured order |
| Compose.FolderZipNameIsNotConfigName | src/parsecsreach.com/backuptool/cmd/backup/run.go:118-120 | no directory's entry name can be "backup.conf" |
| Compose.NoDirNamedConfig | src/parsecsreach.com/backuptool/cmd/backup/run.go:181 | no configured directory produces an entry called "backup.conf" |
| Compose.CountInArchive | src/parsecsreach.com/backuptool/cmd/backup/run.go:89-106 | duplicate names are kept: the archive holds one backup.conf, and as many entries called n as there are configured directories whose folderZipName is n |

Two behaviours of the code deserve stating on their own:

- **Read failures are not fatal.** `zipDir` ignores the result of `addFiles` (run.go:127), and `addFiles` ignores the result of its recursive call (run.go:155). The model shows this in `WalkFacts.WalkErrorIsOwn` and `Walk.ZipDir`.
- **Duplicate names are kept.** Two configured directories with the same final segment give two entries of the same name; `zip.Writer` does not replace the first. The model shows this in `Compose.CountInArchive`.

## Left out

- `Run`, `Description` and `uploadZipFile` (run.go:22-73): configuration loading, `os.MkdirAll`, logging and the upload are I/O around the core.
- `log.Fatalln` becomes the value `Compose.Fatal(reason)`. The program does not stop, and the messages are not kept.
- `log.Println` (run.go:91) and the deferred `Close` calls on the output file and the opened files (run.go:81, 166) are not modelled. Their errors are dropped in the source.
- ShouldInclude's own logic is not modelled. It is a function supplied with each `Conf.SourceDir`.
- ShouldInclude takes the full path as its segments (`root + rel + [name]`), not as the string `path.Join` builds. `Naming.SegmentsOfJoinPath` shows that the two carry the same information for an absolute path of proper segments; a relative configured path such as "data" is resolved from the tree's root, so it cannot be told apart from "/data".
- The empty configured path cannot be listed, as in Go. The model does not treat "." and ".." specially, and has no symbolic links. Relative and absolute paths both resolve from the tree's root.
- The tree is fixed for the whole run. The output file is created (run.go:76) before any walk, so when the local folder lies inside a configured directory, Go's walk may read the partly written archive; the model cannot show this.
- `time.Now` becomes a `DateTime` parameter. The local time zone is not modelled.
- `Naming.DateTime` checks each field's range but not the number of days in a month.
- `conf.WriteConfigZip` is not part of this model. Its output is the parameter `confBytes`. Its error is ignored, as in the source.
- The ZIP byte format (headers, compression, central directory) is not modelled. An archive is its list of entries.
- `zip.Writer.Create`'s rejection of names longer than 65535 bytes is not modelled. In the model, creating an entry always succeeds.
- Compose.CreateTotalZipFile: reports a sink that rejects writes only at `w.Close` (`CannotClose`). With buffering, Go may report it earlier, at `w.Create` or `io.Copy` (run.go:97-105). That is also fatal, but the model does not tell those messages apart.
- FileTree.ReadDir: returns the children in the tree's order. Go's `ioutil.ReadDir` sorts them by name. A tree built with sorted children gives Go's order.
- `addFile`'s failure to create an entry (run.go:169-172) has no counterpart in the model, because creating an entry in an in-memory buffer cannot fail here.
- There is no concurrency: the source is sequential.
