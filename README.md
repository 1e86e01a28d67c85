# toolbox core in Dafny

A verified model of three pieces of the Go `toolbox` library:

- **Log rotation** (`log/rotation/rotator.go`). A `Rotator` is an `io.Writer`
  that appends to a live log file. Before a write that would take the file past
  `maxSize`, it retires the file into a backup chain: `path-1` is the newest
  backup and `path-maxBackups` the oldest. Modelled in `rotator.dfy` (module
  `Rotation`): a `Rotator` class whose fields change in place, the options
  applied by `New`, and the rotation. The rotation is stated twice: as the
  code performs it (one remove, then renames in decreasing index order) and
  key by key. A lemma proves the two agree.
- **Localization** (`i18n/localization.go`). Translation tables per language,
  and a language hierarchy: `en_us.utf8` falls back to `en_us`, then `en`.
  The hierarchy is memoized in `hierMap`. `Text` does a first-match lookup
  with fallback languages, and `load` parses `.i18n` files made of
  `k:"…"` / `v:"…"` lines. Modelled in `localization.dfy` (module `I18n`):
  a `Catalog` class holds `langMap` and `hierMap`. The pure parts (hierarchy,
  lookup, one pass of the read loop) are functions with their properties
  proved. A round-trip lemma shows that a file written as quoted pairs loads
  back into exactly its table.
- **Atomic save** (`xio/fs/safe/file.go`). A `File` writes to a temporary file
  next to the destination. `Commit` renames it onto the destination, and
  `Close` without a commit discards it. Modelled in `safe_file.dfy` (module
  `Safe`), with Go's `filepath.Clean` in `filepath.dfy` (module `FilePath`).

The operating system is the class `Os.FileSystem` in `os.dfy`: a map from file
names to byte sequences. Any of its calls may fail. The model does not decide
which calls fail: each call chooses for itself. So every property below holds
for every pattern of failures. Each call also appends its operation and its
outcome to a ghost log of calls. This lets the contracts say which calls an
operation made, in what order, and which failure its error came from. A missing name is always reported as "does not
exist", which is what `os.IsNotExist` tests for. `wrappers.dfy` holds `Option`.

## Model

| member | source | states |
|---|---|---|
| Rotation.ApplyOptionsFirstFailure | log/rotation/rotator.go:29-33 | applying the options fails with error e exactly when some option fails with e on the settings left by the options before it, and all of those succeeded; so the error is the first failing option's |
| Rotation.ApplyOptionsAppend | log/rotation/rotator.go:29-33 | applying a + b is applying a, then b to its result, and a failure in a skips b |
| Rotation.New | log/rotation/rotator.go:23-35 | on failure: no rotator, plus the error of the option fold; otherwise a fresh rotator whose settings are the options applied in order over the defaults, with no open file and size 0 |
| Rotation.Rotator.constructor | log/rotation/rotator.go:24-28 | the new rotator has the given settings, no open file and size 0 |
| Rotation.ShiftAt | log/rotation/rotator.go:109-119 | after the renames from maxBackups down to i + 1, every name holds the content of its origin, and the slot just vacated is empty: the decreasing order never overwrites a backup before it has moved |
| Rotation.RotateResultIsRotation | log/rotation/rotator.go:101-126 | the files left by a successful rotate are a rotation: path is a fresh empty file; path-j holds what path-(j-1) held, with path-1 taking path's content; the old oldest backup is gone; and no other name changes |
| Rotation.RotatedBackup | log/rotation/rotator.go:109-119 | path-j after a rotation holds what path-(j-1) held before it |
| Rotation.RotateEachBackups | log/rotation/rotator.go:66-70 | after any run of rotations, path-j holds what the live file held just before the j-th most recent rotation |
| Rotation.RotateEachShifts | log/rotation/rotator.go:66-70 | a backup that m rotations cannot push past path-maxBackups moves up by exactly m slots |
| Rotation.Rotator.Write | log/rotation/rotator.go:38-77 | opens or creates the live file when no handle is open. When size + len(b) exceeds maxSize it rotates first, and then the payload lands whole in the fresh file. Otherwise the payload is appended to the current file. n <= len(b); a short write carries an error; size grows by exactly n. When no handle ends up open, nothing was written and the files are unchanged or partly rotated. With a handle open at the end, the error is set exactly when the write was short. The logged calls stop at the first failure other than a missing file or backup, and the error is that failure, wrapped. Without a handle the first call is the stat, and a stat failure other than "does not exist" ends the write there with n = 0, an error, no handle and the files unchanged. A write that stops before the write call itself (a failed stat, MkdirAll, create, reopen or rotation) returns n = 0, an error and no handle. A successful write's last call is the write, succeeding |
| Rotation.Rotator.Prepare | log/rotation/rotator.go:41-70 | the open step, then the rotation when the payload would overflow. Its calls stop at the first failure other than a missing file or backup, with that error, wrapped. On success a handle is open, on the opened files or on their exact rotation. On failure no handle is open, and the files are unchanged or partly rotated |
| Rotation.Rotator.Open | log/rotation/rotator.go:41-63 | the stat comes first. A missing file leads to MkdirAll, then to Create only if MkdirAll succeeded, and then to a handle and size 0. An existing file is reopened for appending, with its length as the size. Any other stat failure stops at that one call. Every failure but the stat's "does not exist" stops the open, with that error wrapped; the error is nil exactly when the last call succeeded. On failure no handle is open and the files are unchanged |
| Rotation.Rotator.Append | log/rotation/rotator.go:71-76 | one write call: the first n bytes of b are appended to the live file and size grows by n. The error is that call's failure, wrapped, and it is set exactly when the write was short |
| Rotation.Rotator.Close | log/rotation/rotator.go:80-91 | afterwards no handle is open, and the files and size are unchanged. Without a handle it succeeds and makes no call. With one it makes exactly one call, the close, and the error is that close's failure wrapped: nil exactly when the close succeeded |
| Rotation.Rotator.Rotate | log/rotation/rotator.go:93-128 | on success: a fresh empty handle on path, size 0, and the files are exactly the rotation of the files before. On any failure: no handle is open, and the files are the starting files or a prefix of the remove-and-rename sequence. The logged calls: an open handle is closed first, and a failed close stops the rotation right there, with that error wrapped and the files unchanged. Every later call but the last either succeeded or failed only because its name was missing. The rotation fails exactly when the last call failed otherwise, with that error wrapped; on success the last call is the create |
| Rotation.Rotator.Renew | log/rotation/rotator.go:101-127 | the rotation after the handle is closed: on success a fresh empty handle on path with the files exactly rotated, otherwise no handle and a partial rotation. It stops at the first failure that is not a missing name, and that error, wrapped, is the result |
| Rotation.Rotator.Retire | log/rotation/rotator.go:101-120 | the remove and the renames: when all of them succeed or miss their source, the files are the retired files (path removed without backups, or the chain shifted up one slot). Otherwise the files are a prefix of that sequence, and the error is the first failure that is not a missing name, wrapped |
| I18n.LastSepSpec | i18n/localization.go:113 | the index of the last '.' or '_', or -1 exactly when there is none |
| I18n.HierarchyShape | i18n/localization.go:102-121 | the hierarchy starts with the language, and each entry is the previous one cut at its last separator. The last entry has no separator, and there is one entry per separator plus one |
| I18n.Truncations | i18n/localization.go:109-118 | the truncation loop collects exactly the hierarchy: the language, then each cut at its last separator, until no separator is left |
| I18n.Catalog.Hierarchy | i18n/localization.go:102-121 | returns the hierarchy of the lower-cased language, whether from the memo or from the truncation loop. The memo then maps that language to it, and every memo entry stays the hierarchy of its key |
| I18n.LookupIn | i18n/localization.go:91-100 | the translation from the first language in the list whose table holds the text, or "" when no table does |
| I18n.Catalog.Find | i18n/localization.go:91-100 | the lookup loop over the memoized hierarchy returns what LookupIn specifies for the language's hierarchy |
| I18n.FirstTranslation | i18n/localization.go:79-88 | the first non-empty lookup among the candidate languages, or the text itself when every lookup is empty |
| I18n.Text | i18n/localization.go:79-88 | the lookup for the current language when it is non-empty; otherwise the first non-empty lookup among the fallback languages; otherwise the text unchanged |
| I18n.Catalog.Translate | i18n/localization.go:79-88 | the fallback loop returns what Text specifies; the memo only gains hierarchies of the languages it looked up |
| I18n.Catalog.Load | i18n/localization.go:123-159 | a file that could not be opened changes nothing. Otherwise the table read from the file is registered under the lower-cased name without ".i18n", and the result is what the read loop reported |
| I18n.ReadTable | i18n/localization.go:128-153 | the read loop yields the table and the reports of folding one pass per line over the content |
| I18n.SplitLines | i18n/localization.go:133-152 | the lines read are exactly the content: each line but the last ends with its only newline, and the last line has no newline |
| I18n.ParseFromLines | i18n/localization.go:131-153 | reading the content line by line is the same as folding the loop body over its split lines |
| I18n.StepKeyLine | i18n/localization.go:136-142 | a k: line reports a key still pending, makes its unquoted text the pending key and records its line number, and leaves the table alone |
| I18n.StepValueLine | i18n/localization.go:143-149 | a v: line with no pending key is reported and ignored. With a key pending, a non-empty value is stored under it and clears it, while an empty or malformed value stores nothing and leaves the key pending |
| I18n.StepOtherLine | i18n/localization.go:135-149 | any other line only advances the line number |
| I18n.ParseIgnoresCount | i18n/localization.go:133-149 | line numbers and reports never affect what is stored: from the same table and pending key, the same lines end in the same table and pending key |
| I18n.OtherLineIgnored | i18n/localization.go:135-149 | a line that is neither a k: nor a v: line, inserted anywhere among a file's lines, changes neither the loaded table nor the key left pending |
| I18n.ExtractIgnoresSpace | i18n/localization.go:161-168 | white space around the quoted text after the two-character prefix does not matter: the line extracts as the prefix followed directly by the text would. The result is the unquoted text with no report when it unquotes, and otherwise "" with exactly one report naming the part and the line |
| I18n.TrimSpaceExact | i18n/localization.go:162 | TrimSpace removes exactly the white space around text that has no white space at either end |
| I18n.TrimLeftDrops | i18n/localization.go:162 | TrimLeft removes exactly the longest all-space prefix |
| I18n.TrimRightDrops | i18n/localization.go:162 | TrimRight removes exactly the longest all-space suffix |
| I18n.ParseStoresNoEmpty | i18n/localization.go:139-148 | the read loop never stores an empty key or an empty translation |
| I18n.ReadTableNoEmpty | i18n/localization.go:128-153 | a loaded table holds no empty key and no empty translation |
| I18n.ParseRendered | i18n/localization.go:133-149 | parsing k:/v: pairs stores each pair in order and reports nothing, and leaves no key pending |
| I18n.LoadRendered | i18n/localization.go:123-168 | a file written as quoted k:/v: lines, with the quoting inverted by the unquoting, loads back into exactly its pairs (a later pair for a key wins) with no reports |
| FilePath.Split | xio/fs/safe/file.go:33 | the parts between separators contain no separator, and there is at least one part |
| FilePath.SplitJoin | xio/fs/safe/file.go:33 | joined back with single separators, the parts of any path give exactly that path |
| FilePath.ResolveAllElements | xio/fs/safe/file.go:33 | Clean keeps only non-empty, separator-free elements other than ".", and a rooted path never keeps ".." |
| FilePath.JoinEnds | xio/fs/safe/file.go:33 | the elements joined with separators are empty only when there are no elements, and otherwise neither start nor end with a separator |
| FilePath.CleanShape | xio/fs/safe/file.go:33-34 | a cleaned path is never empty. It starts with the separator exactly when the path did, and it ends with the separator only when it is the root "/" |
| Safe.RejectedIsRoot | xio/fs/safe/file.go:33-36 | the check on the cleaned name, empty or ending with the separator, rejects exactly the names that clean to "/" |
| Safe.CreateWithMode | xio/fs/safe/file.go:26-54 | a rejected name gives ErrInvalid with no file. Otherwise either a create error, or a fresh file whose original name is the cleaned name and whose fresh, empty temporary file was not there before. Any error leaves the file system unchanged. A rejected name makes no call; otherwise exactly one call is made, the create, with the error as its outcome |
| Safe.File.constructor | xio/fs/safe/file.go:50-53 | the new file holds the given names and neither flag is set |
| Safe.File.OriginalName | xio/fs/safe/file.go:57-59 | the cleaned name given at creation, which is neither empty nor the root |
| Safe.File.Commit | xio/fs/safe/file.go:63-86 | a committed file gives nil and no change; a closed, uncommitted one gives ErrInvalid and no change. Otherwise both flags are set whatever happens, and the error is the sync error, else the close error, else the rename error, never the clean-up remove's. Success means the temporary file was renamed onto the original name and nothing else changed. After a failure the temporary file is removed, or the remove failed and the files are unchanged; the original name is untouched. The logged calls, with the ghost outcomes: sync, then close, then the rename only when both succeeded, then the remove only when there is an error. A committed or closed file makes no call |
| Safe.CommitRename | xio/fs/safe/file.go:76-79 | the successful rename gives the original name the temporary file's content, whatever it held before; the temporary name is gone and nothing else changes |
| Safe.File.Close | xio/fs/safe/file.go:90-103 | after a commit: nil and no change. A second close: ErrInvalid and no change. Otherwise the file is marked closed, and the error is the close error, else the remove error. The temporary file is gone when the remove succeeded, and otherwise the files are unchanged. The original name is never touched. The logged calls are the close and then the remove, with the ghost outcomes; after a commit or a close no call is made |

## Left out

- Locking (`Rotator.lock`, `hierLock`) and `sync.Once`: the model is sequential.
- Directory discovery in `Text` (`os.Executable`, symlinks, `ReadDir`, the loop that calls `load` for each `.i18n` file): `Catalog.Load` takes the file name and its content (None when the open failed), and `Text`'s language globals are parameters.
- Logging: what `load` and `extract` log is returned as `Report` values; the `Log.Error` of a failed file close in `load` is not modelled.
- `bufio` read errors: `load` stops at a read error as at end of file, and the model takes the content read so far as the whole content.
- `strconv.Unquote` is an abstract partial function parameter; the round trip assumes a quoting function it inverts.
- I18n.Lower: `strings.ToLower` is modelled on ASCII letters only.
- File content, file names and `strings.TrimSpace` work on Dafny strings, i.e. decoded Unicode characters; Go works on byte strings and decodes UTF-8. The content of an `.i18n` file is taken as already-decoded text, so invalid UTF-8 is not represented.
- I18n.Catalog.Load: the source registers the empty table before the read loop and fills it in place through the shared Go map; the model registers the finished table after the loop, which no caller can tell apart because nothing reads `langMap` while a file loads.
- `DefaultPath`, `DefaultMaxSize` and `DefaultMaxBackups` are a `defaults` parameter of `New`; options are functions from settings to settings or an error.
- Rotation.Rotator.Write: `size` and `maxSize` are unbounded integers, so `int64` overflow of `size + len(b)` is not modelled.
- File names of the rotator are the datatype `LogName` (`path`, `path-i`, others), so the names `fmt.Sprintf` builds are assumed distinct; directories and `MkdirAll`'s effect are not modelled (it can only fail).
- Errors are tags: `errs.Wrap` is the `Wrapped` constructor, and an OS error records only its operation and whether the name was missing or present.
- `ioutil.TempFile` naming and retries, `Chmod`, the mode argument and the `runtime.GOOS` branch: the temporary name comes from a `tempId` parameter. When that name is taken, the exclusive create fails with an "exists" error, where `ioutil.TempFile` would retry under another name.
- Safe: methods of the embedded `*os.File` other than `Sync`, `Close` and `Name` (writes to the temporary file go through the file system directly).
- FilePath.Clean follows Unix rules only (separator `/`); Windows volume names are not modelled.
- xio/network/xhttp/basic_auth.go is not part of this model.
