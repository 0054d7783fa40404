# s32ftp, modelled and proved in Dafny

s32ftp is an FTP gateway over an S3 bucket. Its package `internal/s3fs` emulates a
directory tree on a flat key/value store: files are keys, directories are shared
prefixes, and `<dir>/` objects mark empty directories. No operation on that tree is a
single store call. This project models the package and proves what its paged, batched,
many-step operations come to, with any store call failing at any point.

`dafny verify dfyconfig.toml` checks everything.

## How it is laid out

| file | what it holds |
|---|---|
| `Bytes.dfy` | Go strings as byte strings, byte order, error kinds |
| `Paths.dfy` | white-space trimming, `path.Clean` as a segment stack, paths to keys |
| `CopySources.dfy` | the percent-encoded CopySource header and its decoding |
| `Buckets.dfy` | the object store: a map, paged listings, calls that may fail |
| `Views.dfy` | what each operation means in one shot when nothing fails, and the laws between them |
| `Listings.dfy` | what a directory listing is, independently of paging; Stat against ReadDir |
| `Runs.dfy` | what holds along a run of store calls: confinement, complete listings, moves that lose nothing |
| `FileSystems.dfy` | class `FS`: the operations as the program performs them, proved against `Views` and `Runs` |
| `Sessions.dfy` | whole command sequences on a view, uploads into the store, there-and-back runs, isolation between views |
| `DirHandles.dfy` | class `DirHandle`: a listing handed out in batches |
| `Uploads.dfy` | the upload handle as an interleaved protocol with a goroutine and a pipe |
| `Downloads.dfy` | class `Download`: a reopened ranged stream against a plain file |

Two devices carry most of the statements.

* **One-shot meanings.** `Views` defines, for every operation, the outcome on the whole
  bucket when no call fails (`MkdirOf`, `RemoveAllOf`, `RenameOf`, ...). The methods of
  `FS` are proved equal to them for every run in which no call reported an error and no
  batch kept a key back, and the laws (round trips, exactness, agreement of Stat and
  ReadDir) are proved about the one-shot functions; `Sessions` joins the two.
* **The trace.** `Store` records, as ghost state, the bucket after every mutating call,
  counts the calls that failed (`faults`) and the keys a batch delete silently kept
  (`refusals`). Statements about "every step" are statements about all states in the
  trace. A call that reports an error may or may not have taken effect, a failed batch
  may have been applied in part, and page breaks are the server's free choice.

Laws about paths are stated for *settled* paths, those that cleaning keeps; every path whose
segments are non-empty, not `.` or `..` and do not end in white space is one.

Strings are byte strings, so `strings.TrimSpace` is modelled on the UTF-8 encodings of
the White_Space code points, for invalid UTF-8 too. 64-bit wrap-around is modelled where
it can show (the seek target of a download, the slice bound of `Readdir`).

## What turned out not to hold everywhere

* Cleaning a path is not idempotent: `/a /` gives `/a `, which gives `/a`. The second
  cleaning changes nothing exactly when the first result does not end in white space
  (`Paths.CleanTwice`, `Paths.CleanNotIdempotent`). The documentation of the path mapping
  does not mention trimming; the code trims, and key computation cleans once more.
* A file rename keeps the body exactly when the two names still differ after a second
  cleaning, which is when their keys differ (`Views.RenameFileKeepsBody`). Distinct
  settled names always do (`Views.RenameFileDistinct`); `/a` and `/a /` do not, and
  then the object is copied onto itself and deleted (`Views.RenameFileCanLose`). A store
  that refuses to copy an object onto itself turns this into a reported failure; the store
  model allows both.
* Remove, RemoveDir, RemoveAll and Rename ask Stat about the cleaned name, which cleans it
  once more, and then act on the key of the cleaned name. The two keys are the same
  exactly when the second cleaning does not end in white space
  (`Views.LooksWhereItActs`). Remove of `/a / /` finds the file `a` and deletes the object
  `a ` (`Views.RemoveActsElsewhere`). Names for which the keys agree behave like the
  settled path they stand for (`Views.OnlyKeysMatter`, `Views.StandsForSettled`).
* Renaming a directory there and back restores the bucket exactly when no object had the
  new name's own key (`Views.RenameRoundTrip`).
* `RemoveDir` looks at two keys. That answers for the whole directory on every page the
  server may send exactly when pages are filled to two items, or there is no marker, or
  the directory is empty anyway (`Runs.TwoKeyProbe`). Otherwise a page with the marker
  alone makes it succeed and delete the marker of a directory that has other keys
  (`Runs.RemoveDirExact`); those keys stay.
* Close of an upload returns nil exactly when the uploader committed and no TransferError
  recorded an error (`Uploads.CloseAnswers`). It can therefore report an error although
  the object was replaced, if a TransferError arrives while Close waits
  (`Uploads.LateAbortDisagrees`); in every other case its answer tells whether the object
  was replaced (`Uploads.CloseTellsCommit`).
* An error recorded before Close prevents the commit, except that io.EOF recorded by a
  TransferError that has not yet closed the read side does not (`Uploads.LostExactly`).
* A name that is both file and directory is listed as a directory when both come on one
  page; an entry that an earlier page has brought stays as it is
  (`FileSystems.CollectPage`).
* `Readdir` with a count so large that offset plus count exceeds the largest 64-bit
  integer computes a negative slice bound; this is the only way out of range
  (`DirHandles.NextBatch`, `DirHandles.LargestCountWraps`).

## Model

| member | source | states |
|---|---|---|
| Paths.CleanedShape | internal/s3fs/path.go:11-27 | for every byte string the cleaned path is `/` or rooted with no empty, `.` or `..` segment |
| Paths.CleanFollows | internal/s3fs/path.go:11-27 | every segment of any path, whatever its bytes, is followed in turn from the root: empty ones and `.` stay, `..` goes to the parent, any other goes to the child |
| Paths.CleanComposes | internal/s3fs/path.go:11-27 | for all byte strings, cleaning the part before a slash first makes no difference to the whole |
| Paths.CleanDots | internal/s3fs/path.go:11-27 | `..` undoes a step to a child and stays at the root; `.` stays anywhere |
| Paths.CleanUp | internal/s3fs/path.go:11-27 | going up from a cleaned path and on is going on from its parent, whatever follows |
| Paths.CleanIgnoresSpace | internal/s3fs/path.go:12-15 | a rune of any White_Space code point before or after a path does not matter |
| Paths.SpaceRunes | internal/s3fs/path.go:12-15 | at either end of any byte string exactly the UTF-8 encodings of the White_Space code points are trimmed |
| Paths.CleanRelative | internal/s3fs/path.go:17-19 | a path that does not begin with white space cleans like the same path with a leading slash |
| Paths.SettledExactly | internal/s3fs/path.go:11-27 | the paths that cleaning keeps are exactly the cleaned ones that do not end in white space |
| Paths.WellFormedSettled | internal/s3fs/path.go:11-27 | paths with well-formed segments are settled |
| Paths.RecleanRooted | internal/s3fs/path.go:11-27 | cleaning a cleaned path keeps it exactly when it does not end in white space, and otherwise strictly shortens it |
| Paths.CleanTwice | internal/s3fs/path.go:11-27 | a second cleaning of any path changes nothing exactly when the first result does not end in white space |
| Paths.CleanSettles | internal/s3fs/path.go:11-27 | repeated cleaning of any path reaches a fixed point, after one round and at most as many more as the first result has bytes |
| Paths.CleanDropsTrailingSlash | internal/s3fs/path.go:11-27 | a trailing slash after any cleaned path, the root included, is dropped and nothing else |
| Paths.CleanNotIdempotent | internal/s3fs/path.go:11-27 | the concrete path whose second cleaning changes it |
| Paths.KeysUnderRoot | internal/s3fs/path.go:32-50 | for every path, both its keys start with the root prefix |
| Paths.DirKeyShape | internal/s3fs/path.go:32-50 | for every path, the directory key is the file key and a slash, except that the root has the prefix itself; a file key never ends in a slash |
| Paths.SettledKeys | internal/s3fs/path.go:32-50 | settled paths survive cleaning and their keys are root prefix plus joined segments |
| Paths.SameKey | internal/s3fs/path.go:32-39 | two paths of any kind have the same key exactly when they clean to the same |
| Paths.KeyInjective | internal/s3fs/path.go:32-39 | on settled paths the path-to-key map is injective |
| Paths.KeyOrder | internal/s3fs/path.go:32-50 | for settled paths, q lies strictly below p as a path exactly when q's key strictly extends p's directory key |
| Paths.LastName | internal/s3fs/fs.go:93-113 | the base name of any cleaned path is its last segment: the path is that name below its parent |
| Bytes.BelowExactly | internal/s3fs/dir.go:89-95 | names are compared by the first byte in which they differ, a proper prefix coming first |
| CopySources.CopySource | internal/s3fs/path.go:63-70 | the in-place escaping loop yields a header from which bucket and key decode back exactly |
| CopySources.HeaderRoundTrip | internal/s3fs/path.go:63-70 | splitting at the first slash and percent-decoding gives back bucket and key, for all byte strings |
| CopySources.HeaderByBytes | internal/s3fs/path.go:63-70 | escaping by segments is escaping byte by byte: kept characters and slashes of the key stay, every other byte becomes its percent triple in upper-case hexadecimal |
| CopySources.HeaderClean | internal/s3fs/path.go:63-70 | a header holds only slashes, letters, digits, `-_.~$&+:=@` and complete upper-case percent triples; what needs no escape is unchanged |
| CopySources.HeaderInjective | internal/s3fs/path.go:63-70 | distinct bucket/key pairs never share a header |
| Buckets.FillPage | internal/s3fs/dir.go:46-51 | any page the server builds is an initial run of the remaining items in byte order, rolled up at the delimiter, with a correct truncation flag and token |
| Buckets.ResumeAfter | internal/s3fs/dir.go:82-86 | resuming from a page's token leaves exactly the items not on that page or before it |
| Buckets.Store.List | internal/s3fs/dir.go:392-399 | a listing either fails or returns such a page and changes nothing |
| Buckets.Store.Copy | internal/s3fs/dir.go:371-378 | the copy acts on the key its header decodes to; a failed copy may have happened |
| Buckets.Store.DeleteBatch | internal/s3fs/dir.go:426-434 | a batch of 1 to 1000 keys; any of them may be kept, on failure or silently |
| FileSystems.FS.constructor | internal/s3fs/fs.go:33-46 | a view over a store with a root prefix that is empty or ends in a slash |
| FileSystems.FS.Stat | internal/s3fs/fs.go:74-117 | without a fault the answer is `StatOf`: file before directory before not-exist; a fault is reported |
| FileSystems.FS.PrefixHasObjects | internal/s3fs/fs.go:216-227 | a one-key page decides whether anything is under a prefix |
| FileSystems.FS.ListAllKeys | internal/s3fs/dir.go:385-413 | for any page breaks the loop ends and returns every key under the prefix exactly once |
| Runs.ListedMore | internal/s3fs/dir.go:401-409 | appending a page keeps the keys complete up to the token and without repeats, and the rest shrinks |
| FileSystems.FS.DeleteKeys | internal/s3fs/dir.go:415-438 | batches of 1 to 1000 keys cover the list; every intermediate state lacks only listed keys; without faults and refusals exactly the listed keys are gone |
| FileSystems.CollectPrefixes | internal/s3fs/dir.go:56-64 | common prefixes become directory entries, each name kept once |
| FileSystems.CollectContents | internal/s3fs/dir.go:66-80 | objects directly below the prefix become file entries, each name kept once |
| FileSystems.CollectPage | internal/s3fs/dir.go:56-80 | after a page every item seen so far is represented once and truthfully, and a directory of the page is listed as one unless an earlier page had the name |
| FileSystems.FS.ReadDir | internal/s3fs/dir.go:16-98 | for any page breaks the result is a listing: each child name exactly once, entries truthful, directories first, then by name; and if all comes on one page a name that is file and directory is listed as a directory |
| Listings.CommonItem | internal/s3fs/dir.go:56-64 | a rolled-up item is prefix, name and slash, and its name is a directory |
| Listings.ContentItem | internal/s3fs/dir.go:66-79 | a content item is the prefix itself or a file directly below it |
| Listings.ChildHasItem | internal/s3fs/dir.go:45-87 | every child name comes from some item of the listing |
| Listings.SortedIsListing | internal/s3fs/dir.go:89-97 | sorting what was collected from all items gives a listing |
| Listings.ListingUnique | internal/s3fs/dir.go:34-43 | when no name is both file and directory there is only one listing, whatever the pages |
| Listings.DirsWinUnique | internal/s3fs/dir.go:34-43 | where directories win, there is only one listing, collisions or not |
| Listings.ListingShape | internal/s3fs/dir.go:89-97 | a listing is a block of directories and then a block of files, names ascending in each |
| Listings.StatAgreesWithListing | internal/s3fs/fs.go:74-117 | the whole answer of Stat for a child, told by the children of the directory: a file with its size, else a directory, under the child's name, else not-exist |
| Listings.StatAgreesWithReadDir | internal/s3fs/dir.go:16-98 | for settled directories and well-formed names, Stat succeeds exactly for the names in any listing, and its whole answer is the listed entry when there is no collision |
| Listings.ListedNamesWellFormed | internal/s3fs/path.go:53-59 | if all key segments are well-formed, so is every listed name |
| FileSystems.FS.Mkdir | internal/s3fs/dir.go:101-143 | refines `MkdirOf`; touches only keys below the root; every fault is reported; nothing on a read-only view |
| FileSystems.FS.MkdirAll | internal/s3fs/dir.go:147-162 | refines `MkdirAllOf`; touches only keys below the root |
| Views.MkdirExactly | internal/s3fs/dir.go:101-162 | Mkdir succeeds exactly when Stat finds nothing, adds at most an empty marker, and with markers the directory is there afterwards; MkdirAll always succeeds and changes nothing where Stat finds something |
| FileSystems.FS.RemoveDir | internal/s3fs/dir.go:200-247 | refines the full emptiness check `RemoveDirOf` whenever the probe is not reached or decides; where it does not decide, the outcome is that or the deletion of the marker with success; on every run all keys but the marker stay |
| Runs.ProbePage | internal/s3fs/fs.go:215-227 | one page is empty exactly when nothing is under the prefix |
| Runs.TwoKeyProbe | internal/s3fs/dir.go:224-237 | exactly when two keys decide emptiness on every page the server may send |
| Runs.RemoveDirExact | internal/s3fs/dir.go:200-247 | deciding by one page equals deciding by the whole directory, on every page the server may send, exactly when the probe is not reached or decides; otherwise some page makes it delete the marker of a directory with other keys |
| Views.MkdirRemoveDir | internal/s3fs/dir.go:101-247 | a marker-writing Mkdir followed by RemoveDir restores the bucket |
| FileSystems.FS.Remove | internal/s3fs/dir.go:165-197 | refines `RemoveOf`, for a file on every server and for a directory whenever the probe decides; touches only keys below the root |
| FileSystems.FS.RemoveAll | internal/s3fs/dir.go:250-288 | the paged, batched removal refines deleting everything under the prefix at once |
| Views.RemoveAllSubtree | internal/s3fs/dir.go:250-288 | of all settled paths, RemoveAll of a directory removes exactly those strictly below it |
| Views.RemovedIsGone | internal/s3fs/dir.go:165-288 | after a successful removal Stat finds nothing, exactly when no file had hidden a directory |
| Views.RemoveAnswers | internal/s3fs/dir.go:165-288 | what RemoveDir, Remove and RemoveAll answer on every settled path, told by Stat and by what lies below it, and exactly which keys they take |
| FileSystems.FS.CopyKey | internal/s3fs/dir.go:370-383 | through the escaped header the copy reaches exactly the source key |
| FileSystems.FS.CopyAll | internal/s3fs/dir.go:360-365 | copies every listed key; every state on the way has all originals in place and nothing new but copies |
| FileSystems.FS.RenamePrefix | internal/s3fs/dir.go:339-367 | list, copy, delete refines moving the prefix at once; along every run with any failures each body is at its old or new key and no other key changes |
| FileSystems.FS.RenameFile | internal/s3fs/dir.go:323-337 | refines moving one object; on every run its body is at one of the two keys if they differ, and no other key changes |
| FileSystems.FS.Rename | internal/s3fs/dir.go:300-368 | refines `RenameOf` for all input paths; in every state on the way and in the one it leaves, however it ends, no body is lost and no other key has changed; confined to the root; faults reported |
| Runs.CopyStep | internal/s3fs/dir.go:360-365 | one more copy keeps every original and adds only copies |
| Runs.DeletingSafe | internal/s3fs/dir.go:360-367 | deleting any part of the originals once all copies exist loses nothing |
| Runs.MoveExact | internal/s3fs/dir.go:360-367 | copying all and deleting all is exactly the moved bucket |
| Views.PrefixesIncomparable | internal/s3fs/dir.go:339-353 | the refusals leave two prefixes of which neither extends the other, as soon as there is anything to move |
| Views.RenameAnswers | internal/s3fs/dir.go:300-368 | what Rename answers on settled paths, told by Stat, path order and what lies below the new path: a directory moves unless into itself or onto a non-empty one, a file unless onto a directory; each refusal with its error, changing nothing |
| Views.RenameDirExact | internal/s3fs/dir.go:339-367 | each key a+s becomes b+s with the same body, every other key is unchanged, the object count is conserved |
| Views.MovedBack | internal/s3fs/dir.go:355-367 | moving a prefix back restores the bucket |
| Views.RenameRoundTrip | internal/s3fs/dir.go:300-368 | after a directory rename, renaming back restores the bucket exactly when no object had the new name's own key |
| Views.RenameFileKeepsBody | internal/s3fs/dir.go:300-337 | for all names that clean differently, renaming a file moves one body and keeps it exactly when the names differ after a second cleaning; every other key is unchanged |
| Views.RenameFileDistinct | internal/s3fs/dir.go:323-337 | between distinct settled paths exactly one body moves and what was copied is not deleted |
| Views.RenameFileCanLose | internal/s3fs/dir.go:305-337 | the concrete pair of names with one key whose rename deletes the object |
| Views.OnlyKeysMatter | internal/s3fs/path.go:32-50 | for names of any kind: Mkdir, MkdirAll, RemoveDir, Remove, RemoveAll and GetHandle depend on a name only through its second cleaning and whether the first gives the root |
| Views.OnlyKeysMatterInStat | internal/s3fs/fs.go:74-117 | the same for Stat, up to the name it shows |
| Views.StatName | internal/s3fs/fs.go:93-113 | the name Stat shows is the last segment of the cleaned name |
| Views.OnlyKeysMatterInRename | internal/s3fs/dir.go:300-368 | the same for Rename, up to whether the two names clean to the same |
| Views.StandsForSettled | internal/s3fs/path.go:32-50 | exactly when a name stands for a settled path, so that the laws above hold for it |
| Views.LooksWhereItActs | internal/s3fs/dir.go:175-192 | the key an operation asks Stat about is the key it acts on exactly when the second cleaning does not end in white space |
| Views.RemoveActsElsewhere | internal/s3fs/dir.go:165-192 | the concrete name for which Remove finds one object and deletes another |
| Views.HandleExactly | internal/s3fs/fs.go:151-166 | which handle every combination of flags opens on a settled path, on which key, and when it is refused |
| Runs.ConfinedChain | internal/s3fs/dir.go:101-438 | confinement to a prefix composes over consecutive operations |
| Sessions.Perform | internal/s3fs/fs.go:57-166 | one command of any kind, an upload with any interleaving included, changes only keys below the root, with any failures, and nothing on a read-only view; without failures it leaves what the command means in one shot |
| Sessions.Upload | internal/s3fs/fs.go:151-166 | opening, any schedule of protocol steps and the commit replace exactly the object at the path's key with what the protocol stored, or change nothing; only a key below the root is touched, and none on a read-only view |
| Sessions.UploadMeaning | internal/s3fs/upload.go:36-113 | in the bucket: if Close returned nil, the key holds what the open mode keeps followed by all bytes written; if it returned an error with no TransferError, nothing has changed; it returns nil whenever nothing failed; no other key ever changes |
| Sessions.Fetch | internal/s3fs/fs.go:151-166 | a download reads the object at the path's key from the offset, or fails exactly for the root, a missing object or an offset out of range |
| Sessions.SendAndFetch | internal/s3fs/upload.go:36-151 | after an upload that was answered nil, a download of the same name has what the open mode kept and every byte written |
| Sessions.Run | internal/s3fs/fs.go:57-166 | any sequence of commands stays below the root in every state it goes through; a read-only view changes nothing; without failures the bucket is what the commands mean one after the other, wherever pages break |
| Sessions.FullPagesDecide | internal/s3fs/dir.go:224-237 | on a server that fills pages to two no command of a session can be misled by a page |
| Sessions.RenameAndBack | internal/s3fs/dir.go:300-368 | the paged, batched renames there and back leave the bucket as it was exactly when no object had the new name's own key |
| Sessions.MakeAndRemove | internal/s3fs/dir.go:101-247 | Mkdir then RemoveDir leaves the bucket as it was on every server, however short its pages |
| Sessions.ViewIsolation | internal/s3fs/path.go:32-50 | with two roots neither of which extends the other, no run on one view changes any Stat, listing or body on the other, at any step |
| DirHandles.DirHandle.constructor | internal/s3fs/file.go:22-24 | a handle with nothing loaded at offset zero |
| DirHandles.DirHandle.Seek | internal/s3fs/file.go:57-65 | only a seek to zero is accepted and it restarts the listing |
| DirHandles.DirHandle.Load | internal/s3fs/file.go:67-80 | a non-empty listing is loaded once, an empty one each time; without a fault it fails exactly with the error of Stat |
| DirHandles.NextBatch | internal/s3fs/file.go:88-103 | a batch starts at the offset, holds at most count entries, is short only at the end; the end exactly at the end; out of range exactly when offset plus count wraps |
| DirHandles.LargestCountWraps | internal/s3fs/file.go:95-100 | two entries are enough for the slice bound to wrap |
| DirHandles.DirHandle.Readdir | internal/s3fs/file.go:83-104 | answers the next batch of the loaded entries, and the offset moves by its length; it fails only on a fault or with the error of Stat, and then changes nothing |
| DirHandles.DirHandle.Readdirnames | internal/s3fs/file.go:107-119 | the names of exactly the entries Readdir hands out, none when there is no batch, and the offset moves by their number |
| DirHandles.ReadPages | internal/s3fs/file.go:67-104 | on a fresh or rewound handle, successive positive-count calls of any sizes concatenate to the listing without gaps or repeats and end after all of it |
| Uploads.StepInv | internal/s3fs/upload.go:91-261 | every atomic step of client, aborter, goroutine or pipe keeps the protocol invariant |
| Uploads.RunInv | internal/s3fs/upload.go:91-261 | the invariant holds after every run |
| Uploads.RunSettles | internal/s3fs/upload.go:115-134 | over every run the first recorded error and Close's answer never change, and once the read side is closed the end of the file is never seen |
| Uploads.CommitExact | internal/s3fs/upload.go:91-151 | over all interleavings, if Close returns nil the object is the kept prefix and then every byte given to Write, in order |
| Uploads.OwnRunsSucceed | internal/s3fs/upload.go:91-151 | over every run without a failure of the service and without TransferError no Write fails and Close answers nil, with the kept prefix and every written byte stored |
| Uploads.UploadSucceeds | internal/s3fs/upload.go:91-261 | for any chunks written one after the other there is such a run to the end |
| Uploads.CloseAnswers | internal/s3fs/upload.go:228-261 | over all interleavings, Close returns nil exactly when the uploader has committed and no TransferError has recorded an error before Close returns |
| Uploads.CloseTellsCommit | internal/s3fs/upload.go:228-261 | Close's answer tells whether the uploader committed, exactly when it is not the case that it committed and a TransferError was recorded; that case needs a TransferError under way once Close has begun; uncommitted leaves the old object |
| Uploads.LateAbortDisagrees | internal/s3fs/upload.go:228-261 | the run in which a late TransferError makes Close report an error for a committed object |
| Uploads.AbortHolds | internal/s3fs/upload.go:115-151 | if a Write failed or a TransferError returned before Close, the goroutine never sees the end of the file, the object never changes, and Close reports the first recorded error |
| Uploads.LostExactly | internal/s3fs/upload.go:228-261 | at any moment before Close, the upload can still commit exactly when the read side is open, the goroutine has not failed and no error but io.EOF is recorded |
| Uploads.TransferErrorReturns | internal/s3fs/upload.go:228-241 | TransferError never blocks and leaves an error recorded and both sides of the pipe closed |
| Uploads.WriteReports | internal/s3fs/upload.go:137-151 | a failing Write reports the error the read side was closed with, or a closed pipe if the write side was closed too |
| Uploads.SeekStays | internal/s3fs/upload.go:169-195 | an accepted Seek never moves the stream |
| Uploads.NeverStuck | internal/s3fs/upload.go:91-151 | while a Write or Close is in progress, client or goroutine can take a step that is neither a failure nor a TransferError |
| Uploads.CallReturns | internal/s3fs/upload.go:91-261 | from every reachable state the Write or Close in progress can return within seven steps of client and goroutine, none of them a failure; Close then has its answer, and nil if nothing failed before either |
| Uploads.CloseReturns | internal/s3fs/upload.go:244-261 | in every run after Close has begun to wait, with any failures and TransferErrors, the goroutine takes at most prefixLen + 5 steps, always has one that needs no failure until it is done, and then Close can return |
| Uploads.UploadResult | internal/s3fs/upload.go:36-113 | STOR replaces, APPE appends, REST keeps the bytes before the offset; then everything written follows |
| Uploads.OpenExactly | internal/s3fs/upload.go:36-68 | opening fails exactly when the size is needed and cannot be had or a restart finds no object, and otherwise keeps as many bytes as the open mode says |
| Uploads.UploadLeaves | internal/s3fs/upload.go:36-113 | what every run leaves at the key, by Close's answer and by whether it committed |
| Downloads.Download.constructor | internal/s3fs/download.go:54-63 | an open handle at an offset within the object |
| Downloads.Download.GetObject | internal/s3fs/fs.go:178-189 | a ranged request whose first byte lies within the object |
| Downloads.Download.EnsureBody | internal/s3fs/download.go:66-85 | an open body holds exactly the contents from the position on |
| Downloads.Download.Read | internal/s3fs/download.go:88-106 | delivers what a plain file at that position could, end of file only at the end, an error only on a fault |
| Downloads.Download.ReadAt | internal/s3fs/download.go:109-127 | delivers the bytes at the offset, short only at the end of the contents, end of file exactly past them, an error only on a fault, and disturbs neither position nor stream |
| Downloads.Download.Seek | internal/s3fs/download.go:139-171 | moves exactly like a plain file, refusing negative and overflowing targets |
| Downloads.Download.Close | internal/s3fs/download.go:204-220 | closes once and drops the stream; only closing an open stream can report an error, and the handle is closed even then |
| Downloads.ReadFull | internal/s3fs/download.go:126-126 | a full read delivers exactly the bytes asked for, or all there were, or a part before an error |
| Downloads.OpenDownload | internal/s3fs/download.go:30-64 | opens exactly for an existing object and an offset from 0 to its size |
| Downloads.Drive | internal/s3fs/download.go:66-171 | any run of Read, ReadAt and Seek is one a plain file could have had, with errors only on faults, and every request made on the way was satisfiable |
| Downloads.ReadsConcatenate | internal/s3fs/download.go:88-127 | between seeks, reads of any sizes concatenate to the slice from the position on, whatever ReadAts come in between |
| Downloads.ReadsFinish | internal/s3fs/download.go:88-106 | without faults, as many reads as there are bytes left deliver all of them, and one more reports the end |

## Left out

- The AWS SDK, HTTP, TLS, credentials and bucket creation: S3 calls are contracts on an abstract store with nondeterministic failure.
- The inside of the multipart uploader: it commits the whole byte stream on end of file and success, and otherwise leaves the object unchanged; parts and orphaned parts are not modelled.
- Upload handle in place: `upload.go` is modelled as a state machine on values, one event per atomic step, instead of a class, because its fields are shared with a goroutine; loading both pipe error cells is one step.
- Sessions.Upload: a whole upload is one command of a session, because the exact results assume a quiet store for its key; its own interleavings are all there, those with other commands are not.
- FileSystems.FS.DeleteKeys: exactness assumes that a batch reported no kept keys, because the program does not look at them; what holds with kept keys is stated separately.
- Downloads.Drive: the object does not change while a handle is open, because the program takes no lock against other writers.
- Calls on a closed upload handle (a second Close, Write or Seek after Close): flat checks of one flag.
- Other clients that change the same keys in the middle of an operation.
- Timestamps, file modes, content types, log messages, context deadlines and error texts: only an error kind is kept.
- Configuration, user authentication, the FTP driver, logging and process wiring: flat checks and thin adapters that would only add easy members.
- Whether a path that cleans to the root only on the second cleaning should be refused: the operations follow the code and treat it by its keys.
