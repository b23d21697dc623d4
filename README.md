# k0sctl upload files, in Dafny

This project models the part of k0sctl that copies the files declared under a host's
`files:` key in the cluster configuration onto that host, and proves what that logic
guarantees. It has two parts.

- **The upload entry** (`config/cluster/uploadfile.go`, module `Cluster`):
  - how the `perm` value becomes a `PermString` and is validated;
  - how a source is classified as a URL, a glob pattern or a plain path;
  - how `Resolve` and `glob` expand one entry into concrete entries;
  - how `Destination` picks the remote directory and file name.

  The local file system is reached only through two oracles: `stat` (error, file or
  directory) and `glob` (pattern error or the matches in order).
- **The upload-files phase** (`phase/uploadfiles.go`, module `Phase`):
  - `Prepare` and `ShouldRun` pick the hosts that have files;
  - `uploadFiles` runs one host: it resolves the entries, maps each destination
    directory to a permission, creates and chmods the missing directories, then
    transfers and chmods each entry.

  A host is a `Host` object that holds the set of paths that exist on it and the trace of
  every operation it was asked for (mkdir, chmod, upload, download). A failure oracle
  decides, from the trace so far, whether the host refuses the next operation.

The module `PhasePlan` holds the specification of the phase:
- `ResolveAll` is the concatenation of the entries' resolutions.
- `DirPerms` is the directory map, where the last entry for a directory wins.
- `Plan` is the operations the pass issues: the directory steps in map order, then each
  entry's transfer and chmod.
- `Run` issues a plan and stops at the first refusal.

The methods of `Phase` are proved to leave the host exactly where `Run` of `Plan` leaves
it. The lemmas of `PhasePlan` state what the plan guarantees: directory operations come
first, directories are created once, existing directories are left alone, the permission
comes from the last entry, and each entry gets its transfer and its chmod.

Two modules model Go standard-library helpers the code calls:
- `Paths`: `path.Split`, `path.Base`, `path.Clean` and `path.Join`.
- `Format`: the `%#o` and `%d` formatting.

Behaviour of the code worth noting, which the model reproduces:
- Entries produced by `glob` carry the `PermMode` but an empty `PermString`, so the
  chmods for them use "".
- `glob` keeps the declared `DestinationDir` for every match; it does not mirror
  sub-paths under it.
- No local file mode is captured.
- A new directory is chmod-ed to the `PermString` of the last entry going to it, not to
  a fixed 0755.

## Model

| member | source | states |
|---|---|---|
| Format.OctalRoundTrip | config/cluster/uploadfile.go:39 | reading back the octal digits `%o` prints for n gives n |
| Format.DecimalRoundTrip | config/cluster/uploadfile.go:117 | reading back the decimal digits `%d` prints for n gives n, so the "(i of n)" numbers in globbed names are the index and the count |
| Format.LeadingOctalDigit | config/cluster/uploadfile.go:53 | the first octal digit of n > 0 is at least 4 iff 4·8^k <= n < 8·8^k for some k |
| Cluster.PermCandidate | config/cluster/uploadfile.go:31-44 | a negative int gives the "must be a positive value" error, 0 gives the nil-permission error, a value that is neither int nor string is rejected, a string is kept verbatim, and a positive int becomes "0" followed by octal digits whose value is the int |
| Cluster.ValidatePermIff | config/cluster/uploadfile.go:46-59 | a PermString passes iff every character is a digit 0-7 and, when it has at least two characters, the one at index 1 is at least '4' |
| Cluster.ValidatePermFirstError | config/cluster/uploadfile.go:46-59 | a rejected PermString is rejected with the error of its first offending character, and no earlier character offends |
| Cluster.IntPermAcceptedIff | config/cluster/uploadfile.go:31-59 | a positive int perm is accepted iff it lies in [4·8^k, 8·8^k) for some k |
| Cluster.ConversionExamples | config/cluster/uploadfile.go:39-55 | 420 becomes "0644"; 644 becomes "01204", which the owner-digit check rejects |
| Cluster.ScanExamples | config/cluster/uploadfile.go:46-59 | "" and "0644" pass; "600" fails the owner check, "0844" the over-seven check and "07a5" the parse |
| Cluster.UnmarshalPerm | config/cluster/uploadfile.go:23-62 | a rejected perm value leaves the entry unchanged and returns its error; otherwise PermString is set, even when the character scan then fails, and the error is that of the scan |
| Cluster.String | config/cluster/uploadfile.go:64-69 | the label is Name, or Source when Name is empty |
| Cluster.IsGlob | config/cluster/uploadfile.go:73-75 | true iff the source holds one of `* % ? [ ] { }` |
| Cluster.IsURL | config/cluster/uploadfile.go:133-135 | true iff the source contains "://" |
| Cluster.GlobbedEntries | config/cluster/uploadfile.go:103-130 | a pattern error is returned as is; several matches with a destination file are an error; otherwise one entry per match, in order (none for no match), with the match as source, directory, file and perm mode copied, PermString empty, and the name kept for one match or numbered "Name: match (i of n)" |
| Cluster.Glob | config/cluster/uploadfile.go:103-130 | the append loop yields exactly the expansion `GlobbedEntries` describes |
| Cluster.Resolve | config/cluster/uploadfile.go:79-101 | the method yields the resolution `Resolved`: a URL as is, a pattern through glob, a stat error as is, a directory through glob of "source/**/*", a file as is |
| Cluster.ResolveUrlIgnoresFilesystem | config/cluster/uploadfile.go:81-84 | a URL resolves to exactly itself whatever stat and glob say |
| Cluster.ResolvePlainFile | config/cluster/uploadfile.go:90-100 | a plain existing file resolves to exactly itself, PermString included |
| Cluster.ResolvedEntries | config/cluster/uploadfile.go:79-130 | every resolved entry keeps the declared directory, file and perm mode, and is either the entry itself or has an empty PermString; several entries only when no destination file was declared |
| Cluster.DestinationCases | config/cluster/uploadfile.go:138-155 | fails iff no directory is declared and the file has no '/' or ends in one, with the no-destination or not-absolute error; a declared directory is used as is with the declared file or the source's base name; a lone file is split after its last '/'; a success names a non-empty directory and file |
| Paths.Split | config/cluster/uploadfile.go:143 | the two parts concatenate to the path, the second holds no '/', the first is empty iff the path has no '/' and otherwise ends in '/' |
| Paths.Base | config/cluster/uploadfile.go:154 | the base name is "." for the empty path, is never empty, is the path itself when that has no '/', and holds a '/' only when it is "/" |
| Paths.BaseIsLastElement | config/cluster/uploadfile.go:154 | the base name is the slash-free last element of the path once trailing slashes are dropped, preceded by a '/' or by nothing; a path of slashes only has the base "/" |
| Paths.BaseOfSnoc | config/cluster/uploadfile.go:154 | the base name of a path that ends in '/' followed by a non-empty slash-free element is that element |
| Paths.Join | phase/uploadfiles.go:85 | the join is empty iff both parts are, and is absolute when the directory is |
| Paths.JoinPlain | phase/uploadfiles.go:85 | joining a cleaned absolute directory other than "/" (at least one element) and a plain file name gives the directory, one '/', and the name |
| Paths.CleanOfPlain | phase/uploadfiles.go:85 | cleaning leaves a path made of '/' and plain elements separated by '/' unchanged |
| PhasePlan.DestPathExample | phase/uploadfiles.go:84-85 | the file "/tmp/f" sent to the directory "/etc/app" has the destination ("/etc/app", "f") and is written to "/etc/app/f" |
| PhasePlan.RunIssuesPrefix | phase/uploadfiles.go:68-103 | what a run issues is a prefix of the plan's operations |
| PhasePlan.RunCompletes | phase/uploadfiles.go:68-105 | a run ends without error iff the host refuses none of the plan, and then it issued all of it |
| PhasePlan.RunStopsAtRefusal | phase/uploadfiles.go:74-102 | a run that ends in error issued nothing after the refused operation, which is the last issued, none before it was refused, and the error is that step's |
| PhasePlan.RunFailsAt | phase/uploadfiles.go:74-102 | when the first n steps go through and step n is refused, exactly n + 1 operations are issued, step n's error is returned and n operations took effect |
| PhasePlan.RunThen | phase/uploadfiles.go:68-103 | running two parts in sequence: a refusal in the first means the second is never issued; otherwise the second runs after the first |
| PhasePlan.ResolveAllFirstError | phase/uploadfiles.go:49-56 | all entries resolve iff each does; otherwise the error is that of the first entry that does not |
| PhasePlan.ResolveAllAppend | phase/uploadfiles.go:49-56 | two runs of entries resolve together iff each does, and the result is the first run's list followed by the second's |
| PhasePlan.ResolveAllSplit | phase/uploadfiles.go:49-56 | splitting the entries at any index, the whole resolves iff both parts do, with the parts' lists in order; one entry resolves as the entry itself does |
| PhasePlan.DirPermsFirstError | phase/uploadfiles.go:60-64 | the directory map is built iff every resolved entry has a destination; otherwise the error is the first entry's Destination error |
| PhasePlan.DirPermsKeys | phase/uploadfiles.go:58-66 | the map's keys are exactly the entries' destination directories |
| PhasePlan.DirPermsLastWriter | phase/uploadfiles.go:65 | a directory maps to the PermString of the last entry going to it |
| PhasePlan.LastWriterExists | phase/uploadfiles.go:65 | every key has a last entry going to it, whose PermString it holds |
| PhasePlan.DirPermsAsMap | phase/uploadfiles.go:58-66 | when every entry has a destination, the map is the one written from the entries' destination directories and PermStrings, in order |
| PhasePlan.WriterMapKeys | phase/uploadfiles.go:58-66 | writing values under a list of keys yields a map whose keys are exactly the listed ones |
| PhasePlan.WriterMapLast | phase/uploadfiles.go:65 | a key holds the value written by its last occurrence |
| PhasePlan.DirStepsCreatesIff | phase/uploadfiles.go:68-76 | the directory part creates a directory iff it is listed and does not exist |
| PhasePlan.DirStepsOnce | phase/uploadfiles.go:68-76 | a listing without repeats creates no directory twice |
| PhasePlan.FileStepsShape | phase/uploadfiles.go:83-103 | target k's transfer sits at 2k and the chmod of its path to its PermString at 2k + 1 |
| PhasePlan.PlanLayout | phase/uploadfiles.go:83-103 | after the n directory operations, entry k is downloaded (a URL) or uploaded (anything else) to its joined destination at n + 2k, and that path is chmod-ed to the entry's PermString at n + 2k + 1 |
| PhasePlan.PlanDirsFirst | phase/uploadfiles.go:68-83 | each mkdir is of a listed directory that does not exist and is followed at once by its chmod, and both come before every transfer |
| PhasePlan.PlanCreates | phase/uploadfiles.go:58-76 | a directory is created iff some resolved entry goes to it and it does not exist |
| PhasePlan.PlanCreatesOnce | phase/uploadfiles.go:58-76 | no directory is created twice |
| PhasePlan.PlanDirChmods | phase/uploadfiles.go:68-80 | every directory chmod follows the mkdir of that directory, so an existing directory gets no chmod, and no directory is chmod-ed twice |
| PhasePlan.PlanDirPerm | phase/uploadfiles.go:60-78 | the chmod after a mkdir sets the PermString of the last resolved entry going to that directory |
| Phase.Host.Perform | phase/uploadfiles.go:74-100 | the operation is appended to the trace; unless the host refuses it, what it creates now exists |
| Phase.WithFilesMembers | phase/uploadfiles.go:29-31 | the filter keeps exactly the hosts with at least one file |
| Phase.WithFilesAppend | phase/uploadfiles.go:29-31 | the filter keeps the hosts in their order |
| Phase.WithFilesNonEmpty | phase/uploadfiles.go:29-39 | the filtered list is non-empty iff some host has files |
| Phase.SomeOrdering | phase/uploadfiles.go:68 | the map is visited in some order that lists every directory exactly once |
| Phase.UploadFilesPhase.Prepare | phase/uploadfiles.go:27-34 | the phase keeps the configuration and exactly the hosts with files, in order, and ShouldRun holds iff some host has files |
| Phase.UploadFilesPhase.UploadLocal | phase/uploadfiles.go:108-111 | the host is asked to upload the source to dest; a refusal is the upload error, otherwise dest exists |
| Phase.UploadFilesPhase.UploadURL | phase/uploadfiles.go:112-115 | the host is asked to download the URL to dest; a refusal is the download error, otherwise dest exists |
| Phase.UploadFilesPhase.UploadFiles | phase/uploadfiles.go:46-106 | a resolve or destination error is returned with the host untouched; otherwise the host's trace, existing paths and the error are those of running the plan (directories in the visited map order, then the files) up to the first refusal; a host without files is asked for nothing |
| Phase.UploadFilesPhase.MakeDirs | phase/uploadfiles.go:68-81 | the directory loop leaves the host where running the directory part of the plan does |
| Phase.UploadFilesPhase.EnsureDir | phase/uploadfiles.go:69-80 | an existing directory is skipped; otherwise mkdir, then chmod, stopping at a refusal |
| Phase.UploadFilesPhase.TransferFiles | phase/uploadfiles.go:83-103 | the file loop leaves the host where running the file part of the plan does |
| Phase.UploadFilesPhase.TransferEntry | phase/uploadfiles.go:84-102 | one entry: download for a URL or upload otherwise to the joined destination, then chmod to its PermString, stopping at a refusal |
| Phase.ResolveEntries | phase/uploadfiles.go:47-56 | the resolve loop yields the in-order concatenation of the resolutions, or the first error |
| Phase.CollectDirs | phase/uploadfiles.go:58-66 | the map loop yields the directory map where the last entry wins, or the first Destination error |

## Left out

- The YAML decoding framework and the `default:"0755"` struct tag are not modelled. `UnmarshalPerm` starts from an entry whose `perm` was already decoded into an int, a string or something else.
- `os.Stat` and `filepath.Glob` are oracles. Their matching semantics (including that Go's Glob does not recurse on `**`) are not modelled.
- `Run` (phase/uploadfiles.go:42-44) runs `uploadFiles` on every configured host concurrently through `ParallelEach`. The concurrency is not modelled; `UploadFiles` models the pass for one host.
- The phase `Title` is not modelled, because it is a constant display string.
- Logging (`log.Infof`) and `exec.Sudo` are not modelled, because they do not change what is issued.
- The remote `FileExist`, `MkDir`, `Chmod`, `Upload` and `DownloadURL` calls are abstract operations on `Host`, with a failure oracle.
- Host errors are `UploadError` constructors that name the failing operation and its paths. Go's wrapped error values and their messages are not modelled.
- `SomeOrdering` picks an arbitrary listing of the map's keys. Go's randomised map iteration is not modelled.
- TransferFiles: Destination is called again in the file loop (phase/uploadfiles.go:84-88). It cannot fail there, because the map loop already succeeded on the same entries. The model therefore requires a destination for every entry and has no error branch there.
- PermCandidate: integers are unbounded, so Go's 64-bit `int` range is not modelled. A number outside that range would not decode to an `int`, so the code would reject it in its "must be a string or a number" branch, which is the model's `Other` case.
- Remote paths are compared as exact strings. `MkDir(d)` makes only the string `d` exist, and `FileExist` asks about that string alone. A real host also treats other spellings of the same directory as existing ("/etc/app/" after "/etc/app", which arise when one entry's directory comes from splitting a destination file and another's is declared), as well as parents made by an earlier `mkdir -p`. So PlanCreates, PlanCreatesOnce and DirStepsCreatesIff hold for paths as strings. Where the live host would skip a second spelling, the model issues its mkdir and chmod again.
