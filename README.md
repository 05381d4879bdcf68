# go-storage-api core, modelled in Dafny

go-storage-api is an HTTP file-storage service. This project models its core and proves
properties of the model:

- **The local storage backend** (`internal/storage/local/local.go`). `safePath` resolves a
  requested path under the backend's root and refuses one whose cleaned form does not start with
  the root string. `mapError` maps operating-system errors onto the two sentinel errors.
  `List`, `Read`, `Write`, `Delete` and `Stat` act on a directory tree. The backend is the class
  `Local.LocalStorage`, whose field `fs` is the tree. Each method is proved against a
  specification function of the old tree.
- **The shared storage values** (`internal/storage/storage.go`): the sentinel errors
  `ErrNotFound` and `ErrPermission`, and the `FileInfo` record.
- **The operating-system calls the backend makes**: `os.ReadDir`, `os.MkdirAll`, `os.Create`,
  `os.Remove`, `os.Stat`/`os.Open`, and `path.Clean`/`filepath.Clean`. They are module `Os`
  and module `PathLex`, on a tree keyed by the component list of each absolute path. A
  directory listing is sorted by name (module `StrOrder`).
- **Configuration loading** (`internal/config/config.go`). `Load` works over an environment
  map: an unknown backend is refused first, then a bad `MAX_UPLOAD_SIZE`, then a missing
  required setting of the chosen backend. It also covers `envOrDefault` and `validateBackend`.
  `strconv.ParseInt(s, 10, 64)` is modelled with Go's syntax and range errors (module
  `StrConv`).
- **The middleware**:
  - `PathGuard` decodes the `path` query parameter, refuses traversal and NUL bytes, and
    forwards the cleaned value.
  - `RequestID` keeps an incoming `X-Request-ID` or generates a version 4 UUID; the context and
    the response header carry the same identifier. `newUUIDv4` stamps a 16-byte array in place.
  - `Logging` has a `responseWriter` class that captures the first status code.
  - `Chain`, a loop that wraps the handler from the last middleware to the first.
- **`parseLogLevel`** in `cmd/server/main.go`.

Inputs the original takes from the outside world are parameters here:

- the environment is a map;
- the random bytes, and whether reading them failed, are arguments of `NewUUIDv4`;
- the bytes in a write's request body are an argument of `Write`;
- a handler is the sequence of calls it makes on its response writer.

## Model

| member | source | states |
|---|---|---|
| Local.SafePath | internal/storage/local/local.go:130-143 | "" and "/" give the root; an accepted path starts with the root and is absolute and clean; every refusal is `ErrPermission` |
| Local.Resolve | internal/storage/local/local.go:136-137 | the resolution of a request on top of the root is a normal rooted component list: no empty, "." or ".." element and no "/" |
| Local.SafePathResolves | internal/storage/local/local.go:130-143 | the "" and "/" special case agrees with the general rule: scan the request's segments on top of the root's components, then accept exactly when the result starts with the root string |
| Local.SafePathPrefix | internal/storage/local/local.go:139-142 | a request is accepted if and only if its resolution starts with the root string |
| Local.SafePathAcceptsPlain | internal/storage/local/local.go:136-142 | a request with no ".." segment is accepted; it resolves to the root's components followed by its own, inside the root's subtree |
| Local.SafePathLeadingSlash | internal/storage/local/local.go:136 | a leading "/" changes nothing: requests are always relative to the root |
| Local.WithinRootPassesPrefix | internal/storage/local/local.go:139 | every path inside the root's subtree passes the textual prefix test |
| Local.SafePathOfSegments | internal/storage/local/local.go:136-142 | a request given by its segments returns the path they resolve to when it starts with the root, and `ErrPermission` otherwise |
| Local.BlocksParent | internal/storage/local/local_test.go:269 | "../etc/passwd" under "/data" is refused with `ErrPermission` |
| Local.BlocksGrandparent | internal/storage/local/local_test.go:270 | "../../etc/shadow" is refused with `ErrPermission` |
| Local.BlocksThroughSubdir | internal/storage/local/local_test.go:271 | "subdir/../../etc/passwd" is refused with `ErrPermission` |
| Local.BlocksRootedParent | internal/storage/local/local_test.go:272 | "/../../etc/passwd" is refused with `ErrPermission` |
| Local.AllowsFile | internal/storage/local/local_test.go:289 | "file.txt" resolves to "/data/file.txt" |
| Local.AllowsNested | internal/storage/local/local_test.go:290 | "docs/readme.md" resolves to "/data/docs/readme.md" |
| Local.SafePathSiblingEscape | internal/storage/local/local.go:139 | the prefix test is textual: "../data-evil/x" under "/data" is accepted although the result lies outside the root's subtree |
| Local.MapError | internal/storage/local/local.go:146-154 | not-exist becomes `ErrNotFound` and nothing else does; the permission errors become `ErrPermission` and nothing else does; any other error passes through unchanged |
| Local.InfoOf | internal/storage/local/local.go:48-55 | a record names the entry by its last component, reports a directory exactly for a directory, and a file's size as its length (0 for a directory) |
| Local.InfoOfPath | internal/storage/local/local.go:48-51 | for an entry inside the root's subtree, the record's path is "." for the root and otherwise the components below the root joined by "/" |
| Local.ListSpec | internal/storage/local/local.go:31-58 | `ErrPermission` comes exactly from a refused request; a successful listing was of a directory, and every record names one of its entries |
| Local.ListEntries | internal/storage/local/local.go:42-56 | the loop reads each listed child's metadata in turn and ends at the first failed read with its mapped error; a complete listing has one record per name, named after it, each an entry of the tree; a failure is never `ErrPermission` |
| Local.ListEntriesStep | internal/storage/local/local.go:43-55 | one turn of the loop: a failed metadata read ends the listing with its mapped error, otherwise the record goes in front of the rest |
| Local.ListEntriesFound | internal/storage/local/local.go:44-47 | when every listed name is an entry of the tree, no metadata read fails and the listing is the records of the children in the order listed |
| Local.EntriesCons | internal/storage/local/local.go:43-56 | the records of a list of names are the first name's record followed by the others' |
| Local.ReadSpec | internal/storage/local/local.go:60-71 | `ErrPermission` comes exactly from a refused request; success hands back the resolved entry of the tree; `ErrNotFound` means the resolved entry is absent |
| Local.StatSpec | internal/storage/local/local.go:107-126 | `ErrPermission` comes exactly from a refused request; success reports the resolved entry's metadata; `ErrNotFound` means the resolved entry is absent |
| Local.WriteSpec | internal/storage/local/local.go:73-93 | a refused request fails with `ErrPermission` and leaves the tree alone; on success the resolved entry holds the data; a write never fails with `ErrNotFound` |
| Local.WriteAt | internal/storage/local/local.go:79-92 | no entry but the target changes; on success the target holds the data; every failure is a system error passed through |
| Local.DeleteSpec | internal/storage/local/local.go:95-105 | `ErrPermission` comes exactly from a refused request; a failure leaves the tree alone; success removes exactly the resolved entry, which existed; `ErrNotFound` means it was absent |
| Local.Entries | internal/storage/local/local.go:42-56 | one record per listed name, in order, each the child's metadata record (name, size and kind as `InfoOf` states them, path as `InfoOfPath` does) |
| Local.ListedChildren | internal/storage/local/local.go:37-47 | every name a successful directory read lists is an entry of the tree |
| Local.LocalStorage.constructor | internal/storage/local/local.go:20-29 | a backend over an absolute clean root and a well-formed tree |
| Local.LocalStorage.New | internal/storage/local/local.go:20-29 | the backend exists exactly when making the root directory succeeds; the error is the one that making it gave; the new backend's tree holds the root as a directory |
| Local.LocalStorage.List | internal/storage/local/local.go:31-58 | the result is the listing specification on the current tree: the resolve error, the mapped directory-read error, or the entries |
| Local.LocalStorage.Read | internal/storage/local/local.go:60-71 | the result is the opened entry, or the resolve error or the mapped open error |
| Local.LocalStorage.Write | internal/storage/local/local.go:73-93 | the outcome and the new tree are those of the write specification on the old tree; the tree stays well formed |
| Local.LocalStorage.Delete | internal/storage/local/local.go:95-105 | the outcome and the new tree are those of the delete specification on the old tree; the tree stays well formed |
| Local.LocalStorage.Stat | internal/storage/local/local.go:107-126 | the result is the resolved entry's metadata, or the resolve error or the mapped stat error |
| Local.WriteAtSpec | internal/storage/local/local.go:79-92 | parents are made, then the file is created: success if and only if there is no NUL, no file on the way and no directory at the target; on success the target holds the data; no other entry changes; new entries lie on the way to the target; failures are system errors |
| Local.WriteAfterMkdir | internal/storage/local/local.go:83-92 | the create step, once the parents exist, writes the data or fails with a system error and changes nothing else |
| Local.WriteKeepsWellFormed | internal/storage/local/local.go:73-93 | whether it succeeds or not, `Write` keeps the tree well formed, changes no entry but the target and adds only entries on the way to it |
| Local.WriteThenRead | internal/storage/local/local_test.go:135-183 | after a successful write, `Read` opens a file holding exactly the data written and `Stat` reports a file of that size |
| Local.WriteOutcome | internal/storage/local/local.go:73-93 | `Write` succeeds if and only if the request is accepted, no name holds a NUL, no ancestor is a file and the target is not a directory; it never fails with `ErrNotFound` |
| Local.DeleteThenStat | internal/storage/local/local_test.go:187-200 | a successful delete removes exactly the resolved entry, and a later `Read` or `Stat` of it is `ErrNotFound` |
| Local.DeleteOutcome | internal/storage/local/local.go:95-105 | `Delete` succeeds if and only if the request is accepted and the entry exists and is a file or an empty directory other than "/" |
| Local.DeleteEmptyRoot | internal/storage/local/local.go:132-133 | "" names the root itself, so deleting it removes an empty root directory |
| Local.ReadExisting | internal/storage/local/local.go:60-71 | an existing entry under an accepted request is opened by `Read` (a directory too), and `Stat` reports its metadata |
| Local.MissingIsNotFound | internal/storage/local/local_test.go:89-131 | an absent entry without NUL and with no file on the way to it, whether or not its directory exists, is `ErrNotFound` for `Read`, `Stat`, `List` and `Delete`, and the tree is unchanged (the `Delete` and `Stat` cases are the tests at local_test.go:202-210 and 253-261) |
| Local.ListOfDir | internal/storage/local/local.go:37-57 | listing a directory gives exactly one record per child, sorted by name, each the child's metadata; inside the root's subtree, each record's path is the directory's path below the root followed by the child's name, joined by "/" |
| Local.ChildPath | internal/storage/local/local.go:48-51 | a child of a directory inside the root's subtree is reported at the directory's components below the root plus its own name, joined by "/" |
| Local.EntriesOfListing | internal/storage/local/local.go:42-56 | the records built from a sorted listing name every child once, in order, each with its metadata |
| Local.ListOfFile | internal/storage/local/local.go:37-40 | listing a file is refused with not-a-directory, passed through unchanged |
| Local.StatRelativePath | internal/storage/local/local.go:118-121 | `Stat` reports the path below the root: the remaining components joined by "/", or "." for the root |
| Os.LookupFinds | internal/storage/local/local.go:66 | on a well-formed tree, resolution succeeds exactly for the entries the tree holds, and returns them |
| Os.Lookup | internal/storage/local/local.go:66 | a found entry is the tree's entry at that path; the only errors are invalid-argument, not-a-directory and not-exist, and not-exist means the entry is absent and no name holds NUL |
| Os.AncestorsAreDirs | internal/storage/local/local.go:66 | every ancestor of an entry is a directory |
| Os.LookupMissing | internal/storage/local/local.go:113-116 | an absent path in an existing directory is not-exist, or an invalid argument when a name holds NUL |
| Os.LookupAbsent | internal/storage/local/local.go:113-116 | an absent entry with no file on the way to it is not-exist (invalid argument when a name holds NUL), even when its directory is missing too |
| Os.ReadDirLists | internal/storage/local/local.go:37 | reading a directory lists each child once, in increasing order, and nothing else |
| Os.ReadDirOk | internal/storage/local/local.go:37-40 | a successful directory read was of a directory, and lists its children in increasing order |
| Os.ReadDirUnique | internal/storage/local/local.go:37 | the listing is the one strictly sorted sequence of the children's names |
| Os.ReadDir | internal/storage/local/local.go:37-40 | a successful read was of a directory and lists in increasing order exactly the names of its entries; a file is not-a-directory; any other failure is resolution's |
| Os.ChildrenIff | internal/storage/local/local.go:43 | a name is a child of `d` exactly when `d` followed by that name is in the tree |
| Os.MkdirAllSpec | internal/storage/local/local.go:79 | making a directory path keeps the tree well formed and existing entries as they were; it adds only directories on the way; it succeeds exactly when no name holds NUL and no prefix is a file, and then every prefix is a directory |
| Os.MkdirAll | internal/storage/local/local.go:79 | existing entries are kept; only directories on the way to the target are added; on success the target is a directory; the only errors are not-a-directory and invalid argument |
| Os.MkdirAllExisting | internal/storage/local/local.go:79 | making an existing directory changes nothing and succeeds; an existing file is not-a-directory |
| Os.MkdirAllMissing | internal/storage/local/local.go:79 | the step for a missing directory keeps every property the parent's step has |
| Os.AddDirOnPath | internal/storage/local/local.go:79 | adding a directory below a path of directories keeps the tree well formed and makes every prefix of the new path a directory |
| Os.AddDir | internal/storage/local/local.go:79 | adding a directory inside a directory keeps the tree well formed |
| Os.PrefixesOfParent | internal/storage/local/local.go:79 | for an absent entry, a file lies on its way exactly when one lies on its parent's |
| Os.CreateSpec | internal/storage/local/local.go:83-86 | creating in a directory replaces or adds the file with the data, keeping the tree well formed; a directory at the target is is-a-directory; a NUL byte is an invalid argument |
| Os.Create | internal/storage/local/local.go:83-86 | success replaces or adds the target as a file holding the data and needs no NUL and no directory at the target; not-exist means the target and its directory are missing |
| Os.RemoveSpec | internal/storage/local/local.go:101 | removing an absent entry fails; a file is removed; "/" is busy; a directory is removed exactly when it is empty, otherwise not-empty |
| Os.Remove | internal/storage/local/local.go:101 | success takes out exactly the existing target, which is a file or an empty directory other than "/"; not-exist means the target is absent |
| Os.RemoveKeepsWellFormed | internal/storage/local/local.go:101-104 | a successful remove takes out exactly that entry and leaves a well-formed tree |
| Os.RemoveLeaf | internal/storage/local/local.go:101 | removing an entry with no children keeps the tree well formed |
| StrOrder.LessIrreflexive | internal/storage/local/local.go:37 | the name order never relates a name to itself |
| StrOrder.LessTransitive | internal/storage/local/local.go:37 | the name order is transitive |
| StrOrder.LessTotal | internal/storage/local/local.go:37 | any two different names are ordered one way or the other |
| StrOrder.MinExists | internal/storage/local/local.go:37 | every non-empty set of names has a least element |
| StrOrder.SortSet | internal/storage/local/local.go:37 | the sorted listing of a set holds exactly its elements, in strictly increasing order |
| StrOrder.SortedUnique | internal/storage/local/local.go:37 | two strictly sorted sequences with the same elements are equal |
| PathLex.Split | internal/middleware/pathguard.go:41 | splitting on "/" gives at least one segment |
| PathLex.JoinSplit | internal/middleware/pathguard.go:41 | joining the split segments with "/" gives the string back |
| PathLex.SplitJoin | internal/middleware/pathguard.go:41 | splitting joined segments that hold no "/" gives the segments back |
| PathLex.SplitAppend | internal/storage/local/local.go:136 | splitting a "/"-join of two strings is the concatenation of their splits |
| PathLex.Clean | internal/middleware/pathguard.go:41 | a cleaned path is never empty |
| PathLex.RunNormal | internal/middleware/pathguard.go:41 | the cleaning scan leaves no empty or "." element, and ".." only at the front of a relative path |
| PathLex.RunNormalIdentity | internal/middleware/pathguard.go:41 | an already resolved stack is a fixed point of the scan |
| PathLex.RunAppend | internal/storage/local/local.go:136-137 | scanning two segment lists in turn is scanning their concatenation |
| PathLex.RunNoParent | internal/storage/local/local.go:136-137 | without a ".." segment the scan only appends |
| PathLex.RunElements | internal/middleware/pathguard.go:41 | every element the scan leaves came from the stack or the segments |
| PathLex.CleanRelative | internal/middleware/pathguard_test.go:71-75 | a relative path cleans to the "/"-join of what the scan of its segments leaves |
| PathLex.CleanRooted | internal/storage/local/local.go:137 | a rooted path cleans to the root followed by its resolved components |
| PathLex.CleanIdempotent | internal/middleware/pathguard.go:41 | cleaning twice is cleaning once |
| PathLex.CleanOfAbsPath | internal/storage/local/local.go:137 | joining a resolved stack below the root gives a clean path whose components are that stack |
| PathLex.CleanShape | internal/middleware/pathguard.go:41 | a cleaned path is non-empty, has no "//", and ends in "/" only when it is "/" |
| PathLex.CleanKeepsDotDotOut | internal/middleware/pathguard.go:35-41 | cleaning a path with no ".." introduces none |
| PathLex.CleanChars | internal/middleware/pathguard.go:35-41 | every character of a cleaned path comes from the input or is "/" or "." |
| PathLex.AbsPathExtends | internal/storage/local/local.go:139 | adding components extends the absolute path textually, after one "/" |
| PathLex.AbsCleanComponents | internal/storage/local/local.go:21 | an absolute clean path is exactly the root followed by its components, which are proper names |
| PathLex.CommonPrefixLen | internal/storage/local/local.go:48 | the length of a common prefix of two component lists |
| PathLex.BaseOfChild | internal/storage/local/local.go:50 | the base of "/" is "/", and the base of a directory's entry is the entry's own name |
| PathLex.Rel | internal/storage/local/local.go:118 | for a target inside the base, the relative path is "." for the base itself and otherwise the remaining components joined by "/" |
| Query.HexByte | internal/middleware/pathguard.go:29 | two hexadecimal digits stand for the byte `16 * hi + lo` |
| Query.Unescape | internal/middleware/pathguard.go:29 | decoding never lengthens the value and changes nothing without "%" or "+"; an error names the malformed escape: one to three bytes from a "%" of the input |
| Query.EscapeByte | internal/middleware/pathguard.go:44 | one byte becomes one to three bytes, each unreserved, "+" or "%" |
| Query.Escape | internal/middleware/pathguard.go:44 | the escaped form is between one and three times as long and holds only unreserved bytes, "+" and "%" |
| Query.UnescapeAppend | internal/middleware/pathguard.go:29 | a prefix that decodes is decoded independently of what follows it; a later bad escape is the one reported |
| Query.UnescapeEscape | internal/middleware/pathguard.go:29-44 | decoding the escaped form of any byte string gives it back |
| Query.UnescapeBytes | internal/middleware/pathguard.go:29 | decoding a byte string gives a byte string that is no longer |
| Query.Get | internal/middleware/pathguard.go:22 | a parameter with values reads as its first value; otherwise the result is "" |
| Query.Set | internal/middleware/pathguard.go:42-43 | afterwards the parameter's value is the one set, and every other parameter is unchanged |
| PathGuard.GuardOutcomes | internal/middleware/pathguard.go:20-48 | an empty or absent parameter passes the query through unchanged; a bad encoding gets 400 "invalid path encoding"; traversal or NUL gets 400 "invalid path"; anything else is forwarded with the parameter cleaned |
| PathGuard.Guard | internal/middleware/pathguard.go:20-48 | an absent or empty parameter passes the query through; every refusal is a 400; a forwarded non-empty value holds neither ".." nor NUL and is its own cleaned form |
| PathGuard.ContainsTraversal | internal/middleware/pathguard.go:50-52 | true exactly when two consecutive dots stand somewhere in the value |
| PathGuard.ContainsNullByte | internal/middleware/pathguard.go:54-56 | true exactly when some byte of the value is NUL |
| PathGuard.DotPairs | internal/middleware/pathguard.go:51 | ".." is contained in a string exactly where two consecutive dots stand |
| PathGuard.GuardPasses | internal/middleware/pathguard.go:22-38 | the next handler runs if and only if the parameter is empty, or decodes to a value with neither ".." nor NUL; every refusal is a 400 |
| PathGuard.GuardForwarded | internal/middleware/pathguard.go:41-46 | the forwarded value is the cleaned decoded one; it has no "..", NUL, "//" or trailing "/", and cleaning it again changes nothing; every other parameter is kept |
| PathGuard.ForwardedSurvivesEncoding | internal/middleware/pathguard.go:44 | the re-encoded query decodes back to the cleaned value |
| PathGuard.PathQuery | internal/middleware/pathguard_test.go:30 | a query whose "path" parameter is the given value |
| PathGuard.RejectsPlainTraversal | internal/middleware/pathguard.go:35-38 | any plain value with ".." anywhere is refused with "invalid path" |
| PathGuard.BlocksDoubleDot | internal/middleware/pathguard_test.go:15 | "../etc/passwd" is refused with 400 |
| PathGuard.BlocksRootedTraversal | internal/middleware/pathguard_test.go:16 | "/../../../etc/passwd" is refused with 400 |
| PathGuard.BlocksMidPathTraversal | internal/middleware/pathguard_test.go:17 | "files/../../../secret" is refused with 400 |
| PathGuard.BlocksDoubleEncoded | internal/middleware/pathguard.go:28-38 | a request sent as `%252e%252e/etc/passwd` reaches the guard as "%2e%2e/etc/passwd"; the guard's own decoding turns that into "../etc/passwd", which is refused with 400 |
| PathGuard.RejectsNullByte | internal/middleware/pathguard.go:35-38 | any value that decodes to one holding NUL, plain or escaped, is refused with "invalid path" and 400 |
| PathGuard.BlocksNullByte | internal/middleware/pathguard_test.go:55 | the test value "file\0.txt" is refused with 400 |
| PathGuard.RejectsBadEscape | internal/middleware/pathguard.go:29-33 | "%zz" and a bare "%" are refused with "invalid path encoding" |
| PathGuard.GuardAccepts | internal/middleware/pathguard.go:41-46 | an accepted non-empty value is replaced by its cleaned form |
| PathGuard.ForwardsPlain | internal/middleware/pathguard.go:35-46 | a plain value without traversal is forwarded as its cleaned form |
| PathGuard.ForwardsReadme | internal/middleware/pathguard_test.go:71 | "readme.txt" is forwarded unchanged |
| PathGuard.ForwardsNested | internal/middleware/pathguard_test.go:72 | "docs/guide/intro.md" is forwarded unchanged |
| PathGuard.ForwardsTrailingSlash | internal/middleware/pathguard_test.go:73 | "docs/guide/" is forwarded as "docs/guide" |
| PathGuard.ForwardsDoubleSlash | internal/middleware/pathguard_test.go:74 | "docs//guide" is forwarded as "docs/guide" |
| PathGuard.ForwardsDotPrefix | internal/middleware/pathguard_test.go:75 | "./readme.txt" is forwarded as "readme.txt" |
| StrConv.DigitValue | internal/config/config.go:59 | a digit's value is below 10 |
| StrConv.AccAppend | internal/config/config.go:59 | the decimal value of a concatenation is the value of the first part shifted by the second's length, plus the second's value |
| StrConv.ScanUint | internal/config/config.go:59 | a successful scan read only digits, never lowers the value, and stays within 64 bits once a digit is read |
| StrConv.ParseUint64 | internal/config/config.go:59 | succeeds exactly on a non-empty digit string whose value fits 64 bits, and returns that value |
| StrConv.ParseInt64 | internal/config/config.go:59 | "" is a syntax error; a success read an optional sign and at least one digit, and is negative only after "-" |
| StrConv.FormatInt | internal/config/config.go:59 | the text is non-empty, starts with "-" exactly for a negative number, and is otherwise all digits |
| StrConv.ScanUintSpec | internal/config/config.go:59 | the unsigned scan succeeds exactly for digit strings whose value fits 64 bits, and returns that value; a non-digit is a syntax error and too large a value a range error |
| StrConv.ParseInt64Spec | internal/config/config.go:59 | base-10, 64-bit parsing succeeds exactly for an optional sign followed by digits whose signed value lies in the int64 range, and returns that value |
| StrConv.Digits | internal/config/config.go:59 | the decimal digits of a number form a non-empty digit string |
| StrConv.DigitsValue | internal/config/config.go:59 | the digits of a number have that number as their value |
| StrConv.ParseFormat | internal/config/config.go:59 | parsing the decimal form of any int64 gives it back |
| Config.EnvOrDefault | internal/config/config.go:124-129 | a set, non-empty variable gives its value, otherwise the fallback; a non-empty fallback gives a non-empty result |
| Common.StringAt | internal/config/config.go:125 | an absent key reads as ""; a present key reads as its value (`os.Getenv` and `Header.Get`) |
| Config.Lookup | internal/config/config.go:65-89 | a setting is its variable's value when that is set and non-empty, and its default otherwise |
| Config.EnvOrDefaultCases | internal/config/config.go:124-129 | the result is empty exactly when the fallback is empty and the variable is unset or empty |
| Config.KindOf | internal/config/config.go:49-55 | a name selects a known backend exactly when it is one of local, smb, ftp and s3 |
| Config.ValidateBackend | internal/config/config.go:99-122 | success means every setting the selected backend requires is non-empty; a failure names, with its message, a required setting that is empty |
| Config.ValidateBackendOk | internal/config/config.go:99-122 | validation succeeds exactly when every setting the selected backend requires is non-empty |
| Config.ValidateBackendFirstMissing | internal/config/config.go:99-122 | a failed validation reports, with the source's message, the first empty required setting in checking order |
| Config.ValidateSelectedOnly | internal/config/config.go:99-122 | validation depends only on the selected backend's required settings |
| Config.ValidateUnknownBackend | internal/config/config.go:99-121 | a backend outside the known set is not refused by the validator |
| Config.Assemble | internal/config/config.go:64-90 | the record keeps the backend and the upload limit, and every other string field is its setting's value in the environment |
| Config.Record | internal/config/config.go:64-90 | each string field of the record, the backend aside, is the value given for its setting |
| Config.LookupWithoutDefault | internal/config/config.go:73-88 | a setting without a default is the variable's raw value |
| Config.LoadSteps | internal/config/config.go:46-97 | the steps of `Load` in order |
| Config.Load | internal/config/config.go:46-97 | an unknown backend is refused first; a loaded configuration has a known backend, the parsed upload limit, every string field equal to its setting's value, and passed validation |
| Config.LoadOk | internal/config/config.go:46-97 | a loaded configuration had a known backend, a parsed upload limit and a record that passed validation |
| Config.LoadField | internal/config/config.go:64-90 | each string field of a loaded configuration is its setting's value in the environment |
| Config.LoadErrors | internal/config/config.go:55-94 | an unknown backend is reported first, then an unparsable upload limit with its parse error, then a failed validation with its message |
| Config.LoadOutcome | internal/config/config.go:46-97 | loading succeeds exactly when the backend is known, the upload limit parses, and every required setting of the backend is non-empty |
| Config.ValidateAgainstEnv | internal/config/config.go:92-94 | validating a record built from the environment checks the required variables of the environment |
| Config.RequiredDefaults | internal/config/config.go:70-89 | among required settings only the local root has a default, so the others must be set |
| Config.LocalLoads | internal/config/config.go:70 | with the local backend and a parsable upload limit, loading cannot fail, and the root path is non-empty |
| Config.LocalValidates | internal/config/config.go:70-104 | the local root always has a value, so a local configuration always validates |
| Config.DefaultUploadLimit | internal/config/config.go:59 | the default "104857600" parses to 104857600 |
| Config.LoadDefaults | internal/config/config_test.go:7-25 | with the local backend and nothing else set, the port is "8080", the level "info", the backend "local" and the upload limit 104857600 |
| Config.S3Loads | internal/config/config_test.go:88-105 | the S3 backend with a bucket set loads and keeps the bucket |
| Config.S3DefaultRegion | internal/config/config_test.go:107-116 | the S3 backend with a bucket and no region loads with region "us-east-1" |
| Config.SmbLoads | internal/config/config_test.go:50-69 | the SMB backend with host and share set loads and keeps them |
| RequestId.Hex | internal/middleware/requestid.go:54-55 | each byte gives two characters |
| RequestId.Stamped | internal/middleware/requestid.go:49-52 | stamping sets the version nibble of byte 6 to 4 and the top bits of byte 8 to `10`; it keeps the other bits of those bytes and every other byte |
| RequestId.Format | internal/middleware/requestid.go:54-55 | the text has 36 characters with dashes at 8, 13, 18 and 23 |
| RequestId.NewUUIDv4 | internal/middleware/requestid.go:40-56 | a failed read gives the fixed fallback; otherwise the result is the 8-4-4-4-12 hexadecimal form of the bytes with version and variant set; either way it has the version 4 form |
| RequestId.Slot | internal/middleware/requestid.go:54-55 | each non-dash position of the text belongs to one of the 16 bytes, as its high or low digit |
| RequestId.HexAt | internal/middleware/requestid.go:54-55 | byte `k` is written at positions `2k` and `2k+1` |
| RequestId.FormatLayout | internal/middleware/requestid.go:54-55 | the text has 36 characters, dashes at 8, 13, 18 and 23, and each byte's two digits at their place |
| RequestId.StampedDigits | internal/middleware/requestid.go:49-55 | the version digit is "4" and the variant digit one of "89ab" |
| RequestId.FormatIsV4 | internal/middleware/requestid_test.go:91-102 | the identifier made from any random bytes matches the version 4 pattern |
| RequestId.DecodeFormat | internal/middleware/requestid.go:54-55 | reading the digits back gives the formatted bytes, so different bytes give different identifiers |
| RequestId.NewIdProperties | internal/middleware/requestid.go:40-56 | every result has the version 4 form, and one made from random bytes decodes to the stamped bytes |
| RequestId.FallbackIsV4 | internal/middleware/requestid.go:46 | the fallback identifier has the version 4 form |
| RequestId.FromContext | internal/middleware/requestid.go:32-37 | a stored string is the result; without the key, or with a value that is not a string, the result is "" |
| RequestId.WithRequestId | internal/middleware/requestid.go:18-29 | the response header and the context carry the same identifier: the incoming one when present, the generated one otherwise; no other header or context entry changes |
| RequestId.GeneratedIdIsV4 | internal/middleware/requestid_test.go:14-32 | with no incoming header, the identifier the next handler sees has the version 4 form |
| Logging.ResponseWriter.constructor | internal/middleware/logging.go:38 | the wrapper starts at status 200 with nothing written |
| Logging.ResponseWriter.WriteHeader | internal/middleware/logging.go:16-22 | a header call records its code and is forwarded only while nothing has been written; afterwards header calls change nothing |
| Logging.ResponseWriter.Write | internal/middleware/logging.go:24-30 | a write before any header settles the status at 200; every write is forwarded |
| Logging.Step | internal/middleware/logging.go:16-30 | after any call the header counts as written and nothing forwarded is lost; once written, the status no longer changes; before that, the call settles it at its own code or at 200 for a body |
| Logging.Run | internal/middleware/logging.go:16-30 | replaying calls loses nothing forwarded, marks the header written once any call is made, and keeps a settled status fixed |
| Logging.LoggedStatus | internal/middleware/logging.go:33-44 | the status the wrapper holds after starting fresh and replaying the handler's calls |
| Logging.Serve | internal/middleware/logging.go:33-50 | the logged entry has the request's method and path, the status the handler settled on, and the identifier from the context; the real writer receives the first header if it came first, then every body |
| Logging.RunSettled | internal/middleware/logging.go:16-30 | once the header is written, later headers are dropped and bodies pass through |
| Logging.RunLogged | internal/middleware/logging.go:16-44 | the logged status is the first call's code when that call is a header, and 200 otherwise (including when nothing is written) |
| Logging.WriteFirstLogsOK | internal/middleware/logging_test.go:34-48 | a body written before any header logs 200, whatever headers follow |
| Logging.BodiesIn | internal/middleware/logging.go:29 | every body the handler writes reaches the real writer |
| Middleware.Chain | internal/middleware/middleware.go:10-17 | the loop from the last middleware to the first yields the first middleware around the second ... around the handler |
| Middleware.Nest | internal/middleware/middleware.go:8-17 | the last middleware is applied to the handler first, and the others around the result |
| Middleware.NestAppend | internal/middleware/middleware.go:8-9 | chaining two lists is chaining the second inside the first |
| Middleware.NestShort | internal/middleware/middleware_test.go:45-78 | an empty chain leaves the handler as it is; a chain of one is that middleware |
| Middleware.NestThree | internal/middleware/middleware.go:9 | chaining A, B and C gives A(B(C(handler))) |
| Middleware.MarkerOrder | internal/middleware/middleware_test.go:21-43 | under a chain of recording middleware the "before" records come in argument order, then the handler's, then the "after" records in reverse order |
| Middleware.ThreeMarkers | internal/middleware/middleware_test.go:21-43 | A, B and C around a recording handler record A, B and C before, the handler, then C, B and A after |
| LogLevel.ToLowerIdempotent | cmd/server/main.go:38 | lower-casing twice is lower-casing once |
| LogLevel.CaseInsensitive | cmd/server/main.go:37-48 | two names that agree after lower-casing select the same level |
| LogLevel.ParseLowered | cmd/server/main.go:38 | a name selects the same level as its lower-cased form |
| LogLevel.ParseLogLevel | cmd/server/main.go:37-48 | a level other than info comes exactly from "debug", "warn", "warning" or "error" in any case, each from its own name and warn also from "warning"; anything else, "" included, is info |
| LogLevel.NamesParse | cmd/server/main.go:39-44 | "debug", "info", "warn" and "error" select their levels, and "warning" selects warn |
| LogLevel.UpperDebug | cmd/server/main.go:38-40 | "DEBUG" selects debug |

## Left out

- The `Storage` interface (internal/storage/storage.go:23-29) is not a separate type. Its five
  operations are the methods of `Local.LocalStorage`. The other backends (SMB, FTP, S3) are not
  part of this model.
- `FileInfo.ModTime`, file modes and permission bits are not modelled. The model has neither a
  clock nor an owner. So `EACCES`/`EPERM` reach `MapError` only as error values: no operation of
  the tree produces them.
- The size of a directory is reported as 0. The operating system's own value for a directory is
  not modelled.
- `filepath.Abs` in `New`: `LocalStorage.New` takes a root that is already absolute and clean.
  Its error is the system's error, without the "create root directory" wrapping text.
- `io.Copy` failing part-way through a write, and the streaming of `Read`: bodies are whole byte
  sequences, and `Read` returns the opened entry instead of a stream.
- `filepath.FromSlash` and Windows separators: the model uses "/" only.
- Local.SafePath: the prefix test is modelled as the code writes it (a textual prefix). It is
  weaker than subtree containment, as `Local.SafePathSiblingEscape` shows.
- The singly encoded test vectors at internal/middleware/pathguard_test.go:18-20 are decoded by the query parser before the guard
  sees them, so they reach it as "../etc/passwd". The model starts from the parsed query, so
  those vectors are covered by `BlocksDoubleDot` and `RejectsPlainTraversal`, not by the guard's
  second decoding.
- Request contexts carry only the request-ID key. Cancellation and deadlines are not modelled.
- HTTP plumbing is not modelled: `net/http` request parsing, `writeErrorJSON`'s headers and JSON
  encoding, `api/response.go`, the server start-up in `main()` and `ListenAndServe`. The guard's
  refusal is the outcome `Reject(400, message)`.
- PathGuard.ForwardedSurvivesEncoding: `Values.Encode` of the whole query is reduced to escaping
  the one value. The model does not re-encode other parameters or sort keys.
- `crypto/rand`: the 16 random bytes and whether the read failed are parameters of
  `RequestId.NewUUIDv4`. That identifiers are unique (a probabilistic property) is not stated.
- Header names are compared exactly. Go's canonicalisation of MIME header keys is not modelled.
- The underlying writer's `Write` return values (byte count and error) are not modelled; it is a
  trace of the calls forwarded to it.
- Logging.Serve: the next handler is modelled by the sequence of calls it makes on the writer.
  The log's time, duration and `slog` output format are not modelled.
- `strings.ToLower` is modelled for ASCII letters only. Other Unicode case mappings are not.
- `log.Fatalf` in `Load` becomes an error result (`LoadError`) instead of ending the process.
  The error messages of the backend and upload-limit failures are represented by their
  arguments.
- `slog.Level` values beyond the four named levels are not modelled.
- Local.LocalStorage.List: a failing `e.Info()` read (local.go:44-47) is modelled as a path of
  `ListEntries`, but the tree never makes it fail for a name the directory read just listed
  (`ListEntriesFound`): an entry removed between the two reads, or metadata the process may not
  read, needs concurrency or permission bits, which the model does not have.
