# ftp_enfa in Dafny

A model of the logic inside the three FTP clients of ftp_enfa, with proofs about it:

- ftp_client.cpp (v1) and ftp_client_v2.cpp (v2) are WinINet clients. They upload a local tree, download a remote tree and, in v2, delete a remote tree. Every walk is recursive.
- ftp_minimal.cpp is a client over raw sockets. It mirrors a local directory to the server, with a cap of 128 uploaded files.

Every call into WinINet, into the Win32 file API or onto the network is answered by an oracle, which is a parameter. Each walk returns the calls it made, each with the answer it got, plus its boolean result. The oracle sees the whole history, so any server behaviour is covered.

Modules:

- **Steps:** the calls the WinINet walks make (`FtpCreateDirectoryA`, `FtpPutFileA`, `FtpFindFirstFileA`, `FtpGetFileA`, `CreateDirectoryA`, `FtpDeleteFileA`, `FtpRemoveDirectoryA`), the server oracle, and the local and remote trees.
  - A local directory is a sequence of entries in iteration order.
  - A remote directory's listing is a snapshot taken when the walk lists it. It is either a list of entries, "no more files" (an empty directory) or a failed listing.
- **Text:** `trim` of v2.
- **Exclusion:** the two versions of `excluded`.
- **Paths:** the `getline(ss, segment, '/')` splitting loop of `ensure_remote_path`, and the path joins the walks use.
- **EnsurePath:** `ensure_remote_path`. The code is identical in v1 and v2.
- **Upload:** `upload_recursive`. It is one walk, parameterised by the exclusion predicate: v1's and v2's code differ only there.
- **Download:** `download_recursive` of v1 (fail-fast) and v2 (fail-soft).
- **Delete:** `delete_recursive` of v2.
- **Cli:** the mkdir "already exists" rule and the exit codes of both `main` functions.
- **Control:** the control connection of ftp_minimal.cpp, that is `send_cmd` and `recv_line`.
  - Commands end in CR LF, as sections 4.1 and 5.3 of RFC 959 require. Replies are lines ending in CR LF, as section 4.2 describes.
  - The connection's state is a `Wire`: the bytes the server sends, the read cursor, and the log of everything the client did.
- **Pasv:** the `sscanf` decoding of the reply to PASV, as written and corrected. The command is defined in section 4.1.2 of RFC 959 and the text of its 227 reply in section 4.2.2.
- **Minimal:** `pasv_data`, `upload_one` and `sync_dir`, with its by-reference counter.

The loops of the source are methods with `while` or `for` loops: the `getline` loop, the entry loops of the upload and download walks, the listing and vector loops of the delete walk, `recv_line`, the `fread`/`send` loop and the loop of `sync_dir`. Each method is proved equal to a specification function, and the properties are proved about those functions.

The model follows the code, also where a comment in it says otherwise, and states how each client reacts to a failure:

- The comment at ftp_client_v2.cpp:298 says the current directory is deleted only "if not root". The guard below it (line 299) tests only for the empty string. With the default remote path `/` (ftp_client_v2.cpp:109), the walk therefore tries to remove `/` itself (`Delete.RootRemovalAttempted`).
- v1's `download_recursive` stops at the first failure (`Download.DownV1FailFast`). v2's carries on (`Download.DownV2MakesEveryCall`, `Download.FailedFetchThenSibling`).
- In ftp_minimal.cpp a failed upload does not stop `sync_dir` (`Minimal.FailedUploadContinues`).

## Model

| member | source | states |
|---|---|---|
| Text.FirstNotBlank | ftp_client_v2.cpp:57 | `find_first_not_of(" \t\r\n")`: none exactly when every character is blank; otherwise the index of a non-blank with only blanks before it |
| Text.LastNotBlank | ftp_client_v2.cpp:59 | `find_last_not_of`: none exactly when all blank; otherwise a non-blank with only blanks after it |
| Text.FirstNotBlankIs | ftp_client_v2.cpp:57 | the first non-blank is unique: any non-blank index preceded only by blanks is the one found |
| Text.LastNotBlankIs | ftp_client_v2.cpp:59 | likewise for the last non-blank |
| Text.Trim | ftp_client_v2.cpp:56-61 | the result is empty exactly when the input is all blank (space, tab, CR, LF); otherwise it starts and ends with a non-blank |
| Text.TrimUnique | ftp_client_v2.cpp:56-61 | blanks + m + blanks trims to m whenever m is empty or has non-blank ends, so trim strips exactly the blank ends |
| Text.TrimSplit | ftp_client_v2.cpp:56-61 | every input is all-blank prefix + trim result + all-blank suffix: the result is a contiguous piece of the input |
| Text.TrimIdempotent | ftp_client_v2.cpp:56-61 | trimming twice gives the same as trimming once |
| Text.TrimExample | ftp_client_v2.cpp:56-61 | `" \t host name \r\n"` trims to `"host name"`; the inner space stays |
| Text.TrimKeepsVerticalTab | ftp_client_v2.cpp:57 | characters outside the four blanks, such as a vertical tab, are not trimmed |
| Exclusion.ExcludedV1Exactly | ftp_client.cpp:46-51 | v1 excludes exactly the empty name, names starting with `.`, `node_modules` and `vendor` |
| Exclusion.ExcludedV2Exactly | ftp_client_v2.cpp:114-120 | v2 excludes exactly those plus `ftp.log`, `ftp_client.exe` and `ftp_client_v2.exe` |
| Exclusion.ExcludedV2ExtendsV1 | ftp_client_v2.cpp:118 | v2 excludes everything v1 does, and differs from it exactly on the three tool artifacts |
| Paths.SlashFrom | ftp_client_v2.cpp:126 | the delimiter search of `getline`: the position of a `/` at or after the start, or the end of the string |
| Paths.SlashFromStops | ftp_client_v2.cpp:126 | no `/` lies between the start and the delimiter found |
| Paths.GetLine | ftp_client_v2.cpp:126 | one `getline` call on a non-exhausted stream consumes at least one character and stays in the string |
| Paths.GetLineReadsPiece | ftp_client_v2.cpp:126 | reading one segment from position `pos` yields the first piece of the remaining text, and the stream after it holds the rest of the pieces |
| Paths.PiecesSlashFree | ftp_client_v2.cpp:126 | no segment `getline` returns contains `/` |
| Paths.SegmentsAreNames | ftp_client_v2.cpp:126-127 | the non-empty segments of a path are non-empty and free of `/` |
| Paths.SegmentsOfJoin | ftp_client_v2.cpp:126-128 | splitting the `/`-join of names gives the names back |
| Paths.PiecesOfJoin | ftp_client_v2.cpp:126-128 | `getline` on the `/`-join of names reads the names, with no empty piece |
| Paths.JoinSnoc | ftp_client_v2.cpp:128 | the accumulator grows as `acc + "/" + segment`, without a leading `/` for the first segment |
| Paths.SegmentsOfChild | ftp_client_v2.cpp:144 | the segments of `remote + "/" + name` are those of `remote` followed by `name` |
| Paths.LastIndex | ftp_client_v2.cpp:272 | specification helper for the parent of the path built at this line: the last index of a separator, or -1, with no separator after it |
| Paths.ParentOfChild | ftp_client_v2.cpp:272 | the parent of `dir/name` is `dir` |
| EnsurePath.EnsureRemotePath | ftp_client_v2.cpp:122-136 | the `getline` loop issues exactly the steps of the specification `Ensure`, whatever the server answers |
| EnsurePath.CreatesCons | ftp_client_v2.cpp:127-131 | an empty segment issues nothing; a non-empty one issues one create of the extended accumulator, and the loop carries on whatever the answer |
| EnsurePath.CreatesCalls | ftp_client_v2.cpp:126-134 | one create per non-empty segment; create k names the first k+1 segments joined by `/` |
| EnsurePath.EnsureCalls | ftp_client_v2.cpp:122-136 | the creates name the accumulated prefixes: the first is the first segment, each next one is the previous argument + `/` + the segment, and the last is the whole path without empty segments |
| EnsurePath.EnsurePlan | ftp_client.cpp:29-44 | v1's copy makes the same calls: the prefix chain of the path's segments, never stopping early |
| Upload.UploadRecursive | ftp_client_v2.cpp:138-159 | the iterator loop with its early `return false` makes exactly the steps and returns exactly the result of the specification `Walk` |
| Upload.UploadEntry | ftp_client_v2.cpp:140-157 | one loop iteration equals `Visit`: skip an excluded name; put `remote/name` for a file; for a directory, ensure the path and then walk it |
| Upload.WalkIgnoresExcluded | ftp_client_v2.cpp:141 | a walk is the same after every excluded entry and its subtree is pruned from the tree |
| Upload.VisitIgnoresExcluded | ftp_client_v2.cpp:141-149 | the same for one entry and its subtree |
| Upload.WalkFailFast | ftp_client_v2.cpp:149-159 | the walk returns true exactly when every put in its trace succeeded; on false the last step is the rejected put |
| Upload.VisitFailFast | ftp_client.cpp:62-69 | the same for one entry in v1's copy of the loop |
| Upload.WalkFollowsPlan | ftp_client_v2.cpp:138-159 | the calls made are a prefix of the server-independent plan of the tree, and all of it when the walk succeeds |
| Upload.VisitFollowsPlan | ftp_client_v2.cpp:146-157 | the same for one entry |
| Upload.PlanShaped | ftp_client_v2.cpp:144-149 | every planned call either re-creates an ancestor, or lies under the base, passes through no excluded name, and has its parent directory created earlier |
| Upload.PlanEntryShaped | ftp_client_v2.cpp:144-149 | the same for one entry |
| Upload.WalkShaped | ftp_client_v2.cpp:138-159 | the same shape holds for the calls the walk actually makes: a directory's creates precede everything inside it |
| Upload.LogFileOnlyUploadedByV1 | ftp_client_v2.cpp:118 | `ftp.log` is put by v1 and skipped by v2 |
| Upload.RejectedPutStopsSiblings | ftp_client_v2.cpp:152-156 | when the put of `a.txt` is rejected, `b.txt` is never attempted and the walk fails |
| Download.DownloadRecursiveV2 | ftp_client_v2.cpp:191-245 | the listing loop makes exactly the steps of `DownV2` and always returns true, even when the listing fails |
| Download.DownloadEntryV2 | ftp_client_v2.cpp:213-237 | one iteration equals `EntryV2`: dot names are skipped; a directory is created locally and then walked; a file is fetched and a failure is ignored |
| Download.DownV2MakesEveryCall | ftp_client_v2.cpp:191-245 | whatever the server answers, v2 makes every call of the tree's plan: siblings always follow failures |
| Download.EntriesV2MakeEveryCall | ftp_client_v2.cpp:212-238 | the same for a list of entries |
| Download.EntryV2MakesEveryCall | ftp_client_v2.cpp:217-237 | the same for one entry |
| Download.StripDotsIn | ftp_client_v2.cpp:214 | removing `.` and `..` entries leaves no dot entry |
| Download.StripDotsEntry | ftp_client_v2.cpp:214 | stripping dots inside an entry keeps its name |
| Download.DownV2SkipsDots | ftp_client_v2.cpp:214 | the walk is the same on the tree with every `.` and `..` entry removed |
| Download.EntriesV2SkipDots | ftp_client_v2.cpp:214 | the same for a list of entries |
| Download.EntryV2SkipsDots | ftp_client_v2.cpp:214 | the same for one entry |
| Download.PlanV2LocalShaped | ftp_client_v2.cpp:218-223 | every local path in the plan extends the local root with `\`, and a local directory is created before anything is placed inside it |
| Download.PlanEntriesV2LocalShaped | ftp_client_v2.cpp:218-223 | the same for a list of entries |
| Download.PlanEntryV2LocalShaped | ftp_client_v2.cpp:220-223 | the same for one entry |
| Download.DownV2LocalShaped | ftp_client_v2.cpp:218-223 | the same shape holds for the calls v2 makes |
| Download.DownloadRecursiveV1 | ftp_client.cpp:90-116 | v1's loop makes exactly the steps and returns exactly the result of `DownV1` |
| Download.DownloadEntryV1 | ftp_client.cpp:99-112 | one v1 iteration equals `EntryV1` |
| Download.DownV1FailFast | ftp_client.cpp:90-116 | v1 returns true exactly when its listings and fetches all succeeded; on false its last step is the failed listing or fetch |
| Download.EntriesV1FailFast | ftp_client.cpp:98-113 | the same for a list of entries |
| Download.EntryV1FailFast | ftp_client.cpp:103-112 | the same for one entry |
| Download.DownV1FollowsV2 | ftp_client.cpp:90-116 | below a non-empty remote path, v1's calls are a prefix of v2's plan, and all of it when v1 succeeds |
| Download.EntriesV1FollowV2 | ftp_client.cpp:98-113 | the same for a list of entries |
| Download.EntryV1FollowsV2 | ftp_client.cpp:101-112 | the same for one entry |
| Download.DownV1LocalShaped | ftp_client.cpp:102-105 | v1 also creates each local directory before placing anything inside it |
| Download.EmptyDirectory | ftp_client.cpp:93-97 | an empty remote directory (no more files) fails v1's download, while v2 carries on |
| Download.FailedFetchThenSibling | ftp_client_v2.cpp:233-238 | after a failed fetch of `a`, v1 stops with false and v2 goes on to fetch `b` |
| Download.FailedFetchStopsV1 | ftp_client.cpp:107-111 | a failed fetch ends v1's walk at once with false |
| Download.FailedFetchContinuesV2 | ftp_client_v2.cpp:233-238 | v2 fetches every sibling whatever the answers |
| Download.HiddenFileDownloaded | ftp_client.cpp:100 | downloads apply no exclusion: `.env` is fetched |
| Delete.Del | ftp_client_v2.cpp:247-308 | the walk starts by listing `remote/*` (or `*` at the empty path) and returns false exactly when that listing fails other than with no more files |
| Delete.Deletes | ftp_client_v2.cpp:283-289 | one delete per collected file, in order, whatever the answers |
| Delete.VectorsStep | ftp_client_v2.cpp:268-279 | each listed entry other than `.` and `..` appends its child path to `files` or, with its listing, to `dirs` |
| Delete.DelListed | ftp_client_v2.cpp:267-306 | a listed directory gives: the listing, then all file deletes, then the subdirectory walks, then its own removal when the path is non-empty |
| Delete.CollectEntries | ftp_client_v2.cpp:267-280 | the `push_back` loop fills the two vectors exactly as `FilesOf` and `DirsOf` say |
| Delete.DeleteRecursive | ftp_client_v2.cpp:247-308 | the three loops and the conditional removal make exactly the steps and return exactly the result of `Del` |
| Delete.DelMakesEveryCall | ftp_client_v2.cpp:247-308 | whatever the server answers, every call of the tree's delete plan is made: failed deletes stop nothing |
| Delete.DelAllMakesEveryCall | ftp_client_v2.cpp:291-296 | the same for the subdirectory loop |
| Delete.FilesOfPaths | ftp_client_v2.cpp:272 | collected file paths lie under the directory, with the directory as their parent |
| Delete.DirsOfPaths | ftp_client_v2.cpp:272-275 | collected directory paths lie under the directory and are longer than it |
| Delete.ChildPath | ftp_client_v2.cpp:272 | `remote/name` lies under `remote`, with `remote` as its parent |
| Delete.DelInside | ftp_client_v2.cpp:298-305 | a walk never removes the empty path; every step of a walk below a non-empty path stays inside it, and a listed directory's own removal is the last step |
| Delete.DelAllInside | ftp_client_v2.cpp:291-296 | the subdirectory walks stay inside the outer directory |
| Delete.DelDeep | ftp_client_v2.cpp:282-296 | every delete in a walk of a path names a longer path |
| Delete.DelFilesFirst | ftp_client_v2.cpp:282-296 | right after the listing come the deletes of the directory's own files, in order; every later delete is strictly deeper |
| Delete.RootRemovalAttempted | ftp_client_v2.cpp:298-305 | at the default path `/`, after deleting `//a` the walk removes `/` itself |
| Delete.EmptySubdirectoryKept | ftp_client_v2.cpp:256-261 | an empty subdirectory (no more files) is listed and left in place, while its parent's removal is still attempted |
| Cli.ExitCodeV2 | ftp_client_v2.cpp:335-489 | code 1 for no command or no configuration, 2 when initialisation fails, 3 when connecting fails, then 4 or 0 by the operation's result, each as an if-and-only-if |
| Cli.ExitCodeV1 | ftp_client.cpp:146-184 | 1 for fewer than four arguments, 2, 3, then 4 or 0, each as an if-and-only-if |
| Cli.SameCodesPastSetup | ftp_client.cpp:155-184 | past argument and configuration checks both clients map the same outcomes to the same codes |
| Cli.MkdirExitCode | ftp_client_v2.cpp:453-467 | mkdir exits 0 when the create succeeds or fails with "already exists" (183) or "file exists" (80), and 4 otherwise, in both clients |
| Control.Frame | ftp_minimal.cpp:75 | the bytes sent are the command followed by CR LF, nothing else |
| Control.SendCmd | ftp_minimal.cpp:74-77 | one send of exactly the framed command; the cursor does not move and the result is the network's answer for those bytes |
| Control.LineLength | ftp_minimal.cpp:65-72 | the line ends at the first CR LF at or after the bytes already read, or at the end of the stream |
| Control.Line | ftp_minimal.cpp:65-72 | the line is a prefix of the stream that ends in CR LF or is the whole stream, with no CR LF before its end |
| Control.LineUnique | ftp_minimal.cpp:65-72 | that prefix is unique: the line is the shortest prefix ending in CR LF |
| Control.FrameRoundTrip | ftp_minimal.cpp:65-77 | a framed command without CR LF of its own is read back as exactly its frame, whatever follows, and dropping the terminator gives the command |
| Control.RecvLineF | ftp_minimal.cpp:65-72 | receiving a line consumes exactly the line's bytes from the stream and logs one reception |
| Control.RecvLine | ftp_minimal.cpp:65-72 | the byte-by-byte loop returns exactly that line and state |
| Pasv.ReadDigits | ftp_minimal.cpp:83 | the digit run of `%d` is consumed: strictly when the input starts with a digit |
| Pasv.NatStrValue | ftp_minimal.cpp:83-84 | reading the decimal text of n gives n back |
| Pasv.CStr | ftp_minimal.cpp:83 | `c_str()` cuts the reply at its first NUL and leaves a NUL-free string unchanged |
| Pasv.Span | ftp_minimal.cpp:83 | a `%[...]`-style run never exceeds the input |
| Pasv.SpanOf | ftp_minimal.cpp:83 | the run over a matching prefix stops exactly at the first non-matching character |
| Pasv.ScanInt | ftp_minimal.cpp:83 | a successful `%d` consumes at least one character |
| Pasv.ScanFields | ftp_minimal.cpp:83 | at most the requested number of fields are assigned |
| Pasv.Padded | ftp_minimal.cpp:82 | unassigned fields keep their initial 0 |
| Pasv.ScanAsWritten | ftp_minimal.cpp:82-83 | the scan always yields six values |
| Pasv.DecodeAsWritten | ftp_minimal.cpp:82-85 | the endpoint `sscanf` as written yields: the dotted fields and `p1*256+p2`, with 0 for every field not assigned; a reply that is empty or starts with a digit gives 0.0.0.0 port 0 |
| Pasv.ScanNat | ftp_minimal.cpp:83 | `%d` reads back the decimal text of n and stops at the next non-digit |
| Pasv.ScanTuple | ftp_minimal.cpp:83 | the comma-separated text of up to six numbers is scanned back to exactly those numbers, stopping at the first mismatch |
| Pasv.AsWrittenScans | ftp_minimal.cpp:82-83 | non-digits followed by a tuple of up to six numbers scan to those numbers padded with zeros |
| Pasv.SkipPrefix | ftp_minimal.cpp:83 | `%*[^0-9]` consumes the whole non-digit prefix and scanning resumes at the first digit |
| Pasv.AsWrittenDecodes | ftp_minimal.cpp:82-85 | non-digits followed by `h1,h2,h3,h4,p1,p2` decode to host `h1.h2.h3.h4` and port `p1*256+p2` |
| Pasv.DigitFirstDecodesToZero | ftp_minimal.cpp:83 | as written, a reply starting with a digit assigns no field and decodes to `0.0.0.0` port 0 |
| Pasv.StandardReplyAsWritten | ftp_minimal.cpp:83 | the standard `227 Entering Passive Mode (192,168,1,2,19,137)` reply decodes to `0.0.0.0` port 0 as written |
| Pasv.StopsAtMismatch | ftp_minimal.cpp:82-84 | scanning stops at the first mismatch: `=10,20;7` decodes to `10.20.0.0` port 0 |
| Pasv.NoRangeCheck | ftp_minimal.cpp:84-85 | there are no range checks: `(300,1,1,1,1000,1000)` gives host `300.1.1.1` and port 257000 |
| Pasv.Decode | ftp_minimal.cpp:83-85 | corrected decoding: the leading reply-code digits are dropped before the same scan, so it agrees with the as-written decoding on every reply that does not start with a digit |
| Pasv.CorrectedDecodes | ftp_minimal.cpp:83-85 | corrected: a reply code, then non-digits, then the tuple decode to the tuple's host and port |
| Pasv.SkipCode | ftp_minimal.cpp:83 | corrected decoding drops the leading reply-code digits and then scans as written |
| Pasv.CorrectedAgrees | ftp_minimal.cpp:83 | on every reply not starting with a digit the correction changes nothing |
| Pasv.StandardReplyCorrected | ftp_minimal.cpp:83-85 | corrected, the standard reply decodes to `192.168.1.2` port 5001 |
| Minimal.PasvDataF | ftp_minimal.cpp:79-86 | `pasv_data`, which dials the endpoint decoded by `sscanf` as written, only appends to the log and uploads nothing |
| Minimal.PasvDataReads | ftp_minimal.cpp:80-85 | if the PASV send fails, the result is -1 and nothing is read; otherwise exactly one line is read, decoded by `sscanf` as written, and dialled, and the result is whatever `connect_to` returns |
| Minimal.PasvDataDigitReply | ftp_minimal.cpp:83-85 | a reply whose first byte is a digit, as every standard 227 reply is, makes `pasv_data` dial `0.0.0.0` port 0 |
| Minimal.PasvData | ftp_minimal.cpp:79-86 | the method equals `PasvDataF` |
| Minimal.Chunks | ftp_minimal.cpp:110-111 | `fread` splits a file into non-empty buffers of at most 1024 bytes, all full except the last |
| Minimal.ChunksFlatten | ftp_minimal.cpp:111 | the buffers concatenate back to the file |
| Minimal.WritesCarryData | ftp_minimal.cpp:111 | the data sent on the socket is the concatenation of the buffers |
| Minimal.SendAllF | ftp_minimal.cpp:111 | the loop sends one write per buffer, in order |
| Minimal.SendAllCarriesFile | ftp_minimal.cpp:111 | the data connection carries exactly the file's bytes, with no reply read |
| Minimal.SendAll | ftp_minimal.cpp:110-111 | the `fread`/`send` loop equals `SendAllF` |
| Minimal.StoreFile | ftp_minimal.cpp:108-113 | an opened file logs, in order: the open, one write per buffer, the close of the data socket, and the reception of the next control line |
| Minimal.StoreFileCounts | ftp_minimal.cpp:108-113 | an opened file is sent whole, then the socket is closed and exactly one reply is read |
| Minimal.UploadOneF | ftp_minimal.cpp:103-114 | `upload_one` counts as one upload exactly when it returns true |
| Minimal.AfterStor | ftp_minimal.cpp:107-113 | after STOR is sent, the result is true exactly when the local file opened |
| Minimal.UploadOne | ftp_minimal.cpp:103-114 | the method equals `UploadOneF` |
| Minimal.ReadableOutcome | ftp_minimal.cpp:107-113 | with a readable file: true, the whole file on the data socket, and two replies read after STOR |
| Minimal.UnreadableOutcome | ftp_minimal.cpp:107-109 | with an unreadable file: false, nothing sent, one reply read after STOR |
| Minimal.UploadOneOutcome | ftp_minimal.cpp:103-114 | true exactly when the data connection, the STOR send and the fopen succeed; the file is then sent whole, and exactly one reply is read after STOR and one after closing; the exact event trace after PASV is `AfterPasvTrace` |
| Minimal.AfterPasvTrace | ftp_minimal.cpp:104-113 | the events of `upload_one` after PASV: none without a data connection, the STOR send and the close when STOR fails, otherwise the STOR send followed by `StorReplyTrace` |
| Minimal.StorReplyTrace | ftp_minimal.cpp:107-113 | after STOR: the reply line, then either a failed open and the close, or the open, the buffers, the close and the final reply |
| Minimal.AfterStorTrace | ftp_minimal.cpp:107-113 | the rest of `upload_one` after STOR logs exactly `StorReplyTrace` |
| Minimal.StorFailedEvents | ftp_minimal.cpp:106 | a failed STOR send logs the send and then closes the data socket |
| Minimal.StorSentEvents | ftp_minimal.cpp:106-113 | a successful STOR send is followed by exactly `StorReplyTrace` |
| Minimal.StorFailedOutcome | ftp_minimal.cpp:106 | a failed STOR send returns false with no reply read and no data sent |
| Minimal.StorSentOutcome | ftp_minimal.cpp:106-113 | once STOR is sent, the result is the fopen outcome |
| Minimal.StorSentTrace | ftp_minimal.cpp:107-113 | data and reply counts after STOR: the file and two replies, or nothing and one reply |
| Minimal.UploadStartsWithPasv | ftp_minimal.cpp:80 | every upload begins with the PASV command |
| Minimal.SyncDirF | ftp_minimal.cpp:116-130 | the counter never decreases, stays within 128 when it starts there, and grows by exactly the number of successful uploads |
| Minimal.SyncLoop | ftp_minimal.cpp:118-129 | the same for the entry loop |
| Minimal.SyncEntry | ftp_minimal.cpp:119-128 | the same for one entry |
| Minimal.MakeDir | ftp_minimal.cpp:124 | a directory's MKD and its reply consume no budget; it logs the MKD send, then the reply line exactly when the send succeeded, and moves the cursor past that line only then |
| Minimal.SyncDir | ftp_minimal.cpp:116-130 | the loop with its budget check and `continue` equals `SyncDirF` |
| Minimal.SyncOne | ftp_minimal.cpp:120-128 | one iteration equals `SyncEntry` |
| Minimal.LoopStep | ftp_minimal.cpp:118-121 | one iteration, and `.fooname` leaves state and counter unchanged |
| Minimal.BudgetSpent | ftp_minimal.cpp:117-119 | with the counter at 128 or more, nothing happens and the counter is unchanged |
| Minimal.SyncStartsWithSend | ftp_minimal.cpp:116-130 | whatever a walk does, it starts by sending a command |
| Minimal.DirectoryMkdFirst | ftp_minimal.cpp:122-125 | a directory first sends `MKD rem/name`, reads a reply exactly when that send succeeded, and is then walked from the state after MKD whatever the reply; its trace is the MKD events followed by the sub-walk's |
| Minimal.OnlyFoonameSkipped | ftp_minimal.cpp:121 | an entry leaves no trace exactly when it is named `.fooname` |
| Minimal.FailedUploadContinues | ftp_minimal.cpp:126-128 | a failed upload consumes no budget and the loop goes on to the next entry |

## Left out

- WinINet, Win32 and socket calls are oracles: `Server` for the WinINet clients and `Net` (send result and `connect_to` result) for ftp_minimal.cpp. `connect_to` and `getaddrinfo` are therefore not modelled beyond the value they return.
- Why a call failed is not modelled, except the mkdir rule in `main`. `GetLastError` inside `ensure_remote_path` only selects a log message, and the loop continues either way.
- Logging, `print_last_error`, `show_usage`, console output and the display-only `list_files` and `list_remote`.
- Configuration loading: `get_json_value` (a regex), `load_config` and `load_cfg`. Timeouts set with `InternetSetOptionA`.
- Command-line dispatch of the `main` functions, apart from mkdir and the exit codes. The single-file upload, download and delete commands are each one library call. The stdin loop, login, USER/PASS and QUIT of ftp_minimal.cpp are left out; their replies are read and discarded.
- Minimal.SendAll: `send` on the data socket is taken to send the whole buffer. Its result is ignored by the code, so a partial or failed send is not modelled. `fread` is taken to fill whole buffers until the last one, as it does for a regular file.
- Pasv.ReadDigits: numbers are unbounded. The overflow of `%d` and of `p1*256+p2` in a 32-bit `int` is not modelled.
- Minimal.SyncDirF: `cnt` is an unbounded integer. It never exceeds 128 in the code, so 32-bit overflow cannot arise.
- Download.DownV1FollowsV2: stated only for a non-empty remote path. At the empty path v2 names children `name` and v1 names them `/name`, so the plans differ there.
- Upload.PlanShaped: the shape compares lists of path segments. The directories `ensure_remote_path` creates are relative (no leading `/`, ftp_client_v2.cpp:128), while the puts use the absolute remote path. With the default remote path `/`, a directory `a` is created as `a` and its file is put as `//a/x`. The two name the same directory only when the login directory is `/`.
- Upload.PlanEntryShaped: the same segment-level comparison as Upload.PlanShaped, for one entry.
- Upload.WalkShaped: the same segment-level comparison as Upload.PlanShaped, for the calls the walk makes.
- Control.SendCmd: the code counts any `send` result of 0 or more as success (ftp_minimal.cpp:76), so a partial send is a success. The model logs the whole frame as sent.
- Control.RecvLine: a failed or closed `recv` ends the line (ftp_minimal.cpp:67). The server's bytes are one fixed stream, so a transient error after which later bytes are still readable cannot be expressed.
- Local file contents matter only to ftp_minimal.cpp: a file is its bytes or unreadable. The WinINet clients hand paths to the library, which reads the files.
- Local path syntax: the local tree is given as entries, so `filename()` and `directory_iterator` failures (which throw) are not modelled.

## Findings

| source | as written | input that shows it | evidently intended | confidence | as-written member | corrected member |
|---|---|---|---|---|---|---|
| ftp_minimal.cpp:83 | `%*[^0-9]` must match at least one non-digit, so a reply that starts with a digit assigns no field and `pasv_data` dials `0.0.0.0` port 0 | `227 Entering Passive Mode (192,168,1,2,19,137)` followed by CR LF, the reply text of section 4.2.2 of RFC 959 | skip the reply code and the text, and dial `192.168.1.2` port 5001 | high, not executed | Pasv.StandardReplyAsWritten | Pasv.StandardReplyCorrected |
