# libguestfs components: models and proofs

The repository vendors libguestfs 1.28.1: a daemon that runs inside an appliance
and works on guest disks, and a library that talks to it over a socket. This
project models the parts of it with the most state and branching, and proves what
they promise for all inputs, all runs and all behaviours of the kernel that the
contracts of the small kernel methods allow (short reads and writes, failing calls,
any thread schedule).

| file | component |
|---|---|
| `Pxzcat.dfy` | the parallel xz decompressor as an interleaved step system |
| `Wire.dfy`, `Sockets.dfy` | XDR words, chunks, frames, the byte stream |
| `Daemon.dfy`, `Download.dfy` | file transfer both ways, cancellation, progress messages |
| `Replies.dfy`, `Serving.dfy`, `MainLoop.dfy` | headers and replies, one request, whole sessions |
| `Rendezvous.dfy` | both ends of one upload with cancel words crossing |
| `Progress.dfy` | rate limiting of progress messages |
| `Inotify.dfy` | the streaming event parser |
| `Xattr.dfy`, `Visit.dfy` | flattened extended attributes and the tree walk that reads them |
| `Mounts.dfy`, `UmountAll.dfy`, `Command.dfy`, `Mkdir.dfy` | mount table, unmounting, guest commands, `mkdir -p` |
| `DeviceNames.dfy`, `MdCreate.dfy`, `Files.dfy`, `Copy.dfy`, `ZeroDevice.dfy`, `SplitLines.dfy`, `Csv.dfy` | byte and string kernels |
| `Bytes.dfy`, `Seqs.dfy`, `Sort.dfy`, `Decimals.dfy`, `Faults.dfy`, `Wrappers.dfy` | shared definitions |

## How it is modelled

- The kernel, the clock and the other end of a socket are methods whose contracts
  allow every outcome the code must cope with; their bodies choose with `*` or `:|`.
  A ghost argument names the bytes or items that are still on the wire.
- `Faults.System` is where failures of system calls, allocations and remote calls come
  from, and counts them, so that a contract can say that an operation succeeds if and
  only if nothing failed.
- Threads are steps: a run of `Pxzcat` or `Rendezvous` is any sequence of enabled
  steps, and the theorems are about every run.
- Growable C arrays are sequences; the inotify buffer, the string that `split_lines`
  overwrites, `stringsbuf` and the zeroed device are arrays updated in place.
- Integers are unbounded where the code's width plays no part; wire words are 32
  and 64 bits wide.

## Findings

- **Lost terminator.** When the library gives up an upload on its own account (user
  cancel, local read error) and finds the daemon's cancel word in the check before
  its cancel chunk, it drops the chunk and returns (`src/proto.c:362-368`, `449-454`).
  The daemon then waits for a terminator that never comes and the library for a reply.
  `Rendezvous.CollisionExample` is such a run and `RestsFinishedIffNoCollision` shows
  that it is the only way the two can come to rest without a reply.
- **Refused uploads.** A header that `main_loop` refuses (another protocol version, say)
  is answered, but the transfer behind it is not drained (`daemon/proto.c:157-178`): its
  chunks are taken for requests until one is too short for a header, and the daemon
  exits. `MainLoop.MainLoop` shows that a session is served to its end if and only if no
  refused request carries a transfer; `RefusedUploadExample` is one that does.
- **Unchecked block sizes.** `worker_thread` never compares what a block decodes to with
  the size in the index. `Pxzcat.RightOutputIffMatched` shows that a normal return gives
  the right output if and only if all sizes agree, on any data when no block is too long
  and on data without zero bytes otherwise;
  `MismatchExample` is a run that returns normally with a wrong output.
- **Size of inotify replies.** The space estimate in `do_inotify_read` is checked between
  reads only (`daemon/inotify.c:206-212`), so the comment's "we won't exceed maximum
  message size" fails. `Inotify.Reader.DoInotifyRead` gives the condition: the reply is
  within the message size, whatever the kernel's reads, if the encoding of all events
  waiting at the call is, and a call that empties the queue replies within it only if
  that encoding is. `QueueCanExceed`: of a file opened and read in turn, 209713 events
  fit and 209714 do not. After an overlong name no call returns another event until the
  handle is closed.
- **Device names.** `compare_device_names` aborts the daemon for any name whose part
  before the first `d` is empty or longer than two characters, and for two names of which
  one is the other and a number (`DeviceNames.AbortsExactly`, over all strings). The only
  caller collects `sr` devices as well (`daemon/devsparts.c:60-64`), so listing devices
  compares an aborting pair whenever a CD-ROM drive is one of two or more devices
  (`SortMayAbort`; `AbortExamples`: /dev/sda and /dev/sr0, /dev/sda and /dev/sda1).
- **RAID arguments.** `do_md_create` accepts bitmaps that make its merge loop run past
  the device list, and spare counts that abort the daemon; `MdCreate.DoMdCreate` states
  exactly when, and `OverrunExample` and `TooManySparesExample` are such calls.
- **Documentation and code.** `src/guestfs.pod:3697-3701` says the daemon sends no
  reply when the library cancels an upload; the code sends an error reply
  (`daemon/upload.c:96-103`), and the model follows the code. The comment over
  `recursive_mkdir` promises -2 for any path element that is not a directory; the
  code gives -2 only for the path itself and -1 for an ancestor (`Mkdir.Outcome`,
  `Mkdir.AncestorExample`).

## Model

| member | source | states |
|---|---|---|
| Pxzcat.PrepareOutput | libguestfs-1.28.1/builder/pxzcat-c.c:187-209 | whatever the output file held, it is all zero and of the uncompressed size before the workers start |
| Pxzcat.StepInv | libguestfs-1.28.1/builder/pxzcat-c.c:495-666 | every step of every worker (claim, header, decode, flush, skip of a zero buffer, failed or short pwrite) keeps the invariant: no block has two owners, each worker's buffer and position follow what was flushed of its block, and every block behind the iterator is done, owned, or left by a failed worker |
| Pxzcat.RunFile | libguestfs-1.28.1/builder/pxzcat-c.c:615-646 | in any run, failing ones included, as long as no worker has decoded more than its block's indexed size, each block's range in the file holds exactly what was flushed for it followed by zeros |
| Pxzcat.WriteFills | libguestfs-1.28.1/builder/pxzcat-c.c:629-646 | a pwrite at the current position extends the block's decoded prefix and leaves every slice outside the block alone |
| Pxzcat.SkipFills | libguestfs-1.28.1/builder/pxzcat-c.c:632-642 | skipping an all-zero buffer leaves the file as if it had been written |
| Pxzcat.NormalReturnMeansSequentialOutput | libguestfs-1.28.1/builder/pxzcat-c.c:444-492 | for any number of threads and any interleaving, and whatever a failing decoder produces, a normal return on blocks that decode to their indexed sizes means the output is their in-order concatenation |
| Pxzcat.RightOutputIffMatched | libguestfs-1.28.1/builder/pxzcat-c.c:610-656 | a normal return leaves the concatenation of the blocks at the indexed total size if and only if every block decodes to its indexed size: on any data if no block decodes to more than that, and otherwise on blocks without zero bytes |
| Pxzcat.MismatchExample | libguestfs-1.28.1/builder/pxzcat-c.c:648-656 | a block one byte shorter than indexed: no error and a wrong output |
| Pxzcat.EveryBlockClaimed | libguestfs-1.28.1/builder/pxzcat-c.c:516-533 | at a normal return every non-empty block was claimed |
| Pxzcat.FailureHasACause | libguestfs-1.28.1/builder/pxzcat-c.c:535-656 | in a run without a bad header, an error from liblzma or a failed write no thread gives up, whatever the interleaving |
| Pxzcat.HonestRunsReturnNormally | libguestfs-1.28.1/builder/pxzcat-c.c:505-666 | any run in which nothing fails and liblzma decodes the blocks, stopped anywhere, goes on to a normal return of all threads, within a number of steps fixed at the start |
| Pxzcat.SomeRunReturnsNormally | libguestfs-1.28.1/builder/pxzcat-c.c:444-492 | for every index and number of threads there is a run that returns normally |
| Pxzcat.WorkFalls | libguestfs-1.28.1/builder/pxzcat-c.c:505-666 | every such step uses up a bounded quantity, so no schedule runs for ever |
| Pxzcat.ClaimedAtMostOnce | libguestfs-1.28.1/builder/pxzcat-c.c:516-533 | in every run, failing ones included, blocks are claimed in increasing order, so none twice |
| Pxzcat.FlushStaysInClaim | libguestfs-1.28.1/builder/pxzcat-c.c:596-642 | every write starts in the range of a block which the same thread claimed earlier, and stays in it iff no more than the indexed size was decoded |
| Pxzcat.WritesNeverOverlap | libguestfs-1.28.1/builder/pxzcat-c.c:422-432 | write ranges of different threads that have not overrun their blocks are disjoint, at whatever times they happen, also in failing runs |
| Pxzcat.NormalRunsStayWithin | libguestfs-1.28.1/builder/pxzcat-c.c:650-656 | in a run that returns normally on blocks that match the index no thread ever overruns its block |
| Bytes.IsZero | libguestfs-1.28.1/daemon/daemon.h:322-338 | true iff all tested bytes are zero |
| Wire.ChunkRoundTrip | libguestfs-1.28.1/daemon/proto.c:594-624 | an encoded chunk, padding included, fits the MAX_CHUNK_SIZE + 48 byte buffer and is a legal message length, and decodes to the same chunk |
| Wire.ProgressRoundTrip | libguestfs-1.28.1/generator/xdr.ml:266-272 | a progress message is 24 bytes and decodes to itself |
| Wire.StreamRoundTrip | libguestfs-1.28.1/src/proto.c:494-603 | any interleaving of replies, chunks, progress, cancel and launch words decodes to exactly that sequence |
| Wire.PulseIsProgress | libguestfs-1.28.1/daemon/proto.c:773-800 | the bytes built by hand in the signal handler are the XDR encoding of progress (0, 1), for every procedure and serial number |
| Sockets.Socket.XRead | libguestfs-1.28.1/daemon/guestfsd.c:500-521 | exactly n bytes are taken however the kernel splits them; it fails only if a read failed or the stream is shorter |
| Sockets.FirstWord | libguestfs-1.28.1/generator/xdr.ml:205-208 | the word at the front of the stream is the cancel flag iff a cancel word stands there: no frame length equals it |
| Sockets.Socket.ReadItem | libguestfs-1.28.1/daemon/proto.c:411-435 | one turn of reading takes exactly one frame or one cancel word off the byte stream |
| Sockets.Socket.PollCancel | libguestfs-1.28.1/daemon/proto.c:543-581 | reports a cancel iff it took a cancel word off the stream; otherwise takes nothing, or, if the library did not wait for the transfer, exactly the length word of its next request |
| Files.File.XWrite | libguestfs-1.28.1/daemon/guestfsd.c:481-498 | writes everything, or fails after a prefix that is in the file |
| Daemon.Daemon.ReceiveFile | libguestfs-1.28.1/daemon/proto.c:395-485 | ends at the terminator with all data stored (0 or -2), or after the chunk that could not be stored (-1) with the rest of a well-formed transfer still unread; only progress messages are sent meanwhile |
| Daemon.Daemon.CancelReceive | libguestfs-1.28.1/daemon/proto.c:487-506 | sends one cancel word and drains exactly through the terminator without touching the file |
| Daemon.Daemon.Upload | libguestfs-1.28.1/daemon/upload.c:57-111 | on every path (open, seek, write or close failure, library cancel, success) the stream is consumed exactly through the terminator; 0 iff the library sent the whole file and no call failed; one error reply iff -1, after at most one cancel word; on 0 the file holds the chunks at the offset, and otherwise a prefix of them or nothing new |
| Daemon.Daemon.NotifyProgress | libguestfs-1.28.1/daemon/proto.c:633-708 | sends the message with this call's procedure, serial, position and total, or nothing when the limiter holds it back, and keeps the daemon's messages on schedule |
| Download.SendFileWrite | libguestfs-1.28.1/daemon/proto.c:511-541 | sends the data chunk, or the cancel chunk exactly when a cancel word was taken; refuses an oversized buffer without sending |
| Download.DoDownloadOffset | libguestfs-1.28.1/daemon/upload.c:227-311 | a refusal is one error reply and no chunk; after the OK reply come data chunks with a prefix of the range and exactly one terminator, and a normal one means the whole range up to end of file; 0 iff the arguments are not negative, no call failed and nobody cancelled; a library cancel is answered by the cancel chunk or left unread; progress messages tell the bytes sent before them |
| Download.DoDownload | libguestfs-1.28.1/daemon/upload.c:150-225 | the same for a whole file |
| Replies.HeaderRoundTrip | libguestfs-1.28.1/generator/xdr.ml:232-241 | the 40-byte header decodes to itself whatever body follows |
| Replies.HeaderLayout | libguestfs-1.28.1/generator/xdr.ml:232-241 | the header's fields in the order and width that the protocol's struct gives them |
| Replies.ErrorReply | libguestfs-1.28.1/daemon/proto.c:266-335 | an error reply of any text fits its ERROR_LEN + 200 byte buffer and the message limit |
| Replies.ErrorRoundTrip | libguestfs-1.28.1/daemon/proto.c:266-335 | errno and text, cut to ERROR_LEN bytes, are read back from an error reply |
| Replies.ChunksAreNoAnswer | libguestfs-1.28.1/daemon/proto.c:583-624 | no file chunk can be taken for a reply |
| Serving.Serve | libguestfs-1.28.1/daemon/proto.c:145-199 | a request gets exactly one answer, with its own procedure and serial number or, if refused, an error with those of the call before, and is served rightly: an upload succeeds iff the library sent the whole file and no call failed, and then the file holds exactly that; a download sends one error, or the OK reply and a transfer of the file as it is, whole iff no call failed and nobody cancelled; anything else sends no chunk. Counted from the moment it was read it sends no progress message in its first 2000000 microseconds and at most 1 + (T - 2000000) / 333333 short of 100% in T |
| Serving.SentAnswers | libguestfs-1.28.1/daemon/proto.c:188-192 | whatever is sent for a request, exactly one message of it is an answer |
| MainLoop.MainLoop | libguestfs-1.28.1/daemon/proto.c:78-218 | over a whole session of ordinary calls, uploads, downloads, refused headers and late cancel words, with any failure or cancellation in the transfers, all that is sent is what the requests call for, each is served rightly on the file that the one before left and answered exactly once, in order, with the right procedure and serial number; the requests served are exactly the session's, with their transfers, iff no refused request carries a transfer, and otherwise the daemon exits inside the first such transfer |
| MainLoop.DownloadGivesUploaded | libguestfs-1.28.1/daemon/upload.c:57-225 | a download after a successful upload carries exactly the chunks that were uploaded |
| MainLoop.RefusedUploadExample | libguestfs-1.28.1/daemon/proto.c:161-164 | an upload that is refused and leaves its transfer unread |
| Rendezvous.StepInv | libguestfs-1.28.1/src/proto.c:317-474 | each step of library or daemon keeps the invariant that ties what was written, what is in flight and which cancel words are unread |
| Rendezvous.RunLog | libguestfs-1.28.1/src/proto.c:340-387 | in every run the library has written the file's chunks in order, and returns 0 only after all of them and the end marker |
| Rendezvous.EveryRunEnds | libguestfs-1.28.1/src/proto.c:340-387 | no run of the two sides has more than 2 n + 3 steps for a file of n chunks, so every run comes to rest |
| Rendezvous.RestsFinishedIffNoCollision | libguestfs-1.28.1/src/proto.c:362-384 | at rest the daemon has finished iff the library's own cancellation did not meet the daemon's cancel word; then the library's stream is a well-formed transfer, otherwise it has no terminator |
| Rendezvous.CollisionExample | libguestfs-1.28.1/src/proto.c:411-454 | a run that ends with the library returned and the daemon still draining |
| Progress.RateLimit | libguestfs-1.28.1/daemon/proto.c:626-664 | with a nondecreasing clock a request of T microseconds sends no scheduled message if T < 2000000 and at most 1 + (T - 2000000) / 333333 otherwise |
| Progress.FinalIsDelivered | libguestfs-1.28.1/daemon/proto.c:641-648 | once a message was sent, every call at 100% is delivered |
| Progress.FirstIsDelivered | libguestfs-1.28.1/daemon/proto.c:650-663 | by a call as late as the initial delay some message has been sent |
| Progress.EveryPeriodIsDelivered | libguestfs-1.28.1/daemon/proto.c:650-663 | after a message, by a call one period later another one has been sent |
| Progress.PulseEndIsDelivered | libguestfs-1.28.1/daemon/proto.c:716-746 | if the pulse timer fired, the closing message of pulse_mode_end is delivered although pulses are not counted |
| Inotify.ParseAppend | libguestfs-1.28.1/daemon/inotify.c:231-294 | parsing may stop anywhere and go on with the leftover and the bytes that follow, with the same events and leftover as in one go |
| Inotify.LeftoverIsPartial | libguestfs-1.28.1/daemon/inotify.c:239-243 | the leftover is a strict prefix of one event, so with names up to PATH_MAX the buffer never fills |
| Inotify.RecordsParse | libguestfs-1.28.1/daemon/inotify.c:231-285 | parsing the kernel's records of any list of events, with their padding, gives back every field of every event and leaves nothing over |
| Inotify.Reader.TakeEvents | libguestfs-1.28.1/daemon/inotify.c:231-287 | takes exactly the complete events off the buffer and subtracts their estimated sizes; stops with an error iff a complete event's name is longer than PATH_MAX |
| Inotify.EstimateIsSafe | libguestfs-1.28.1/daemon/inotify.c:278-279 | the estimate is never less than the XDR encoding of the events |
| Inotify.ReplySize | libguestfs-1.28.1/generator/structs.ml:226-233 | the size used for the encoding is the length of the XDR bytes of the list |
| Inotify.CostOfBytes | libguestfs-1.28.1/daemon/inotify.c:206-212 | the events parsed from a buffer are estimated at no more than one and a half times its bytes |
| Inotify.TakenOfWaiting | libguestfs-1.28.1/daemon/inotify.c:204-294 | whatever part of the stream a call has read, the events it took are the first of those waiting in buffer and queue, all of them if the queue is empty, and their encoding fits if that of all waiting does |
| Inotify.QueueCanExceed | libguestfs-1.28.1/daemon/inotify.c:206-217 | for events of a file opened and read in turn, of which no two neighbours are the same, the reply to all of them fits iff there are at most 209713, a fraction of the buffer |
| Inotify.Reader.DoInotifyRead | libguestfs-1.28.1/daemon/inotify.c:189-297 | it succeeds only when the kernel says that nothing is left or the reply is large; on success the events returned extend the one-shot parse of the bytes read before to that of the bytes read now, whatever the kernel's splits; it reports a read error iff a read failed, which loses exactly the events taken in that call and keeps the buffer in step; a length error needs an overlong name, and after it no event is returned any more; the reply fits the message size if the encoding of all events waiting at the call does, and for a call that empties the queue iff it does; in any case its estimated size is at most half the message size plus one and a half times the bytes that were waiting |
| Inotify.Reader.ReadRepeatedly | libguestfs-1.28.1/daemon/inotify.c:43-44 | over any number of calls the lists returned, end to end, are the one-shot parse |
| Inotify.Reader.Close | libguestfs-1.28.1/daemon/inotify.c:132-151 | 0 iff the handle was open and close(2) succeeded; then handle and partial event are dropped, otherwise both are kept |
| Inotify.Reader.Init | libguestfs-1.28.1/daemon/inotify.c:76-130 | 0 iff the argument is not negative and no call failed; a new handle starts with an empty buffer; if the old one could not be closed everything is as before |
| Sort.SortIsUnique | libguestfs-1.28.1/daemon/xattr.c:429-430 | where no two elements compare equal, any qsort gives the same result |
| Xattr.AnyQsortAgrees | libguestfs-1.28.1/daemon/xattr.c:96-103 | sorting a file's attributes by strcmp of their distinct names has one possible result |
| Xattr.StrLeAt | libguestfs-1.28.1/daemon/xattr.c:96-103 | the first differing byte decides the order of two names, and a proper prefix comes first |
| Xattr.CountRoundTrip | libguestfs-1.28.1/cat/visit.c:106-115 | the printed attribute count scans back to itself |
| Xattr.EncodeAppend | libguestfs-1.28.1/src/file.c:422-480 | fetching the list in batches gives the same list |
| Xattr.DecodeInvertsEncode | libguestfs-1.28.1/cat/visit.c:89-119 | for any number of files and attributes, reading at file k's start finds its nameless entry, reports an unreadable file as an error, and otherwise yields that file's own sorted attributes and the start of file k + 1 |
| Xattr.CountNames | libguestfs-1.28.1/daemon/xattr.c:357-362 | counts the NUL-terminated names |
| Xattr.NamesOfPut | libguestfs-1.28.1/daemon/xattr.c:357-362 | reading a list of NUL-terminated names gives back the names |
| Xattr.FetchValues | libguestfs-1.28.1/daemon/xattr.c:385-417 | succeeds iff every listed attribute can be fetched, with each name's own value |
| Xattr.DoInternalLxattrlist | libguestfs-1.28.1/daemon/xattr.c:279-433 | fails iff some attribute cannot be fetched; otherwise the list is the flattened encoding of all files, unlistable ones as bare entries |
| Visit.VisitDir | libguestfs-1.28.1/cat/visit.c:72-134 | it succeeds iff no file is unreadable, no remote call fails and the visitor does not stop it, and then the visitor was called exactly along the walk; on failure for a prefix of it; the empty-name assertion never fires |
| Visit.VisitTop | libguestfs-1.28.1/cat/visit.c:39-70 | the top directory is visited first, then the walk below it |
| Visit.WalkVisitsEachNodeOnce | libguestfs-1.28.1/cat/visit.c:125-130 | a node is visited iff it lies in directories all the way from the top, with its own name and sorted attributes and with the names of those directories joined by single slashes |
| Visit.IsDirExactly | libguestfs-1.28.1/cat/visit.c:169-172 | the test on st_mode tells directories from the six other file types, whatever the permission bits |
| Visit.FullPathIsPath | libguestfs-1.28.1/cat/visit.c:137-158 | full_path adds one name to a path |
| Visit.ParentFirstAndOnlyOnce | libguestfs-1.28.1/cat/visit.c:121-130 | no node is visited twice and a directory is visited before all that is inside it |
| Mounts.PopRemovesOne | libguestfs-1.28.1/daemon/mount.c:420-430 | an umount removes exactly the newest mount on the path |
| UmountAll.LongestIsFree | libguestfs-1.28.1/daemon/mount.c:346-364 | at the head of a longest-first list of what remains nothing is mounted beneath |
| UmountAll.PopSelected | libguestfs-1.28.1/daemon/mount.c:399-412 | unmounting a selected path takes one entry off the list and no other mount |
| UmountAll.DoUmountAll | libguestfs-1.28.1/daemon/mount.c:366-435 | for any mount table, duplicates included, and any order among equal lengths, no umount fails, nothing is left mounted on the sysroot or beneath it, all other mounts are untouched |
| UmountAll.SelectedExactly | libguestfs-1.28.1/daemon/mount.c:399-412 | the two tests select exactly what is mounted on the sysroot or beneath it |
| Command.BindState.BindMount | libguestfs-1.28.1/daemon/command.c:70-120 | after any pattern of failures the table is extended by exactly the binds whose flags are set, and a flag is clear exactly for each mount that failed; out of memory mounts nothing |
| Command.BindState.Free | libguestfs-1.28.1/daemon/command.c:128-146 | the table is back to what it was; a second run does nothing |
| Command.ResolverState.SetUp | libguestfs-1.28.1/daemon/command.c:157-215 | on failure no file changed; on success the old entry, if any, is under the backup name and all else is as before; if nothing fails the name holds the appliance's configuration |
| Command.ResolverState.Free | libguestfs-1.28.1/daemon/command.c:217-238 | the guest's files are exactly as before; a second run does nothing |
| Command.DoCommand | libguestfs-1.28.1/daemon/command.c:240-283 | every exit restores the mount table and the guest's files exactly; the command sees the binds that could be made; if nothing fails it runs with all six and the resolver configuration, and the call succeeds |
| Mkdir.RecursiveMkdir | libguestfs-1.28.1/daemon/dir.c:121-166 | 0 iff the path is then a directory; success creates exactly the missing ancestors and the path; no other node changes on any result; -2 iff the path itself is something else; -1 iff an ancestor is no directory or some mkdir was denied; terminates by path length |
| Mkdir.AncestorExample | libguestfs-1.28.1/daemon/dir.c:121-125 | with a file at /a, making /a/b gives -1 |
| DeviceNames.NumberOfName | libguestfs-1.28.1/src/utils.c:260-272 | drive names are bijective base 26 of the drive's index |
| DeviceNames.NameOfNumber | libguestfs-1.28.1/src/utils.c:260-272 | every string of letters is the name of exactly its number |
| DeviceNames.CompareAgrees | libguestfs-1.28.1/daemon/guestfsd.c:647-704 | on sd, hd, ubd and vd names that both have or both lack a partition, text comparison agrees with drive number, then partition number, across interfaces |
| Decimals.PrintedScansBack | libguestfs-1.28.1/daemon/guestfsd.c:698-701 | a number printed in decimal scans back to itself |
| DeviceNames.AbortsExactly | libguestfs-1.28.1/daemon/guestfsd.c:662-701 | for any two strings: an assertion fails iff the part before the first d of one is empty or longer than two characters, or one name is the other followed by a number; a pointer leaves its string iff a name of one or two characters has no d |
| DeviceNames.DisksAbort | libguestfs-1.28.1/daemon/guestfsd.c:690-701 | on sd, hd, ubd and vd names it fails iff they are of one drive and only one has a partition |
| DeviceNames.CollectedAborts | libguestfs-1.28.1/daemon/devsparts.c:60-64 | of two devices found in /sys/block, comparing aborts iff one is a CD-ROM drive |
| DeviceNames.SortMayAbort | libguestfs-1.28.1/daemon/devsparts.c:110-112 | a list of devices holds a pair that aborts iff it has two names or more and one is a CD-ROM drive |
| DeviceNames.AbortExamples | libguestfs-1.28.1/daemon/guestfsd.c:662-701 | /dev/sda with /dev/sr0, and /dev/sda with /dev/sda1 |
| DeviceNames.TotalOnAlike | libguestfs-1.28.1/daemon/guestfsd.c:650-704 | the comparison is total and transitive on such names |
| DeviceNames.SortedByDrive | libguestfs-1.28.1/daemon/guestfsd.c:714-718 | any sorted result is in drive order and, within a drive, partition order |
| MdCreate.MergeDevices | libguestfs-1.28.1/daemon/md.c:155-167 | completes iff the bitmap fits the devices and the list fits the array; then "missing" stands at exactly the set bits and the devices in order elsewhere; otherwise it stops where the devices run out under a clear bit, or where the array is full, whichever comes first |
| MdCreate.DoMdCreate | libguestfs-1.28.1/daemon/md.c:62-178 | refused iff a check fails; an accepted call runs iff the bitmap fits and the spares are within the limit; each option of mdadm is followed by its own value, and the device arguments are the merged list of nrdevices + spare entries |
| MdCreate.OverrunExample | libguestfs-1.28.1/daemon/md.c:121-167 | two devices and bit 3 are accepted and do not fit |
| MdCreate.TooManySparesExample | libguestfs-1.28.1/daemon/md.c:121-167 | six spares among eight devices are accepted and exceed the argument array |
| Copy.LaidIsExact | libguestfs-1.28.1/daemon/copy.c:153-181 | without sparse the destination is exactly the old one with the range written over it; with sparse, onto zeros, it is that up to zeros missing at the end |
| Copy.CopyLoop | libguestfs-1.28.1/daemon/copy.c:118-205 | lays exactly the bytes read over the destination, length included; no reply or progress message while the pulse timer is armed, and it is off on every exit |
| Copy.Copy | libguestfs-1.28.1/daemon/copy.c:45-208 | for every pattern of short reads and writes, it succeeds iff no argument is negative, no call fails and the source is long enough; success places exactly the requested range and changes nothing else: without sparse the new contents equal the old ones with the range written over them; a failure gives one error |
| ZeroDevice.DoZeroDevice | libguestfs-1.28.1/daemon/zero.c:137-194 | 0 iff no call failed, and then every byte of the device is zero whatever it and the buffer held; on any return a byte is zero or unchanged |
| SplitLines.StringsBuf.Add | libguestfs-1.28.1/daemon/guestfsd.c:523-562 | appends one string, growing the array when full, and keeps the rest; it fails iff an allocation does, and then the whole list is dropped |
| SplitLines.SplitJoin | libguestfs-1.28.1/daemon/guestfsd.c:1099-1116 | splitting newline-terminated lines gives the lines back |
| SplitLines.JoinSplit | libguestfs-1.28.1/daemon/guestfsd.c:1099-1116 | joining the lines of a string gives it back, with a final newline if it lacked one; no line holds a newline |
| SplitLines.SplitLines | libguestfs-1.28.1/daemon/guestfsd.c:1117-1149 | it fails iff an allocation does; otherwise the list is the lines of the string, and in the buffer exactly the newlines have become NULs; after a failure there is no list and only newlines up to some point have become NULs |
| Csv.WriteCsvField | libguestfs-1.28.1/cat/filesystems.c:931-962 | prints the field as is, or quoted with quotes doubled iff it holds a space, quote, newline or comma |
| Csv.WriteRowStrings | libguestfs-1.28.1/cat/filesystems.c:905-926 | prints the cells separated by commas and ended by a newline, nothing for NULL |
| Csv.FieldRoundTrip | libguestfs-1.28.1/cat/filesystems.c:928-962 | a reader after section 2 of RFC 4180 takes exactly the field off the text |
| Csv.RowsRoundTrip | libguestfs-1.28.1/cat/filesystems.c:905-962 | the reader recovers every list of non-empty rows, NULL as the empty string |

## Left out

- Pxzcat.NormalReturnMeansSequentialOutput: takes the block index as given (`parse_indexes` is not modelled); what a block decodes to is what liblzma has produced when it reports the end of the block.
- Pxzcat.RightOutputIffMatched: where a block decodes to more than its indexed size the iff is stated for data without zero bytes only: it then overlaps or takes the place of its neighbours, and zeros or equal bytes there can make up for it.
- Wire.StreamRoundTrip: models the decoder on whole byte sequences; the library's log-message handling during reads is not part of it.
- Daemon.Daemon.Upload: assumes that writes to the socket succeed, and covers well-formed transfers only: allocation failures and undecodable chunks in `receive_file` lose synchronisation by the code's own account. The FileIn calls that reply without draining (negative offset in `do_upload_offset`, unknown compression in `do_tar_in`, mkstemp failure in `do_ntfsclone_in`) are not modelled. One error text stands for all.
- Download.SendFileWrite: assumes that the library sends no new request before the transfer is over, as the protocol has it; `Sockets.Socket.PollCancel` says what happens otherwise.
- MainLoop.MainLoop: reads of the socket do not fail (the daemon exits when one does). It knows upload (66) and download (67), of one file that the arguments name, as the procedures with file parameters; any other procedure is progress messages and one reply, and leaves that file alone.
- Inotify.Reader.DoInotifyRead: allocation failures are not modelled; names are taken to end within their length field, as the kernel pads them with NULs; little-endian fields.
- Xattr.DecodeInvertsEncode: the count scanner reads plain decimal digits only, not the leading blanks and signs that sscanf would also accept.
- Xattr.DoInternalLxattrlist: attributes do not change between the two calls for each value; allocation failures are not modelled.
- UmountAll.DoUmountAll: requires a sysroot without a trailing slash, which is what `daemon/guestfsd.c:117` and `189` set; handles that keep a filesystem busy are closed beforehand and not modelled.
- Command.DoCommand: assumes that the backup name is fresh, that unlink and the restoring rename succeed, and that the guest command alters neither mounts nor the two names.
- Mkdir.RecursiveMkdir: normalized absolute paths in a tree without symbolic links that nobody else changes; lstat of an existing name succeeds.
- DeviceNames.CompareAgrees: partition numbers below 2^31, and names that all have or all lack one.
- DeviceNames.SortMayAbort: which pairs qsort compares is up to the C library.
- Copy.Copy: the unlinking of a partial destination file on failure is not modelled.
- ZeroDevice.DoZeroDevice: preads of a device are full and pwrites positive.
- Csv.RowsRoundTrip: rows without columns print like a row with one empty column and are excluded.
- `parse_indexes`, the text-mode column alignment of virt-filesystems, and `compare_pvuuids`.
- The Python servlets (libvirt, Twisted and libxml2 plumbing), argument-building wrappers around external tools and the parsers of their output, command-line and OCaml glue, one-syscall wrappers, generated stubs.
