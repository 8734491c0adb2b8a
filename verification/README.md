# A verified model of a FUSE server library

This project models the core of a Go library for writing FUSE file systems, in Dafny,
and proves what that code keeps true over every run. Four parts of the library are modelled.

**memFS** (`samples/memfs`), an in-memory file system. `Inode` and `MemFS` are classes that
update their fields as the source does. Each request method is proved to take the abstract
state of `MemState` to the state that `MemRuns.Step` gives, so a sequence of calls is a run of
`Step`. Handlers hold one mutex for their whole body, so any concurrent execution is such a
run. `Slots` relates a directory's slot array to a finite map, `Namespace` and `NamespaceOps`
see all directories as one graph, `ExactCounts` says when link counts are exact,
`MemResults` says what each request does in terms of its own fields,
`WitnessRuns` has concrete runs where expectations about rename fail, `FileData` deals with slices whose capacity hides old bytes,
`Xattrs` with attribute listings, and `DirScan` with scans that overlap other requests.

**The connection and its server** (`connection.go`, `freelists.go`, `fuseutil/file_system.go`).
`Protocol` is a step system with one reader, any number of handlers, interrupts, recycled
buffers and a kernel that reuses a request ID once the reply to it has been written or lost;
`ProtocolRuns` proves what holds in all its runs. `ConnectionObject` has the connection as a
class, with `ReadOp` and `Reply` and the critical sections they are made of. Its ghost state
is the run of `Protocol` that the calls amount to, and `Buffers` says what it means that the
object is in the state this run has led to. `ServerObject` has the server's loop over it, for
any schedule of the kernel's messages, the reads and the handlers.

**The wire layer** (`internal/buffer`, `fuseutil/dirent.go`, parts of `conversions.go`).
`OutMessages` and `Responses` build replies, `InMessages` and `Decoding` take requests apart,
`Dirents` frames directory entries. The other side of the wire, the kernel's, is written as
specification functions: `Dirents.Parse`, `Responses.KernelAccepts`, `Xattrs.Split`,
`ConnectionObject.RequestBytes` and the
encodings in `Decoding`. `MemServer` puts the parts together for requests that read into the
reply: grow the message, let memFS fill it in, cut it, send it.

**forgetfs** (`samples/forgetfs`), a file system that counts lookups. `ForgetFS` has the
file system as a class and, around it, the kernel and the messages in transit.

## Conventions

Names, targets and contents are byte sequences; fixed-width integers are little-endian. Times
are not modelled. Where a request or a message decides whether the source panics, a method
returns `ok == false`, a function returns `None` or `Crash`, or the step system sets `panicked`
or stops its reader uncleanly, and the results show when that happens; where only the library's
own code decides, the condition is a precondition, met at every call in the model. The kernel's guarantees are explicit: `MemRuns.Legal` for memFS requests (non-empty names, live
inodes of the right kind, rename source and destination differ, no directory is moved into
itself, no more than 2^32 - 1 links, no NUL in attribute names), `Protocol.Enabled` and `ForgetFS.Enabled` for the
protocols. `Protocol` lets the kernel reuse the ID of a plain forget at once and the ID of a
batch forget, which gets no reply, once the server has finished it; the ID of any other request
is free again once its reply has been written or the write has failed.

Where the code and its comments differ, the model follows the code:

- A rename over an existing name does not decrement the replaced inode's link count, so the
  link-count law is an inequality; `ExactCounts.CountsExactIff` says when it is an equality.
- Rename tests the directory it replaces with a 4096-byte read, which misses a first entry
  whose name is longer than 4072 bytes (`MemRuns.RenameRefusesNonEmptyIff`,
  `WitnessRuns.RenameReplacesNonEmpty`).
- `SetInodeAttributes` applies a truncation that it answers with `EBADF`
  (`MemRuns.FailureChangesNothingIff`).
- `ListXattr` that answers `ERANGE` reports fewer bytes than the listing needs.
- `Fallocate` on memFS answers success for modes the inode does not support.
- A setxattr request with fewer than three bytes of name, NUL and value is refused.
- Symlink and rename requests whose only NUL is the last byte make the decoder slice out of
  range (`Decoding.SymlinkCrashesIff`, `Decoding.RenameCrashesIff`).
- A readdir request for no bytes panics when the reply is grown (`MemServer.ServeReadDir`).

## Model

| member | source | states |
|---|---|---|
| Dirents.WriteDirent | fuseutil/dirent.go:56-105 | writes the whole record at the given place or, if it does not fit, nothing; no other byte changes |
| Dirents.ParseInvertsEncodeAll | fuseutil/dirent.go:56-105 | parsing consecutive records gives back exactly the entries written, in order |
| Dirents.EncodeAllLen | fuseutil/dirent.go:69-83 | any run of records is a multiple of eight bytes long |
| Dirents.FitIsLongest | samples/memfs/inode.go:284-298 | what a read loop delivers is the longest prefix of entries whose records fit the buffer |
| Slots.FindIsLookup | samples/memfs/inode.go:166-213 | looking a non-empty name up in the slots agrees with the map, though slot types are not looked at |
| Slots.AddStays | samples/memfs/inode.go:48-59 | adding a child keeps the slot invariant, moves no used entry and never shrinks the array |
| Slots.AddBinds | samples/memfs/inode.go:219-252 | adding a child binds its name and changes no other binding |
| Slots.RemoveStays | samples/memfs/inode.go:48-59 | removing a child keeps the slot invariant and moves no other entry |
| Slots.RemoveUnbinds | samples/memfs/inode.go:258-273 | removing a child unbinds its name and changes no other binding |
| Slots.UsedFromExact | samples/memfs/inode.go:284-290 | a scan from a slot meets each used entry from there on once, in increasing offset order |
| Slots.CountIsMapSize | samples/memfs/inode.go:188-197 | the number of used entries is the number of names bound, and zero iff nothing is bound |
| Slots.RenameTestExact | samples/memfs/memfs.go:511-514 | rename's emptiness test agrees with RmDir's exactly when the directory is empty or its first name has at most 4072 bytes |
| Slots.ZeroReadIsEnd | fuseops/ops.go:604-608 | with a buffer that holds the longest name left, an empty read means the end of the directory and nothing else |
| FileData.NothingPastEnd | samples/memfs/inode.go:363-377 | whatever the history, positions past the end hold no byte a later growth could show |
| FileData.StepIsApply | samples/memfs/inode.go:336-345 | one write, truncation or fallocate on a slice with any capacity and any allocator changes the visible bytes as on a plain byte string |
| FileData.ApplyIsHistory | samples/memfs/inode.go:328-402 | applying an operation to a file that matches a history matches the longer history |
| FileData.SliceRunIsHistory | samples/memfs/inode.go:306-402 | after any history each visible byte is the last one written there, or zero if never written or cut off since; stale capacity never shows |
| FileData.ReadFromOffset | samples/memfs/inode.go:306-323 | a read yields as many bytes as asked for, or what is left after the offset if that is less, and byte i of it is the byte at offset + i |
| Namespace.NamedHasLink | samples/memfs/memfs.go:557-558 | an inode that has a name has a positive link count and is not the root |
| Namespace.ZeroLinksUnreachable | samples/memfs/memfs.go:581-585 | an inode with link count zero is named nowhere |
| Namespace.LawGivesOneParent | samples/memfs/memfs.go:291-331 | under the link-count law each directory has one incoming entry at most |
| Namespace.OneMoreEdgeAcyclic | samples/memfs/memfs.go:519-526 | hanging one directory under another makes no cycle unless the other is inside it |
| NamespaceOps.CreateKeeps | samples/memfs/memfs.go:291-449 | creating a child keeps binding soundness, the link-count law and the absence of cycles |
| NamespaceOps.LinkKeeps | samples/memfs/memfs.go:470-476 | a hard link to a file keeps the invariant if and only if the 32-bit count is not at its maximum |
| NamespaceOps.DeleteKeeps | samples/memfs/memfs.go:531-588 | removing a name decrements a count that is at least one and keeps the invariant |
| NamespaceOps.MoveLookUp | samples/memfs/memfs.go:490-529 | a rename binds the new name to the old child and type, removes the old name and changes no other name anywhere, also within one directory |
| NamespaceOps.MoveKeeps | samples/memfs/memfs.go:490-529 | a rename keeps the invariant, a whole subtree moving along; counts stay exact unless a name was replaced |
| NamespaceOps.MoveAcyclicIff | samples/memfs/memfs.go:519-526 | a rename leaves the directories without cycles if and only if it does not move a directory into itself or below itself |
| MemState.AllocShape | samples/memfs/memfs.go:178-195 | an allocated ID is not in use, the table and free list stay consistent, and no other inode changes |
| MemState.AllocAbs | samples/memfs/memfs.go:178-195 | allocation adds exactly one node without names to the graph |
| MemState.DeallocThenAlloc | samples/memfs/memfs.go:178-201 | freeing an ID keeps the free list exact and the next allocation reuses that ID |
| MemState.CreateChildAbs | samples/memfs/memfs.go:291-449 | creating fails with EEXIST and no change iff the name is bound, else adds one new inode and one binding |
| MemState.CreateLinkAbs | samples/memfs/memfs.go:451-488 | linking fails with EEXIST and no change iff the name is bound, else binds it to the target and counts it |
| MemState.RenameAbs | samples/memfs/memfs.go:490-529 | rename's outcome in terms of the maps: ENOENT, ENOTEMPTY without change, or the move, with both parents possibly one directory |
| MemState.RenameOntoItself | samples/memfs/memfs.go:490-529 | renaming a name to itself drops it, unless it leads to a directory whose first entry shows in a 4096-byte read: then ENOTEMPTY and no change |
| MemState.RemoveNameAbs | samples/memfs/memfs.go:531-588 | RmDir refuses exactly the directories that have a binding; otherwise the name goes and the count drops |
| MemRuns.StepGood | samples/memfs/memfs.go:119-161 | every request keeps the whole invariant; only a replacing rename gives up exact counts |
| MemRuns.SetAttributesUnchangedIff | samples/memfs/memfs.go:262-289 | SetAttributes leaves the state as it was if and only if it asks for the size and permissions there already, EBADF or not |
| MemRuns.FailureChangesNothing | samples/memfs/memfs.go:291-588 | any other request that fails leaves the state as it was |
| MemRuns.FailureChangesNothingIff | samples/memfs/memfs.go:262-588 | a request that fails leaves the state as it was if and only if it is not a SetAttributes that asks for a change |
| MemRuns.RefusedTruncateStillApplies | samples/memfs/memfs.go:268-288 | any truncation without a handle to a non-zero size other than the present one answers EBADF and has changed the contents |
| MemRuns.UsedEntryOk | samples/memfs/inode.go:48-59 | in an invariant state a used entry has its own offset and leads to a live inode, not the root, with a positive link count, that is a directory iff the entry says so |
| MemRuns.EveryRun | samples/memfs/memfs.go:51-69 | in every reachable state table and free list are consistent, the directories form a forest, bindings are sound, and each inode is named at most as often as its count says, exactly as often if no rename replaced a name |
| ExactCounts.MoveExact | samples/memfs/memfs.go:504-517 | counts are exact after a rename if and only if they were before and the new name was free |
| ExactCounts.StepExact | samples/memfs/memfs.go:291-588 | no request makes inexact counts exact |
| ExactCounts.CountsExactIff | samples/memfs/memfs.go:504-526 | in every reachable state link counts equal the numbers of names if and only if no rename of the run had both its names bound and its target not refused |
| WitnessRuns.ReplacingMakesInexact | samples/memfs/memfs.go:504-526 | after creating "a" and "b" and renaming "a" to "b" the counts are not exact |
| MemRuns.StepData | samples/memfs/memfs.go:291-588 | a request touches the data of no inode but the one it is addressed to, and no inode disappears |
| MemRuns.RunContents | samples/memfs/memfs.go:656-694 | in every run a file's contents are what the file operations addressed to it make of them |
| MemRuns.FileBytesInEveryRun | samples/memfs/inode.go:306-402 | in every run each byte of a file is the last one written there, or zero if never written or cut off since |
| MemResults.NewFileSystem | samples/memfs/memfs.go:86-113 | a new file system is inode 1 alone, an empty directory with permissions 0700 |
| MemResults.CreatedAsRequested | samples/memfs/memfs.go:291-449 | a creation fails with EEXIST iff the name is bound, else the new inode has the requested mode (0444 and the symlink bit for symlinks) and target, link count 1, size 0 and nothing in it, and the answer carries its attributes |
| MemResults.ReadInEveryRun | samples/memfs/memfs.go:656-677 | in every run byte k of a read at an offset is the last byte written at offset + k, and the read is as long as asked for or as the file goes |
| MemResults.ReadOfCreatedFile | samples/memfs/memfs.go:345-389 | the same for any file created by a request, in any run that follows |
| MemResults.SetAttributesIs | samples/memfs/memfs.go:262-289 | EBADF iff a size other than zero is asked for without a handle, else success; in both cases size and permissions become those asked for and nothing else changes |
| MemResults.WritesOnlyData | samples/memfs/memfs.go:679-694 | a write or fallocate succeeds and changes contents and size of its inode and nothing else |
| MemResults.SetXattrIs | samples/memfs/memfs.go:774-802 | EEXIST iff to be created and there, ENOATTR iff to be replaced and not there, else the attribute has the value and no other attribute and nothing else changes |
| MemResults.RemoveXattrIs | samples/memfs/memfs.go:760-772 | ENOATTR iff the attribute is not there, else it is gone and nothing else changes |
| MemResults.AttributeInEveryRun | samples/memfs/memfs.go:760-802 | in every run an attribute has the last value set, as far as flags allowed, and not removed since |
| MemRuns.RenameRefusesNonEmptyIff | samples/memfs/memfs.go:504-517 | rename answers ENOTEMPTY exactly when it would replace a directory that has a binding, if and only if that directory's first name has at most 4072 bytes |
| WitnessRuns.RenameReplacesNonEmpty | samples/memfs/memfs.go:504-517 | a reachable state with a directory that holds one NUL-free 4073-byte name, which a legal rename replaces with success |
| DirScan.StepSurvives | samples/memfs/inode.go:51-54 | an entry a request neither removes nor replaces stays in its slot, and so does every entry if the request fails |
| DirScan.PrefixCounts | samples/memfs/inode.go:278-301 | the consumed part of one answer has a slot's name once iff the resume offset is now past that slot |
| DirScan.RunTracks | samples/memfs/memfs.go:608-621 | all through a scan a name that no successful request removes or replaces has been delivered once if the cursor is past its slot and not at all otherwise |
| DirScan.ScanDeliversOnce | samples/memfs/inode.go:48-59 | in every interleaving of a scan with other requests, a name that no successful one of them removes or replaces is delivered at most once, and exactly once with its child and type when the scan has reached the end |
| InodeObject.Inode.constructor | samples/memfs/inode.go:81-93 | a new inode is empty |
| InodeObject.Inode.FindChild | samples/memfs/inode.go:166-179 | returns the first slot that carries the name |
| InodeObject.Inode.Len | samples/memfs/inode.go:188-197 | counts the used entries |
| InodeObject.Inode.LookUpChild | samples/memfs/inode.go:202-213 | returns the child and type of the first slot that carries the name |
| InodeObject.Inode.AddChild | samples/memfs/inode.go:219-252 | fills the first gap, or appends, with the offset of that slot |
| InodeObject.Inode.RemoveChild | samples/memfs/inode.go:258-273 | blanks the child's slot |
| InodeObject.Inode.ReadDir | samples/memfs/inode.go:278-301 | the buffer holds exactly the records of the longest fitting run of used entries from the offset, and no other byte changes |
| InodeObject.ReadDirParses | samples/memfs/inode.go:278-301 | what the kernel parses from such an answer is that run of entries |
| InodeObject.Inode.ReadAt | samples/memfs/inode.go:306-323 | copies what is there, at most the buffer's length, and reports end of file iff that is less or the offset is past the end |
| InodeObject.Inode.WriteAt | samples/memfs/inode.go:328-353 | visible bytes and size become those of the abstract write, holes filled with zeros |
| InodeObject.Inode.SetAttributes | samples/memfs/inode.go:356-389 | size change and permission change as on the abstract node |
| InodeObject.Inode.Fallocate | samples/memfs/inode.go:391-402 | grows the file if need be; other modes change nothing |
| MemFSObject.MemFS.constructor | samples/memfs/memfs.go:86-113 | starts in the initial state |
| MemFSObject.MemFS.GetInodeOrDie | samples/memfs/memfs.go:166-173 | finds every live inode |
| MemFSObject.MemFS.AllocateInode | samples/memfs/memfs.go:178-195 | implements allocation on the table and free list |
| MemFSObject.MemFS.DeallocateInode | samples/memfs/memfs.go:198-201 | implements freeing an ID |
| MemFSObject.MemFS.LookUpInode | samples/memfs/memfs.go:213-241 | ENOENT iff the name is unbound, else the bound child, which is live, with its attributes |
| MemFSObject.MemFS.MkDir | samples/memfs/memfs.go:291-331 | refines the MkDir step |
| MemFSObject.MemFS.CreateFile | samples/memfs/memfs.go:345-389 | refines the CreateFile step, also for MkNode |
| MemFSObject.MemFS.CreateSymlink | samples/memfs/memfs.go:401-449 | refines the CreateSymlink step |
| MemFSObject.MemFS.CreateLink | samples/memfs/memfs.go:451-488 | refines the CreateLink step |
| MemFSObject.MemFS.Rename | samples/memfs/memfs.go:490-529 | refines the Rename step, with the 4096-byte read and with both parents possibly one object |
| MemFSObject.MemFS.RmDir | samples/memfs/memfs.go:531-561 | refines the RmDir step |
| MemFSObject.MemFS.Unlink | samples/memfs/memfs.go:563-588 | refines the Unlink step |
| MemFSObject.MemFS.ReadDir | samples/memfs/memfs.go:608-621 | fills the buffer from the directory's entries at the offset |
| MemFSObject.MemFS.ReadFile | samples/memfs/memfs.go:656-677 | returns the file's bytes at the offset, short at the end of the file |
| MemFSObject.MemFS.WriteFile | samples/memfs/memfs.go:679-694 | refines the WriteFile step |
| MemFSObject.MemFS.SetInodeAttributes | samples/memfs/memfs.go:262-289 | refines the SetAttributes step, EBADF included, and answers with the attributes as they are afterwards |
| MemFSObject.MemFS.Fallocate | samples/memfs/memfs.go:804-811 | refines the Fallocate step, success for any mode |
| MemFSObject.MemFS.SetXattr | samples/memfs/memfs.go:774-802 | refines the SetXattr step with its create and replace flags |
| MemFSObject.MemFS.RemoveXattr | samples/memfs/memfs.go:760-772 | refines the RemoveXattr step |
| MemFSObject.MemFS.GetXattr | samples/memfs/memfs.go:717-735 | reports the value's size, copies it if it fits, and gives ERANGE exactly for a non-empty buffer that is too small |
| MemFSObject.MemFS.ListXattr | samples/memfs/memfs.go:737-758 | for any iteration order reports the size needed, fills a zeroed buffer with each name once and NUL-terminated, and gives ERANGE exactly for a non-empty buffer that is too small, the size reported being too small then |
| Xattrs.NeedAnyOrder | samples/memfs/memfs.go:745-755 | the bytes needed for a listing do not depend on the order of the names |
| Xattrs.ListingSize | samples/memfs/memfs.go:737-758 | any two enumerations of the same names take the same number of bytes, so a reported size fits a later fetch |
| Xattrs.SplitInvertsListing | fuseops/ops.go:955-957 | splitting a listing at its NULs gives back the names, once each, in order |
| OutMessages.OutMessage.Reset | internal/buffer/out_message.go:41-44 | afterwards the message is a zeroed header |
| OutMessages.OutMessage.Append | internal/buffer/out_message.go:88-97 | appends the concatenation of any segments, empty ones included, to the flat message |
| OutMessages.OutMessage.Grow | internal/buffer/out_message.go:53-58 | appends zeros, and panics iff there are none to append |
| OutMessages.OutMessage.Len | internal/buffer/out_message.go:106-116 | is the length of the flat message |
| OutMessages.OutMessage.ShrinkTo | internal/buffer/out_message.go:62-84 | leaves exactly the first n bytes of the flat message, for every permitted n and any segments |
| OutMessages.CutHere | internal/buffer/out_message.go:74-82 | the segment to be cut exists whenever bytes are left, and cutting it cuts the flat message |
| Responses.ResponseForOp | conversions.go:802-1006 | the body a successful op is answered with, and exactly when that panics: no reply case, or a count of bytes read that is negative or too large |
| Responses.KernelResponse | conversions.go:750-798 | request ID, error and length in the header, the error reply without the body that was grown for it, no reply to forgets |
| Responses.SentIsFlat | connection.go:530-553 | the bytes written are the flat message, the header being read through its alias after the length was set |
| Responses.ReplySelfConsistent | conversions.go:796-797 | the kernel accepts a reply exactly when its length fits 32 bits and its error is within the kernel's bound, and reads the request's ID in it |
| Responses.Serve | fuseutil/file_system.go:129-246 | every byte sent: request ID, length, error and body, a bare header for an error, nothing exactly for forgets and interrupts; the error field read back is zero for success, minus the file system's error number, minus EIO for an error without one, minus ENOSYS for an op without a handler; when the kernel accepts it; and that it fails iff the file system reports a negative number of bytes or more than there is room for |
| Responses.SuccessIff | fuseutil/file_system.go:187-188 | a reply to a handled op reads as success iff the file system reported no error |
| Responses.ErrorReadBack | conversions.go:773-779 | the kernel reads in a header the error that was put there |
| Responses.CreateReplySplits | conversions.go:836-843 | cut after the entry, the body of a create reply is the entry and then the open part |
| Responses.PlainBodies | conversions.go:802-1006 | the bodies of the other replies: the reply struct alone, the symlink's target, nothing, or the bytes read |
| MemServer.ServeGetXattr | conversions.go:961-970 | from request to reply a getxattr never fails: the value if it fits, its size if there is no buffer, else a bare ENOATTR or ERANGE |
| MemServer.ServeListXattr | conversions.go:971-976 | from request to reply a listxattr never fails: every name once if the listing fits, its size if there is no buffer, else a bare ERANGE |
| MemServer.FetchValue | fuseops/ops.go:933-940 | asking for the size of a non-empty value and then for that many bytes yields the value |
| MemServer.FetchList | fuseops/ops.go:952-961 | asking for the size of a non-empty listing and then for that many bytes yields every name once, though the order may differ between the two requests, and it splits at its NULs into these names |
| MemServer.ServeReadDir | conversions.go:403-428 | a readdir fails iff it asks for no bytes, and else is answered with the records of the longest fitting run of entries |
| MemServer.ServeReadFile | conversions.go:397-401 | a file read never fails: it is answered with the file's bytes at the offset, short at the end, and with none if it asks for more than fits after the request; the request and its ID survive in the shared buffer |
| MemServer.KernelAcceptsAnswers | conversions.go:776-797 | the kernel accepts each of these refusals, and each answer whose length fits 32 bits |
| MemServer.AnswersReadBack | errors.go:20-30 | in these replies the caller reads the request's ID, and the body without an error, or 61 for ENOATTR and 34 for ERANGE |
| InMessages.InMessage.Init | internal/buffer/in_message.go:78-110 | accepts a read iff it has a header whose length field agrees, and then holds its payload |
| InMessages.InMessage.Consume | internal/buffer/in_message.go:124-133 | takes the next bytes off, or nothing; consumed and remaining bytes together are the payload |
| InMessages.InMessage.ConsumeBytes | internal/buffer/in_message.go:137-146 | takes the next bytes off, or nothing; consumed and remaining bytes together are the payload |
| InMessages.InMessage.GetFree | internal/buffer/in_message.go:149-154 | hands out a region after the message, so that no write to it can change the message, iff there is one of that size |
| Decoding.DecodeRename | conversions.go:273-317 | decodes a rename request from the cursor |
| Decoding.RenameRoundTrip | conversions.go:273-317 | decoding inverts encoding for non-empty NUL-free names, with or without eight zero bytes in front |
| Decoding.DecodeSymlink | conversions.go:250-271 | decodes a symlink request from the cursor |
| Decoding.SymlinkRoundTrip | conversions.go:250-271 | decoding inverts encoding for a NUL-free name and any target |
| Decoding.SymlinkCrashesIff | conversions.go:253-260 | the decoder slices out of range exactly when the only NUL is the last byte |
| Decoding.RenameCrashesIff | conversions.go:273-305 | the decoder slices out of range exactly when, after the fixed part and any eight zero bytes, at least three bytes without NUL are followed by one NUL and nothing else |
| Decoding.DecodeSetxattr | conversions.go:684-713 | decodes a setxattr request from the cursor |
| Decoding.SetxattrRoundTrip | conversions.go:691-701 | decoding inverts encoding for a NUL-free name and any value exactly when they make three bytes with the NUL, and else refuses |
| Decoding.SetxattrNameNulFree | conversions.go:696-701 | decoded attribute names have no NUL |
| Decoding.DecodeBatchForget | conversions.go:140-168 | decodes a batch of forgets from the cursor, entry by entry |
| Decoding.BatchForgetRoundTrip | conversions.go:140-168 | decoding inverts encoding for any number of entries |
| ConnectionObject.RequestReadBack | internal/fusekernel/fuse_kernel.go:768-779 | for every in header and payload the server reads a well-framed message, a request with the header's unique ID, a forget or batch forget exactly for opcodes 2 and 42, and for opcode 36 an interrupt of the ID in its payload |
| ConnectionObject.HeaderFields | internal/fusekernel/fuse_kernel.go:768-779 | opcode and unique ID are found in any encoded header |
| ConnectionObject.Freelist.Get | internal/freelist/freelist.go:25-35 | takes off the element put back last |
| ConnectionObject.Freelist.Put | internal/freelist/freelist.go:38-40 | puts an element on top |
| ConnectionObject.Connection.constructor | connection.go:92-110 | a new connection is in the protocol's start state |
| ConnectionObject.Connection.RecordCancelFunc | connection.go:245-256 | records the function, or panics on an ID that has one |
| ConnectionObject.Connection.BeginOp | connection.go:264-285 | records a cancel function for all but forgets |
| ConnectionObject.Connection.FinishOp | connection.go:293-314 | calls and removes exactly the function of that ID, or panics if there is none |
| ConnectionObject.Connection.HandleInterrupt | connection.go:317-341 | calls the function of that ID if there is one |
| ConnectionObject.Connection.GetInMessage | freelists.go:28-38 | the buffer put back last, or a new one |
| ConnectionObject.Connection.PutInMessage | freelists.go:41-45 | puts a buffer back on top |
| ConnectionObject.Connection.GetOutMessage | freelists.go:52-63 | the message put back last or a new one, in either case as good as new |
| ConnectionObject.Connection.PutOutMessage | freelists.go:66-70 | puts a message back on top |
| ConnectionObject.Connection.ReadMessage | connection.go:345-379 | takes the protocol's steps for reading a message past transient errors, or for putting the buffer back and stopping |
| ConnectionObject.Connection.Begins | connection.go:264-285 | takes the protocol's step for beginning an op; the panic of recordCancelFunc cannot happen |
| ConnectionObject.Connection.Interrupted | connection.go:317-341 | takes the protocol's step for an interrupt |
| ConnectionObject.Connection.ReadOp | connection.go:407-442 | goes past interrupts to the next op, the end or an error along a run of the protocol and takes that much off the input; the op has the ID and kind of the last message taken, which is in its in message, and its out message has the zeros that message asks for; the buffers were free or are new, and ops in progress keep theirs |
| ConnectionObject.Connection.Finishes | connection.go:293-314 | takes the protocol's step for finishing an op; its panic on an unknown ID cannot happen |
| ConnectionObject.Connection.Reply | connection.go:486-556 | takes exactly the last four steps of its op, sends a reply whose unique field is that of the in header of the request, with the error or body given, puts its two buffers back and gives its ID back, and leaves reader, queue and all other ops in progress as they are; it panics iff the reply cannot be built |
| ConnectionObject.Connection.OwnBuffers | freelists.go:28-70 | the buffers of an op in progress are on no free list |
| ConnectionObject.Connection.OwnBuffersApart | freelists.go:28-70 | nor does another op in progress have them |
| ConnectionObject.Connection.FreeOnce | freelists.go:28-70 | no buffer is on a free list twice |
| Protocol.StepKeepsIds | connection.go:287-298 | every step keeps each request ID in use with one pending message or one op |
| Protocol.StepKeepsFuncs | connection.go:245-314 | every step keeps the cancel functions those of the ops in progress, and neither an ID that has one already nor an ID that has none makes a step panic |
| ProtocolRuns.StepKeepsBuffers | connection.go:407-442 | every step keeps each buffer in one place |
| ProtocolRuns.StepKeepsServer | fuseutil/file_system.go:98-127 | every step keeps the in-flight counter equal to the running handlers and each op replied to at most once |
| ProtocolRuns.EveryRunSafe | connection.go:245-341 | in every run the panics of recordCancelFunc, finishOp and the in-flight counter do not fire, the recorded IDs are exactly those of non-forget ops begun and not finished, and no buffer is on a free list twice, held twice, or free while in use |
| ProtocolRuns.DeliveredInOrder | connection.go:397-405 | in every run the ops begun are the first requests sent, in order, and unless a conversion failed all others are those not yet begun |
| ProtocolRuns.DestroyedAfterAllReplies | fuseutil/file_system.go:98-127 | Destroy comes after the reader has stopped and every op read has left with exactly one reply, written once unless none is due or the write failed; nothing is handled afterwards |
| ServerObject.FileSystemServer.constructor | fuseutil/file_system.go:87-96 | a server that has read nothing, on a new connection |
| ServerObject.FileSystemServer.ReadNext | fuseutil/file_system.go:106-125 | a read starts a handler, has a forget handled inline, or ends the loop, and keeps every op in progress ready for its reply |
| ServerObject.FileSystemServer.Handle | fuseutil/file_system.go:129-246 | a handler's reply tells what the file system returned, error number or success, and its leaving keeps the others ready; it crashes only for an answer with bytes read |
| ServerObject.FileSystemServer.ServeOps | fuseutil/file_system.go:98-127 | for every schedule all calls meet their preconditions along one run of the protocol; every reply written carries the unique ID of the in header of the message its op came from, which the kernel sent, and tells a result some handler ended with; and when the loop has returned the file system is destroyed and the replies written are, one each, those to the ops that are due one and whose write did not fail |
| ProtocolRuns.CancelledIff | connection.go:317-341 | before it finishes, an op's cancel function is called by a step exactly if the step handles an interrupt with its ID |
| ProtocolRuns.OnlyInterruptsCancel | connection.go:321-341 | in every run an op cancelled while in progress had an interrupt with its ID handled while it was in progress |
| ForgetFS.FileSystem.constructor | samples/forgetfs/forget_fs.go:41-85 | starts with a count of one on root, foo and bar |
| ForgetFS.FileSystem.FindInodeByID | samples/forgetfs/forget_fs.go:207-218 | succeeds iff the inode is known and not forgotten |
| ForgetFS.FileSystem.LookUpInode | samples/forgetfs/forget_fs.go:230-263 | refines the lookup: one more count on foo or bar, or ENOENT, or a panic |
| ForgetFS.FileSystem.CreateChild | samples/forgetfs/forget_fs.go:293-355 | refines MkDir and CreateFile: a fresh ID with a count of one |
| ForgetFS.FileSystem.ForgetInode | samples/forgetfs/forget_fs.go:280-291 | refines the forget: the count drops, or a panic |
| ForgetFS.FileSystem.BatchForget | fuseutil/file_system.go:156-170 | a batch is the sequence of its forgets |
| ForgetFS.FileSystem.Destroy | samples/forgetfs/forget_fs.go:381-385 | brings every count to zero, so that Check passes |
| ForgetFS.LookUpLeadsTo | samples/forgetfs/forget_fs.go:240-250 | in the root "foo" leads to inode 2 and "bar" to inode 3, and no other name anywhere leads to any |
| ForgetFS.HandleCounts | samples/forgetfs/forget_fs.go:230-355 | a request adds one to the count of the child its reply names and to no other |
| ForgetFS.CreateIssuesNew | samples/forgetfs/forget_fs.go:293-355 | a creation issues an ID never issued before, with a count of one, and changes no other inode |
| ForgetFS.PanicsIff | samples/forgetfs/forget_fs.go:153-218 | exactly when a request or a forget panics: an inode unknown or with a count of zero, or too large a decrement |
| ForgetFS.StepGood | samples/forgetfs/forget_fs.go:153-218 | no step a rule-abiding kernel can provoke makes the server panic, and each keeps the counts balanced |
| ForgetFS.EveryRunConserves | samples/forgetfs/forget_fs.go:67-75 | in every interleaving the server's count of an inode is the kernel's, plus counts in undelivered replies, plus forgets on their way (batches entry by entry), plus the pin on foo and bar; no panic fires |
| ForgetFS.QuiescentCounts | samples/forgetfs/forget_fs.go:67-75 | at the end of any run after which all is delivered and the kernel holds nothing, foo and bar have a count of one and all else is forgotten |

## Left out

- Mounting, unmounting, system calls, sockets and logging: they touch the operating system, not the logic.
- Times, owner IDs and cache expirations: they drive no control flow in the core.
- The encoding of attribute structs in replies: a filled-in reply struct is a given byte string in `Responses.Op`.
- Mode-bit conversion and the mode whitelist of `CheckInvariants`: modes from the wire can violate the whitelist, and nothing else depends on it.
- Request decoding that is a fixed struct or a single name: it would only add easy members beside rename, symlink, setxattr and batch forget.
- The kernel's own limits on names in directory records (length, slashes): `Dirents.Parse` checks framing only.
- Overflow of `int` in file offsets and sizes: sums are assumed to fit, as the source assumes.
- Wrap-around of forgetfs's 64-bit lookup counts: counts are natural numbers.
- The open-flags hook in memFS's OpenFile, read and write callbacks, and handlers that only return: testing aids or empty bodies.
- The other sample file systems: fixed contents, weaker copies of memFS, or dependent on the host.
- In-place update of a file's backing array: `FileData.Slice` is a value, which is exact because no other slice shares the array.
- The buffer a request grows its reply by is written through a pointer in the source; in `MemServer` the bytes filled in are stored into the message before it is answered.
- ConnectionObject.Connection.BeginOp: the context it returns is represented by the number of its op; `ReadOp` adds the buffers.
- ConnectionObject.Connection.Reply: says nothing of the object's state after a panic, and leaves out the callbacks run once the reply is written.
- ConnectionObject.Connection.ReadOp: whether a conversion fails and by how much it grows the reply is an input, except for interrupts, whose argument it reads.
- ServerObject.FileSystemServer.ServeOps: a schedule interleaves whole calls of `ReadOp` and `Reply`; interleavings of their single steps are those of `Protocol`.
- Other platforms: error numbers and the bound on them are those of Linux, and macOS variants of messages are left out.
