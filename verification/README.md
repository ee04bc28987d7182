# Sandbox setup, verified

A Dafny model of how `bubblebox` builds a Linux sandbox, and of the parts of `meowix` it rests on. It follows one
start from the policy a caller writes down to the program that runs in the guest:

- **Policies.** Guest paths are normalised and ordered; a mount tree is accepted by one linear pass over that order; a
  descriptor policy is accepted by a static check.
- **Mounts.** Three passes fill the slots of one uninitialised buffer, an overlay cursor walks a second buffer, and the
  slots are then mounted in order inside the new root. The kernel's mount table is modelled down to path walks that
  cross mounts, so that "nothing is hidden" is proved of resolution itself.
- **Descriptors.** A sequential loop of `dup3` and `close_range`, with one delayed move of the error pipe, has to act as
  one simultaneous assignment.
- **Start protocol.** Guest and host share a pipe and, with the systemd backend, an eventfd. Reports are six-byte records,
  success of exec is the end of file. The protocol is a state machine over every interleaving, partial transfer and
  interruption; the loops that move the bytes and the record codec are proved separately and plugged in.
- **Netlink, digits, capabilities, cgroups.** The message builder against an independent reader, the acknowledgement
  walker against a chain of well-formed messages, the bounds that size the buffers, the capability sets up to and after
  exec, and the life of the systemd scope from clone to drop.

Code that changes things in place is written as classes and methods with loops; their contracts tie the new state to
specification functions, and the lemmas in the same module say what those functions mean. System calls are methods that
may fail at any call; what they do when they succeed is stated in their contracts. Processes, policies and kernels are
otherwise arbitrary: no main result bounds the number of entries, bytes, steps or interruptions.

Modules follow the source: `Paths` and `PathOrder` (paths.rs), `Mounts` (policy/mounts.rs), `MountResolution` and
`Filesystems` (spawn/mounts.rs), `MountMeaning` (what a resolved mount is, read back from its handle),
`MountApplication` (the mount loop of spawn/mod.rs), `MountSetup` (the mount story from end to end), `FdPolicy`
(policy/fd.rs, spawn/fd.rs), `Errors` and `Wire` (errno.rs, errors.rs, spawn/wire.rs, spawn/errors.rs), `Transfer`
(util.rs), `Handshake` and `Protocol` (spawn/mod.rs, cgroups/systemd.rs), `ExecHandover` (descriptor policy and protocol
joined at exec), `NetlinkCodec` (netlink.rs), `Digits` and `Formatting` (util.rs, spawn/fmt.rs, spawn/namespace.rs),
`Capabilities` (capabilities.rs, spawn/mod.rs), `CgroupLifecycle` (cgroups/systemd.rs, command.rs).
`Bytes`, `Splitting` and `Wrappers` are shared helpers.

## What turned out not to hold unconditionally

- A guest that writes a torn success record and then a torn error record of complementary lengths is taken for a success:
  `Handshake.TornReportsMislead` gives the family, `Handshake.AcceptedTranscripts` the exact condition for every pair of
  partial writes, and `Handshake.AtomicReports` shows that with whole records only a wholly lost error report is missed.
  Writes of six bytes to a Linux pipe are atomic, so on such a pipe only the whole records of `Handshake.AtomicReports`
  occur; `Protocol.TornRunMisleads` gives the runs of a pipe that may split them.
- The host also accepts two success records in a row (`Handshake.HostAcceptsExactly`); the guest never sends them.
- A netlink error that carries the `Unknown` system call decodes to `InvalidWireFormat`; every other result survives the
  wire unchanged (`Wire.RoundTripExactlyWhen`).
- The length field of a netlink attribute is truncated to 16 bits without a check. An attribute list is read back if and
  only if each length fits its field (`NetlinkCodec.WriteMessage`, for every list; `NetlinkCodec.WalkReturnsList`).
- The stored count is documented as the number of host mounts the overlays need; it is one more than that for each
  overlay whose upper directory is a tmpfs (`MountResolution.CountCoversLayers`).
- The validator accepts entries that can never be applied: below files and symlinks
  (`MountApplication.NothingBelowFiles`), missing ones below proc or an overlay without upper directories
  (`MountApplication.NothingNewBelowBarren`), and symlinks to accepted paths that do not print into their buffer
  (`Paths.AcceptedButUnprintable`, `MountApplication.LongTargetNeverPlaced`); and the source never makes missing
  directories above a destination. `MountApplication.GuestRoot.ApplyMounts` gives the exact condition under which a
  kernel without faults applies a tree, `MountSetup.SetUpMounts` that for the whole setup.
- A tmpfs size of 0 bytes is indistinguishable from no limit (`Filesystems.SizeDetermined`).
- Teardown stops an acquired unit only if the session bus can be reached; then, and only then, a started unit gets no
  stop attempt (`CgroupLifecycle.EveryLifeEndsOnce`).
- Preparing capabilities fails for a target with capabilities the running kernel does not know, and for no other target
  on a kernel that reports no other error (`Capabilities.Process.Prepare`).

## Model

| member | source | states |
|---|---|---|
| `Paths.New` | crates/bubblebox/src/platform/linux/paths.rs:661-711 | The component loop and the two bounded copies give exactly the normal form of the input, or the error the input deserves: relative, a `..` component, root only, or a zero byte or excess length in parent or name. |
| `Paths.NormaliseComponents` | crates/bubblebox/src/platform/linux/paths.rs:661-711 | An accepted path has exactly the proper names of the input as its components; empty and `.` segments vanish, no other change is made. |
| `Paths.NormaliseExactly` | crates/bubblebox/src/platform/linux/paths.rs:661-711 | Which inputs are accepted and which error each refusal gives, told by the segments between slashes: not absolute; a `..` segment; nothing but empty and `.` segments; a zero byte, more than 255 bytes in the last name, or more than 4095 in the parent. |
| `Paths.WithCStr` | crates/bubblebox/src/platform/linux/paths.rs:721-762 | Printing succeeds exactly if text and terminator fit the N bytes, and then yields parent, slash, name and terminator; no write leaves the buffer. |
| `Paths.PrintParseRoundTrip` | crates/bubblebox/src/platform/linux/paths.rs:661-762 | For every accepted path, parsing its printed text gives the same path back, including a parent `/`, whose slash is printed twice. |
| `Paths.AcceptedButUnprintable` | crates/bubblebox/src/platform/linux/paths.rs:661-762 | There are accepted paths that do not print into PATH_MAX bytes: the bounds on parent and name are checked one by one. |
| `Paths.NormaliseIdempotent` | crates/bubblebox/src/platform/linux/paths.rs:661-711 | Normalising a normal form changes nothing, and two absolute inputs with the same names normalise alike. |
| `Paths.EqualityIsComponentEquality` | crates/bubblebox/src/platform/linux/paths.rs:641-648 | On paths the constructor can produce, derived equality, equality of components and comparing as equal are the same. |
| `Paths.ReachableIsCanonical` | crates/bubblebox/src/platform/linux/paths.rs:661-711 | A path the constructor can produce is determined by its components, which are proper names, and both of its texts are bounded C strings. |
| `Paths.StartsWith` | crates/bubblebox/src/platform/linux/paths.rs:775-790 | The pairwise iterator loop decides exactly whether one component list is a prefix of the other. |
| `PathOrder.PathsTotal` | crates/bubblebox/src/platform/linux/paths.rs:812-824 | Comparison of guest paths by components is a total order: antisymmetric, transitive, and equal only on equal component lists. |
| `PathOrder.LexicographicTotal` | crates/bubblebox/src/platform/linux/paths.rs:812-817 | Lifting any total order to sequences gives a total order, which carries the order from bytes to names to paths. |
| `PathOrder.FirstDifferenceDecides` | crates/bubblebox/src/platform/linux/paths.rs:812-824 | The first name in which two paths differ decides, and within it the first byte, compared as a number; what ends first is less. |
| `PathOrder.PrefixAtMost` | crates/bubblebox/src/platform/linux/paths.rs:775-817 | An ancestor never sorts after its descendants, and strictly before a proper one. |
| `PathOrder.DescendantsContiguous` | crates/bubblebox/src/platform/linux/paths.rs:775-817 | Whatever sorts between a path and one of its descendants is itself a descendant of that path. |
| `Mounts.IsValidMountTree` | crates/bubblebox/src/platform/linux/policy/mounts.rs:26-62 | The stack check, which also discards a matching ancestor when it pops, accepts exactly the trees where no entry lies strictly below a non-synthetic entry (over all pairs), and returns the number of host mounts. |
| `Mounts.AdjacentCheckSuffices` | crates/bubblebox/src/platform/linux/policy/mounts.rs:46-58 | If every neighbour that lies below its predecessor has a synthetic predecessor, no entry at any distance lies below a non-synthetic one. |
| `Mounts.AncestorFirst` | crates/bubblebox/src/platform/linux/policy/mounts.rs:26-62 | In traversal order a strict ancestor comes before its descendants. |
| `Mounts.MountTree.IsValid` | crates/bubblebox/src/platform/linux/policy/mounts.rs:112-119 | The stored host-mount count changes only for a tree that is valid, and is then that tree's count. |
| `MountResolution.KindsPartition` | crates/bubblebox/src/platform/linux/spawn/mounts.rs:196-363 | Binds, overlays and the remaining kinds partition every tree, so the three counts add up to its size. |
| `MountResolution.CountCoversLayers` | crates/bubblebox/src/platform/linux/policy/mounts.rs:31-44 | The validator's count is the number of scratch pushes plus one for each overlay with a tmpfs upper directory, so no push can exceed it. |
| `MountResolution.CaptureStep` | crates/bubblebox/src/platform/linux/spawn/mounts.rs:463-560 | Each entry adds at most one record, its pushes are the layers of that entry in order, and they fit what the validator counted. |
| `MountResolution.CursorStep` | crates/bubblebox/src/platform/linux/spawn/mounts.rs:713-757 | The scratch segment that starts where the first k overlays end holds exactly the constituents of overlay k, and lies inside the buffer. |
| `MountResolution.LayersPrefix` | crates/bubblebox/src/platform/linux/spawn/mounts.rs:715-757 | The scratch content up to overlay k+1 is the content up to k followed by that overlay's lower, data and upper layers. |
| `MountResolution.Spawn.CaptureHostMounts` | crates/bubblebox/src/platform/linux/spawn/mounts.rs:463-560 | The first loop records every bind and every overlay once with its own index, and captures the namespaces of all overlay layers in order, without exceeding a capacity. |
| `MountResolution.Spawn.DetachBinds` | crates/bubblebox/src/platform/linux/spawn/mounts.rs:571-631 | The second loop writes exactly the slots of the binds, each with its own destination and a mount detached from the namespace captured for it; success means every bound file is still the one the caller opened, a mismatch that one is not. |
| `MountResolution.Spawn.DetachLayers` | crates/bubblebox/src/platform/linux/spawn/mounts.rs:661-671 | The third loop replaces each captured namespace in place by a detached mount of its root, order unchanged. |
| `MountResolution.Spawn.ResolveBindMappings` | crates/bubblebox/src/platform/linux/spawn/mounts.rs:388-677 | The first pass writes the bind slots and no others, leaves the overlay constituents ready in order, returns the number of binds, and ends in the process's own namespace, at its root; a vector that is not empty or buffers that are too short are refused at once. |
| `MountResolution.Spawn.ConfigureOverlay` | crates/bubblebox/src/platform/linux/spawn/mounts.rs:715-874 | One overlay gets its lower directories, data directories and upper directories from its own captured mounts, in that order, the cursor advances by exactly their number, and both upper directories were checked to be the ones the caller opened. |
| `MountResolution.Spawn.FinishOverlayMountResolution` | crates/bubblebox/src/platform/linux/spawn/mounts.rs:701-890 | The second pass writes the overlay slots and no others; each overlay is configured with its own layers; the cursor ends at the length of the scratch buffer; without faults it fails only for a swapped directory or an overlay that is not accepted. |
| `MountResolution.Spawn.ResolveNonbindMappings` | crates/bubblebox/src/platform/linux/spawn/mounts.rs:196-363 | The third pass writes the slots of everything that is neither bind nor overlay, and no others, each with its fully configured filesystem or its requested object, and returns their number. |
| `MountResolution.Spawn.ResolveAll` | crates/bubblebox/src/platform/linux/spawn/mod.rs:517-623 | After the three passes slot i holds the resolution of the i-th entry for every i, the length check cannot fail, no slot exposed by `set_len` is uninitialised, every file and upper directory is the one the caller opened, and the kernel accepted every filesystem; every failure has its cause. |
| `MountResolution.ResolveValidTree` | crates/bubblebox/src/platform/linux/spawn/mod.rs:166-180 | A tree accepted by the validator, with buffers sized from its stored count, resolves safely whatever capacity the allocator adds; an invalid tree is rejected before; without faults it fails exactly if something was swapped or a filesystem is not accepted. |
| `MountMeaning.SyntheticExactly` | crates/bubblebox/src/platform/linux/mounts.rs:53-69 | The validator's notion of a synthetic mount, an enumeration of kinds, holds exactly if writes below the resolved mount do not reach the host, which is defined on mount handles alone: through a detached tree, or through an upper directory inside one. |
| `MountMeaning.ResolvedPresents` | crates/bubblebox/src/platform/linux/spawn/mounts.rs:463-874 | What is resolved for a mount is that mount: the bound descriptor, name, recursion and flags; lower and data directories in their order and the upper and work directory each under its own setting; the attributes; the filesystem that was asked for. |
| `MountMeaning.GenuineExactly` | crates/bubblebox/src/platform/linux/spawn/mounts.rs:571-631 | What has to be the object the caller opened: a bound file looked up by its name, and both upper directories in their captured parent; nothing else is compared. |
| `MountMeaning.ProcIsRead` | crates/bubblebox/src/platform/linux/spawn/mounts.rs:221-270 | Read from its parameters, a proc mount has exactly the options of the request, with the words of the kernel for what it hides. |
| `MountMeaning.TmpfsIsRead` | crates/bubblebox/src/platform/linux/spawn/mounts.rs:302-352 | Read from its parameters, a tmpfs has exactly the size, inode limit and mode of the request. |
| `MountApplication.WalkAttach` | crates/bubblebox/src/platform/linux/spawn/mod.rs:696-702 | Attaching a mount at a path changes resolution for exactly the paths at and below it, even where mounts are stacked. |
| `MountApplication.WalkIsLongestPrefix` | crates/bubblebox/src/platform/linux/spawn/mod.rs:654-903 | With mounts attached in path order, the kernel's component walk finds the mount with the longest matching prefix. |
| `MountApplication.LaterMountHidesNothing` | crates/bubblebox/src/platform/linux/spawn/mod.rs:654-903 | A mount attached later in path order changes neither the owner of an earlier path nor that of its parent. |
| `MountApplication.EveryEntryVisible` | crates/bubblebox/src/platform/linux/spawn/mod.rs:654-903 | After the whole loop every mounted entry owns its destination with its own mount, and every created one is still reached in the mount it was created in. |
| `MountApplication.ParentIsOffHost` | crates/bubblebox/src/platform/linux/spawn/mod.rs:654-903 | At every stage of the loop the parent directory of every destination of a valid tree resolves into the root tmpfs or into a mount whose writes do not reach the host, which is a property of its handle. |
| `MountApplication.MountsSitOffHost` | crates/bubblebox/src/platform/linux/spawn/mod.rs:654-903 | Every mount of the finished tree sits on the root tmpfs or on a mount whose writes do not reach the host. |
| `MountApplication.GuestRoot.ApplyMount` | crates/bubblebox/src/platform/linux/spawn/mod.rs:656-770 | Mounting needs every directory above the destination to open, and there an object of its own kind, or nothing and a filesystem that takes the missing directory or file; a kernel without faults refuses exactly otherwise. At most that mount point is created, in the mount that owns the parent, and the mount attached exactly there. |
| `MountApplication.GuestRoot.ApplyNode` | crates/bubblebox/src/platform/linux/spawn/mod.rs:771-901 | Files, symlinks and directories are made with the requested contents or printed target and the permission and sticky bits of the request, in the mount that owns their parent. They need every directory above to open, nothing at the destination, a filesystem that takes them, a valid file mode and a target that prints into its buffer; a kernel without faults refuses exactly otherwise. |
| `MountApplication.GuestRoot.ApplyMounts` | crates/bubblebox/src/platform/linux/spawn/mod.rs:654-903 | On every exit the mount table is that of a prefix of the entries, every created object is safe and none replaced another; on success all requested objects exist. The whole tree is applied only if every entry is placeable, and by a kernel without faults whenever it is: a condition on the tree, on what the mounted filesystems hold, and on what they take. |
| `MountApplication.FittingIsPlaceable` | crates/bubblebox/src/platform/linux/spawn/mod.rs:654-903 | At its turn an entry can be applied if and only if each path above it is a directory left by an earlier entry or held by the mounted filesystems, and its destination is acceptable or can be made. |
| `MountApplication.PresentIsExpected` | crates/bubblebox/src/platform/linux/spawn/mod.rs:654-903 | What is found at any path at the turn of an entry is what an earlier entry left there, or else what the owning filesystem came with. |
| `MountApplication.NothingBelowFiles` | crates/bubblebox/src/platform/linux/spawn/mounts.rs:46-67 | An entry below a file or symlink of the tree, which the validator accepts, can never be applied. |
| `MountApplication.NothingNewBelowBarren` | crates/bubblebox/src/platform/linux/spawn/mod.rs:677-754 | Below a mount that takes nothing new, a missing destination is never placeable, although the validator accepts it. |
| `MountApplication.BarrenMounts` | crates/bubblebox/src/platform/linux/mounts.rs:53-69 | Proc and overlays without upper directories are synthetic to the validator, but take nothing new. |
| `MountApplication.LongTargetNeverPlaced` | crates/bubblebox/src/platform/linux/spawn/mod.rs:848-860 | A symlink whose target does not print into PATH_MAX bytes is never placeable. |
| `MountApplication.MakeableExactly` | crates/bubblebox/src/platform/linux/spawn/mod.rs:677-903 | What each kind of entry needs where nothing is at its destination yet: room for the object itself, for a file also for an empty one and a mode of twelve bits, for a symlink a printed target below PATH_MAX bytes, for a mount its mount point of mode 755 or 644. |
| `MountApplication.GuestRoot.CreateSymlink` | crates/bubblebox/src/platform/linux/spawn/mod.rs:848-860 | The target is printed into PATH_MAX bytes first; if it does not fit, nothing is made and that error is returned. |
| `MountApplication.GuestRoot.CreateFile` | crates/bubblebox/src/platform/linux/spawn/mod.rs:800-819 | A file is made empty and then filled; a failure in between leaves a shorter file at the same place. |
| `MountApplication.EntryStart` | crates/bubblebox/src/platform/linux/spawn/mod.rs:654-903 | When the loop reaches an entry, its parent resolves into the root or a mount that does not reach the host, and at its destination there is only what that filesystem came with: no earlier entry has put anything there. |
| `MountApplication.AppliedTreeIsLongestPrefix` | crates/bubblebox/src/platform/linux/spawn/mod.rs:654-903 | The mount table reached on success or part way resolves every path by longest prefix, and shows every entry applied so far. |
| `MountApplication.CreatedObjectVisible` | crates/bubblebox/src/platform/linux/spawn/mod.rs:771-903 | An object created during the loop is still reached at its path when the loop has finished. |
| `MountSetup.SetUpMounts` | crates/bubblebox/src/platform/linux/spawn/mod.rs:517-903 | From the policy to the finished root. It succeeds only if the tree is valid, nothing was swapped since it was opened, the kernel accepts every filesystem and every entry is placeable, and without faults exactly then. An invalid tree is rejected before anything is done; on every exit created objects lie in no mount that reaches the host and replaced nothing. On success every path resolves by longest prefix, a file shows its requested contents and mode, a symlink its printed target, a directory its mode, a mount its requested source, layers, options and attributes, and no mount sits on one that reaches the host. |
| `Filesystems.MountProcfs` | crates/bubblebox/src/platform/linux/spawn/mounts.rs:221-270 | A proc mount is configured with exactly the requested hidepid, gid, subset and pid namespace, in that order, and with the requested attributes; the gid always fits its buffer. |
| `Filesystems.MountTmpfs` | crates/bubblebox/src/platform/linux/spawn/mounts.rs:302-352 | A tmpfs mount is configured with exactly the requested size, inode limit and mode, in that order, and with the requested attributes; no buffer is too small. |
| `Filesystems.ApplyTmpfsSize` | crates/bubblebox/src/platform/linux/spawn/mounts.rs:70-126 | Sets the size and, if given, the inode limit, whatever their 64-bit values. |
| `Filesystems.FormatMode` | crates/bubblebox/src/platform/linux/spawn/mounts.rs:329-335 | Filling the four places from the last to the first gives the octal text of the lower twelve permission bits. |
| `Filesystems.ModeRoundTrip` | crates/bubblebox/src/platform/linux/spawn/mounts.rs:329-335 | The mode text reads back as the lower twelve permission bits. |
| `Filesystems.ModeText` | crates/bubblebox/src/platform/linux/spawn/mounts.rs:329-335 | The four places of a mode text are its four octal digits, the most significant first. |
| `Filesystems.ProcDetermined` | crates/bubblebox/src/platform/linux/spawn/mounts.rs:221-258 | Two proc mounts are configured alike if and only if all their options are equal. |
| `Filesystems.TmpfsDetermined` | crates/bubblebox/src/platform/linux/spawn/mounts.rs:302-341 | Two tmpfs mounts are configured alike if and only if inode limit, mode bits and size are equal, where a size of 0 bytes and no limit count as equal. |
| `Filesystems.SizeDetermined` | crates/bubblebox/src/platform/linux/spawn/mounts.rs:84-113 | Two sizes give the same text if and only if they are equal or are 0 bytes and no limit. |
| `FdPolicy.IsValidFdPolicy` | crates/bubblebox/src/platform/linux/policy/fd.rs:35-66 | The check over the collected source set accepts exactly the policies in which no descriptor is negative and no mapped descriptor is the source of any mapping. |
| `FdPolicy.Process.ApplyFileDescriptorPolicy` | crates/bubblebox/src/platform/linux/spawn/fd.rs:34-99 | Succeeds only if all numbers to be mapped are below the descriptor limit and, where something is mapped onto the number of the pipe, another number is free; without faults exactly then. Exec then sees the simultaneous assignment: every mapped descriptor has its source's original file, every ignored one is as before, nothing else is open. On every exit the pipe descriptor names the pipe's write end and is close-on-exec. |
| `FdPolicy.Process.MapAll` | crates/bubblebox/src/platform/linux/spawn/fd.rs:38-85 | The loop keeps every source intact up to its last range, delays exactly the mapping onto the number of the pipe, and without faults fails only at a number beyond the limit. |
| `FdPolicy.Process.RemapPipe` | crates/bubblebox/src/platform/linux/spawn/fd.rs:75-96 | The delayed mapping moves the pipe to the lowest free number before overwriting its old one, and without faults fails only if there is no such number; a failure at any point still leaves the pipe reachable and close-on-exec. |
| `FdPolicy.SourceIntact` | crates/bubblebox/src/platform/linux/spawn/fd.rs:42-73 | At every point of the loop each source of the policy still refers to its original file. |
| `FdPolicy.LoopSurvivors` | crates/bubblebox/src/platform/linux/spawn/fd.rs:42-73 | A finished loop leaves exactly the mapped descriptors it overwrote and the ignored ones open across exec. |
| `FdPolicy.FinishedDirectly` | crates/bubblebox/src/platform/linux/spawn/fd.rs:42-73 | If nothing is mapped onto the pipe's number, the loop alone is the simultaneous assignment. |
| `FdPolicy.FinishedByRemap` | crates/bubblebox/src/platform/linux/spawn/fd.rs:75-96 | If something is mapped onto the pipe's number, the loop followed by the delayed move is the simultaneous assignment. |
| `FdPolicy.ExecClosesPipe` | crates/bubblebox/src/platform/linux/spawn/mod.rs:182-182 | Wherever the pipe ended up, no descriptor that survives exec refers to its write end, so exec yields end of file at the host. |
| `ExecHandover.PolicyKeepsPipe` | crates/bubblebox/src/platform/linux/spawn/mod.rs:319-326 | However the descriptor policy ended, the guest still holds the write end of the report pipe, as the protocol has it before the last report. |
| `ExecHandover.ExecIsClose` | crates/bubblebox/src/platform/linux/spawn/mod.rs:344-355 | Exec after the policy is the step of the protocol that closes the guest's end, and a failed exec leads on to the second report with the pipe still open. |
| `ExecHandover.HandOver` | crates/bubblebox/src/platform/linux/spawn/mod.rs:319-355 | Applying the policy between the two reports succeeds exactly as the policy does, and keeps descriptor table and protocol in agreement, on success and on failure, up to and after exec. |
| `Errors.ErrnoRoundTrip` | crates/meowix/src/errno.rs:65-107 | Storing an error number negated in 16 bits and reading it back gives the number; only raw values from 1 to 4095 have a stored form, which reads back to them. |
| `Errors.ErrnoExactly` | crates/meowix/src/errno.rs:65-107 | The stored word and the error number add up to 65536, and every raw value outside 1 to 4095 is refused. |
| `Errors.SyscallRoundTrip` | crates/meowix/src/errors.rs:165-526 | The byte of every system call name maps back to that name. |
| `Wire.DecodeEncodeResult` | crates/bubblebox/src/platform/linux/spawn/errors.rs:352-402 | For every guest result, decoding its record gives its canonical form; success and errors never mix. |
| `Wire.RoundTripExactlyWhen` | crates/bubblebox/src/platform/linux/spawn/wire.rs:25-106 | The round trip is the identity if and only if the result is not a netlink error that carries the unknown system call. |
| `Wire.SentSyscall` | crates/bubblebox/src/platform/linux/spawn/wire.rs:36-106 | The bytes of a failed system call, plain or from netlink: its kind, the tag of the call, shifted by one for netlink, and the error number. |
| `Wire.SentAnswer` | crates/bubblebox/src/platform/linux/spawn/wire.rs:52-53 | The kernel's refusal and an invalid code are sent under their reserved subtags with their own number. |
| `Wire.ReceivedExactly` | crates/bubblebox/src/platform/linux/spawn/errors.rs:352-402 | What any six bytes are received as, foreign ones included: success, each family of errors with its number, or an invalid format, each if and only if its bytes say so. |
| `Wire.DecodeEncodeNetlink` | crates/bubblebox/src/platform/linux/spawn/wire.rs:40-106 | The shifted subtags of netlink system call errors never meet the reserved subtags. |
| `Wire.OtherRoundTrip` | crates/bubblebox/src/platform/linux/spawn/errors.rs:461-476 | The tag of every remaining guest error maps back to that error. |
| `Wire.BytesRoundTrip` | crates/bubblebox/src/platform/linux/spawn/wire.rs:10-23 | The six bytes of a record hold each of its fields. |
| `Wire.ReceiveSend` | crates/bubblebox/src/platform/linux/spawn/mod.rs:402-408 | Sending a result as bytes and receiving them gives its canonical form. |
| `Transfer.Source.ReadArray` | crates/meowix/src/util.rs:305-333 | Success returns exactly the next bytes of the stream; a failure reports how many bytes were taken, and no byte is lost or repeated across interruptions. It fails at the first hard error of a read and at no other, with that error's code. |
| `Transfer.Source.ReadUntilFull` | crates/meowix/src/util.rs:345-398 | The buffer receives exactly the next bytes of the stream until it is full, the stream ends, or a read fails hard, for partial reads of any sizes. |
| `Transfer.Source.ReadToEnd` | crates/meowix/src/util.rs:274-295 | Everything up to the end of the stream is appended in order behind the existing data; it ends early at the first hard error and at no other, and then what was read and what is left are still the whole stream. |
| `Transfer.Sink.WriteUntilStalled` | crates/meowix/src/util.rs:409-430 | The sink has received exactly the reported prefix of the buffer, whatever the kernel takes per call; it ends early at the first hard error or empty write and at no other answer. |
| `Transfer.Sink.WriteAll` | crates/meowix/src/util.rs:440-450 | Success means the sink received exactly the buffer, an error that it received exactly the reported prefix, and that the last write failed hard with the reported code or took nothing. |
| `Handshake.HostPostClone` | crates/bubblebox/src/platform/linux/spawn/mod.rs:387-434 | The host's verdict is the one its stream deserves, unless its hook or a read failed hard; then it returns that failure. Interruptions and partial reads never change the verdict. |
| `Handshake.HostAcceptsExactly` | crates/bubblebox/src/platform/linux/spawn/mod.rs:400-433 | The host accepts exactly one success record followed by the end, or two success records; a stream without a whole record fails. |
| `Handshake.HostRefusesExactly` | crates/bubblebox/src/platform/linux/spawn/mod.rs:400-433 | The host passes on the error of the first error record as it is, and reports a broken record with the number of its bytes, each exactly for the streams that say so. |
| `Handshake.RunGuest` | crates/bubblebox/src/platform/linux/spawn/mod.rs:286-378 | For every write behaviour the guest sends prefixes of its setup report and of its exec report, both complete if no write fails or stalls. |
| `Handshake.CompleteReportsDeliver` | crates/bubblebox/src/platform/linux/spawn/mod.rs:286-434 | With both reports complete the host returns exactly what the guest encountered: success, or the error of setup or exec, where only a netlink error of the unknown system call is reported as an invalid format. |
| `Handshake.AcceptedTranscripts` | crates/bubblebox/src/platform/linux/spawn/mod.rs:306-353 | For all partial writes: the host takes them for success if and only if setup worked and either the success record is whole and nothing follows, or two torn records add up to one. |
| `Handshake.AtomicReports` | crates/bubblebox/src/platform/linux/spawn/mod.rs:306-353 | With records written whole or not at all, a failed exec looks like success only if its whole report is lost. |
| `Handshake.TornReportsMislead` | crates/bubblebox/src/platform/linux/spawn/mod.rs:306-353 | For every tear point, a torn success record and a complementary part of the exec report are accepted although exec failed. |
| `Protocol.InvStep` | crates/bubblebox/src/platform/linux/spawn/mod.rs:241-434 | Every step of guest, host and hook keeps the invariant relating reports, pipe, buffer and verdict, and lowers a rank, so no run is infinite. |
| `Protocol.HandshakeSafety` | crates/bubblebox/src/platform/linux/spawn/mod.rs:241-434 | For every run, wherever reports are cut off and the guest dies: the host's verdict is exactly what the bytes that got out deserve, or its own hook or read failure. |
| `Protocol.CompleteReportsSafety` | crates/bubblebox/src/platform/linux/spawn/mod.rs:241-434 | In every run in which both reports got out whole, even if the guest is killed right after, the host returns what the guest encountered, or its own failure. |
| `Protocol.UndisturbedSafety` | crates/bubblebox/src/platform/linux/spawn/mod.rs:241-434 | In every run in which the guest neither gives up on a report nor dies, the host returns what the guest encountered, or its own failure. |
| `Protocol.TranscriptReached` | crates/bubblebox/src/platform/linux/spawn/mod.rs:241-434 | Every pair of lengths at which the two reports may be cut off is reached by some run, which ends in exactly the verdict those bytes deserve, and loses nothing if neither report is cut off. |
| `Protocol.FailuresExactly` | crates/bubblebox/src/platform/linux/spawn/mod.rs:241-434 | The guest can die in every phase, give up at every incomplete write and fail its setup; the hook can fail at each of its parts and each read of the host with any code: exactly there, and with exactly those outcomes. |
| `Protocol.TornRunMisleads` | crates/bubblebox/src/platform/linux/spawn/mod.rs:306-353 | For every tear point there is a run, with or without the eventfd, in which two torn reports make the host accept although exec failed. |
| `Protocol.AcceptanceSafety` | crates/bubblebox/src/platform/linux/spawn/mod.rs:241-434 | Over every run: the host accepts if and only if it had no failure of its own and the bytes that got out read as success (setup worked; the success record whole and nothing after it, or two torn records that add up to one); the guest's end is then closed. |
| `Protocol.GuestWaitsForHost` | crates/bubblebox/src/platform/linux/cgroups/systemd.rs:357-400 | In every run with the systemd backend the guest passes its hook only after the host has moved it and applied the policy. |
| `Protocol.NoDeadlock` | crates/bubblebox/src/platform/linux/spawn/mod.rs:241-434 | In every reachable state without a verdict some process can take a step that is not a failure: pipe and eventfd never block each other. |
| `Protocol.VerdictReachable` | crates/bubblebox/src/platform/linux/spawn/mod.rs:241-434 | From every reachable state the host can come to a verdict without any further failure. |
| `NetlinkCodec.WriteAttribute` | crates/meowix/src/netlink.rs:91-119 | Succeeds exactly if the attribute and its padding fit; the buffer then differs only in header and payload, the padding keeps what it held, and the new offset is the next multiple of four. |
| `NetlinkCodec.AttributeBytes` | crates/meowix/src/netlink.rs:91-119 | The bytes of a written attribute: its length and kind, least significant byte first, and its payload; no other byte of the buffer changes. |
| `NetlinkCodec.WrittenAttributeWalks` | crates/meowix/src/netlink.rs:91-119 | A reader of the message finds the attributes written before plus exactly this one, if and only if its length fits 16 bits. |
| `NetlinkCodec.WalkReturnsList` | crates/meowix/src/netlink.rs:91-119 | For every list of encoded attributes and any padding, a generic reader returns exactly the list if and only if each length fits 16 bits. |
| `NetlinkCodec.WalkAppend` | crates/meowix/src/netlink.rs:91-119 | Appending an attribute to aligned bytes appends it to what is read from them, if and only if its length fits. |
| `NetlinkCodec.WriteAttributes` | crates/meowix/src/netlink.rs:91-119 | Writing any list of attributes from an aligned offset ends aligned, is refused exactly if the list does not fit, leaves what was before it alone, and reads back as exactly the list if and only if each length fits 16 bits. |
| `NetlinkCodec.WriteMessage` | crates/meowix/src/netlink.rs:305-347 | For every list of attributes and any buffer content, a finished message reads back as its header with its own length, its body and exactly the list, if and only if each attribute length fits 16 bits and the message length 32; it is refused exactly if the buffer is short or the sequence number overflows. |
| `NetlinkCodec.FinishMessage` | crates/meowix/src/netlink.rs:128-158 | Succeeds exactly if header and length fit and the sequence number does not overflow; writes only the header, returns the slice of the stated length and the sequence number used. |
| `NetlinkCodec.FinishedMessage` | crates/meowix/src/netlink.rs:128-158 | A finished message reads back its header with its own length, and its body is what was written before. |
| `NetlinkCodec.WriteAddLoopbackAddress` | crates/meowix/src/netlink.rs:305-347 | The forty bytes of the message, one by one, for every buffer content, index and sequence number; a reader finds the header, the address body and exactly the two address attributes; it fails exactly if the buffer is short or the sequence number overflows. |
| `NetlinkCodec.WriteBringUpLoopbackDevice` | crates/meowix/src/netlink.rs:354-381 | The 32 bytes of the message, one by one, for every buffer content, index and sequence number; a reader finds the header, the link body and no attribute; it fails exactly if the buffer is short or the sequence number overflows. |
| `NetlinkCodec.WalkDatagram` | crates/meowix/src/netlink.rs:231-296 | For every datagram and any older bytes behind it, the walk terminates, reads only received bytes, and gives the answer they contain, or none. |
| `NetlinkCodec.AnswerExactly` | crates/meowix/src/netlink.rs:231-296 | For every datagram and every outcome, both ways: an answer is given if and only if messages that are passed over lead to the place that stands for it: the end, a malformed header, a foreign sequence number, a short error message, or an error message whose code is 0, an error number or invalid. |
| `NetlinkCodec.HeaderLayout` | crates/meowix/src/netlink.rs:217-250 | The five fields of a message header, byte by byte, and when its length is well formed. |
| `NetlinkCodec.AnswerMeans` | crates/meowix/src/netlink.rs:231-296 | Every datagram leads to one of these places, and the answer carries the kernel's own error number. |
| `NetlinkCodec.CheckForAck` | crates/meowix/src/netlink.rs:184-298 | Over any series of timeouts, empty reads, failures, truncations and datagrams, each outcome if and only if its cause: success if the first event that decides leads to code 0; the kernel's error number if it leads to that number negated; an invalid code, a malformed header, a foreign sequence number or a short message if it leads there; a timeout if nothing else decides; truncation and failed calls if such an event decides. |
| `Digits.DecimalDigits` | crates/meowix/src/util.rs:37-46 | The counting loop gives the length of the decimal text, which is at most k exactly below the k-th power of ten. |
| `Digits.FormatLength` | crates/meowix/src/util.rs:37-46 | A number's text has at most k digits if and only if it is below the k-th power of ten. |
| `Digits.DigitAt` | crates/bubblebox/src/platform/linux/spawn/fmt.rs:38-45 | Each digit of a number's text, counted from the right, is the digit of its power of ten. |
| `Digits.UnsignedBoundTight` | crates/meowix/src/util.rs:50-55 | For every unsigned width, every value's text fits the bound and the largest value's text fills it. |
| `Digits.SignedBoundTight` | crates/meowix/src/util.rs:59-64 | For every signed width, every value's text fits the bound and the most negative value's text fills it. |
| `Digits.ParseFormatSigned` | crates/bubblebox/src/platform/linux/spawn/fmt.rs:38-45 | Reading the text of any integer gives the integer. |
| `Formatting.WriteInteger` | crates/bubblebox/src/platform/linux/spawn/fmt.rs:38-45 | Appends the decimal text at the offset exactly if it fits, and changes nothing otherwise. |
| `Formatting.WriteTimensOffsets` | crates/bubblebox/src/platform/linux/spawn/namespace.rs:33-106 | Writes one line per configured clock, monotonic first; a kernel without faults lets it succeed always, and a failure leaves complete lines followed by at most one cut off. It never reports a buffer that is too small. |
| `Formatting.OffsetBufferHolds` | crates/bubblebox/src/platform/linux/spawn/namespace.rs:39-43 | The buffer has 41 bytes and holds the line of every offset of the raw widths. |
| `Formatting.OffsetBufferTight` | crates/bubblebox/src/platform/linux/spawn/namespace.rs:39-43 | The longest line needs the whole buffer. |
| `Formatting.OffsetLineRoundTrip` | crates/bubblebox/src/platform/linux/spawn/namespace.rs:57-103 | Reading a line gives the clock, the seconds and the nanoseconds it was made of. |
| `Formatting.OffsetTexts` | crates/bubblebox/src/platform/linux/spawn/namespace.rs:57-103 | The texts of both lines: the name of the clock, the seconds and the nanoseconds, separated by spaces. |
| `Formatting.WriteSimpleUidGidMap` | crates/bubblebox/src/platform/linux/spawn/namespace.rs:116-203 | Writes the user map, the optional denial of setgroups and the group map in that order; a kernel without faults lets it succeed always, and a failure leaves complete writes followed by at most one cut off. It never reports a buffer that is too small. |
| `Formatting.MapBufferHolds` | crates/bubblebox/src/platform/linux/spawn/namespace.rs:128-138 | The buffer has 23 bytes and holds the line of every pair of 32-bit identifiers. |
| `Formatting.MapBufferTight` | crates/bubblebox/src/platform/linux/spawn/namespace.rs:128-138 | The longest line needs the whole buffer. |
| `Formatting.MapLineRoundTrip` | crates/bubblebox/src/platform/linux/spawn/namespace.rs:135-200 | Reading a map line gives inside, outside and a count of one. |
| `Formatting.MapTexts` | crates/bubblebox/src/platform/linux/spawn/namespace.rs:116-203 | The files and their texts: each map has the number inside first, then the number outside, then 1; setgroups is denied between the two. |
| `Formatting.FormatTmpfsSize` | crates/bubblebox/src/platform/linux/spawn/mounts.rs:70-112 | Every size, in bytes or percent, is formatted with its terminator and never exceeds its buffer. |
| `Formatting.SizeTextRoundTrip` | crates/bubblebox/src/platform/linux/spawn/mounts.rs:79-112 | Reading the number in a formatted size gives the size. |
| `Capabilities.SplitRejoins` | crates/meowix/src/capabilities.rs:86-101 | The low and high words fit 32 bits and together hold exactly the 64 capabilities. |
| `Capabilities.MembersExactly` | crates/meowix/src/capabilities.rs:86-101 | Capability c is in a set exactly if bit c of its number is 1, counted in one word of 64 bits or in two words of 32. |
| `Capabilities.Process.DropBoundingSet` | crates/meowix/src/capabilities.rs:20-37 | On success the bounding set is its old value restricted to the target, although the loop stops at the first unknown capability; on failure nothing of the target is lost. |
| `Capabilities.Process.SetAmbientCapabilities` | crates/meowix/src/capabilities.rs:56-66 | Success means every requested capability is known and raised; on an unknown one every known requested capability has been raised. |
| `Capabilities.Process.SetCapabilities` | crates/meowix/src/capabilities.rs:71-101 | The kernel, reading the two words, ends with exactly the three requested sets restricted to what it knows. |
| `Capabilities.Process.Prepare` | crates/bubblebox/src/platform/linux/spawn/mod.rs:499-1022 | With or without the second user namespace, success leaves bounding, permitted, inheritable and ambient equal to the target and effective empty; a kernel without other faults succeeds exactly for known targets. With user namespaces disabled, the limit is used up by the second one, so no further one can be entered. |
| `Capabilities.ExecFromSealed` | crates/bubblebox/src/platform/linux/spawn/mod.rs:205-214 | For every image and user, exec from the prepared state, with no-new-privileges set, never grants more than the target, and grants all of it exactly for root, for images without file capabilities, and for images whose own capabilities cover the target; it is refused exactly for images that insist on capabilities outside the target. |
| `Capabilities.ProgramGetsTarget` | crates/bubblebox/src/platform/linux/spawn/mod.rs:332-347 | Corollary of `Capabilities.ExecFromSealed`: an ordinary program holds exactly the target in all five sets, whether its user is root or not. |
| `Capabilities.NeverBeyondTarget` | crates/bubblebox/src/platform/linux/spawn/mod.rs:993-1022 | Over every run of execs of any image and of any changes the guest makes to its sets, no set ever holds a capability outside the target. |
| `CgroupLifecycle.AwaitJob` | crates/bubblebox/src/platform/linux/cgroups/systemd.rs:174-208 | The first message that concerns the job decides: success, a failed job or a malformed message, each exactly for that message; without one the wait times out. |
| `CgroupLifecycle.OrderlyIsBalanced` | crates/bubblebox/src/platform/linux/cgroups/systemd.rs:145-172 | In every log kept by these methods each start is matched by exactly one end per unit, except for the units still held. |
| `CgroupLifecycle.OrderlyIsGated` | crates/bubblebox/src/platform/linux/cgroups/systemd.rs:311-364 | In every log kept by these methods a guest is released only after it was moved and its policy applied. |
| `CgroupLifecycle.Host.HostPostCloneHook` | crates/bubblebox/src/platform/linux/cgroups/systemd.rs:96-377 | How far it gets is decided, both ways, by which calls work and by the first message about the start job: the guest is moved, configured and released, in that order, only if the job succeeded; a failed job, a malformed message and a timeout each have their messages. Every failure from the start request on stops the unit once; success leaves the unit to the state. |
| `CgroupLifecycle.Host.TearDown` | crates/bubblebox/src/platform/linux/cgroups/systemd.rs:415-443 | Stops an acquired unit once if the session bus is reached, does nothing before acquisition, and succeeds exactly if the unit is stopped or gone. |
| `CgroupLifecycle.Host.CloneInto` | crates/bubblebox/src/platform/linux/spawn/mod.rs:156-261 | It succeeds exactly if clone and hook do and the guest reported success. On every failure the state is torn down once, after the hook's own clean-up; on success it is handed back untouched. |
| `CgroupLifecycle.Guest.TerminateInternal` | crates/bubblebox/src/platform/linux/command.rs:339-380 | Kills before tearing down, runs the destructor at most once whatever fails, and reports success exactly if signal, wait and teardown all worked. |
| `CgroupLifecycle.Guest.Terminate` | crates/bubblebox/src/platform/linux/command.rs:391-407 | Terminating and then dropping the handle tears down once and returns the first result. |
| `CgroupLifecycle.EveryLifeEndsOnce` | crates/bubblebox/src/platform/linux/spawn/mod.rs:156-261 | On every host path: one teardown; a unit whose start was requested gets one stop attempt, or none exactly if teardown of the acquired unit cannot reach the bus; the guest is released only by a complete hook. |
| `CgroupLifecycle.Live` | crates/bubblebox/src/platform/linux/policy/mod.rs:271-313 | One guest spawned and then terminated or dropped adds one such life to the host's log, with nothing in between, and leaves the units of all other guests held as they were; how far its start gets is decided by its calls and messages. |
| `CgroupLifecycle.OverlappingLivesEndOnce` | crates/bubblebox/src/platform/linux/spawn/mod.rs:156-261 | However the lives of any number of guests overlap, each has one teardown, and one end for its unit if its start was requested. |
| `CgroupLifecycle.OverlappingLivesInOrder` | crates/bubblebox/src/platform/linux/command.rs:339-380 | However the lives of any number of guests overlap, each is released only after being moved and configured, and killed before its scope is torn down. |

## Left out

- System calls: methods that fail at any call and otherwise do what their contracts say; kernel behaviour beyond that is not part of this model.
- Interrupted calls: retried explicitly in the transfer loops; in the descriptor, netlink and namespace code a retry changes nothing, so the retried call counts as one.
- Ordered maps: given as their in-order traversal; the builder methods that insert and remove entries are plain map updates and are not modelled.
- Machine integers: lengths and offsets are unbounded; 8, 16, 32 and 64-bit fields and counters are bounded or truncated as the code does.
- FdPolicy.Process.ApplyFileDescriptorPolicy: assumes what borrowed descriptors guarantee, that sources are open and are not the guest pipe, and that the pipe is close-on-exec and its write end is open only there.
- Capabilities.NeverBeyondTarget: does not include entering a further user namespace, which grants a full set inside it; Capabilities.Process.Prepare leaves none to enter if user namespaces are disabled.
- Capabilities.Process.Prepare: leaves out the setup steps between the capability calls, none of which changes a capability set.
- CgroupLifecycle.Host.HostPostCloneHook: unit names are random identifiers and are taken to be new; the lookups and directory operations between start and move are one step that may fail.
- CgroupLifecycle.Live: nothing happens to other guests in between; interleaved lives are the subject of CgroupLifecycle.OverlappingLivesEndOnce.
- CgroupLifecycle.AwaitJob: the messages that arrive before the five-second deadline are a parameter; the D-Bus connection itself is not part of this model.
- Formatting.WriteTimensOffsets: the kernel's own limits on time offsets are not modelled.
- NetlinkCodec.CheckForAck: the polling budget in wall-clock time is a timeout event that may come at any time.
- Byte order: multi-byte fields are little-endian; the source uses the order of the machine.
- Mount destinations are component lists; `Paths` shows that reachable guest paths and their component lists correspond one to one.
- Mount attributes: carried along as values; their flag bits are not part of this model.
- MountSetup.SetUpMounts: which configurations a kernel accepts, and whether a filesystem that takes an object has room and rights for it, are arbitrary fixed predicates; exhausted limits of the kernel itself count as faults.
- MountApplication.GuestRoot.ApplyNode: set-id bits are not promised, since the kernel never gives them to a new directory and may take them from a file that is written to.
- Message queues: all their mounts in one namespace show the same queues; what is made below one of them counts as held by the others.
- Identity of host files: an arbitrary fixed relation between what a lookup finds and what the caller opened; the comparison of device and inode numbers behind it is not part of this model.
- Contents of mounted filesystems: arbitrary and unchanged by others while the sandbox is set up.
- Path resolution through symbolic links: parents are opened without following links, so a link only ever makes opening fail.
- UTF-8 decoding of files read as strings, the argument and environment builder, resource limits, scheduler, keyring and cgroup attribute writers: easy members only.
- The owned-descriptor and null cgroup backends: they have no life cycle.
- The supervisor action: the source only exits.
