/** The three passes that turn a mount tree into detached mounts (spawn/mounts.rs). */
module MountResolution {
  import opened Bytes
  import opened PathOrder
  import opened Wrappers
  import opened Mounts
  import opened Filesystems
  import Paths

  datatype Error = Syscall | BufferTooSmall | NonzeroResolvedLen | HostSourcedFileMismatch | MappingsLengthMismatch |
    InvalidMountPolicy

  /** What a file descriptor produced during resolution refers to. */
  datatype Handle =
    | OriginalNamespace
    | Namespace(root: HostFd, recursive: bool)
    | DetachedTree(namespace: Handle, name: Option<Name>, recursive: bool, nofollow: bool, attributes: Attributes)
    | Inside(mount: Handle, path: Name)
    | OverlayMount(settings: seq<Setting>, attributes: Attributes)
    | FilesystemMount(filesystem: Filesystem)

  /** One parameter of a filesystem configuration context, in the order it was set. */
  datatype Setting =
    | Lowerdir(mount: Handle)
    | Datadir(mount: Handle)
    | Workdir(directory: Handle)
    | Upperdir(directory: Handle)
    | Userxattr

  datatype ResolvedMount =
    | ResolvedFd(fd: Handle, destination: Path, isDirectory: bool)
    | ResolvedFile(contents: seq<Byte>, permissions: nat, destination: Path)
    | ResolvedSymlink(target: Paths.GuestPath, destination: Path)
    | ResolvedDirectory(permissions: nat, destination: Path)

  datatype CapturedBind = CapturedBind(
    index: nat, namespace: Handle, destination: Path,
    file: Option<(Name, HostFd, bool)>, attributes: Attributes, recursive: bool)

  datatype PendingOverlay = PendingOverlay(
    index: nat, destination: Path, lowerdirs: seq<HostFd>, datadirs: seq<HostFd>,
    upperdirs: Option<UpperDirs>, attributes: Attributes)

  const OVERLAY_ATTRIBUTES := Attributes(false, true, true, false, false)

  // ----- what every slot should hold -----

  /** The detached mount made from an overlay constituent. */
  function Constituent(fd: HostFd): Handle {
    DetachedTree(Namespace(fd, false), None, true, false, OVERLAY_ATTRIBUTES)
  }

  function Constituents(fds: seq<HostFd>): (handles: seq<Handle>)
    ensures |handles| == |fds|
  {
    seq(|fds|, i requires 0 <= i < |fds| => Constituent(fds[i]))
  }

  function LowerSettings(fds: seq<HostFd>): (settings: seq<Setting>)
    ensures |settings| == |fds|
  {
    seq(|fds|, i requires 0 <= i < |fds| => Lowerdir(Constituent(fds[i])))
  }

  function DataSettings(fds: seq<HostFd>): (settings: seq<Setting>)
    ensures |settings| == |fds|
  {
    seq(|fds|, i requires 0 <= i < |fds| => Datadir(Constituent(fds[i])))
  }

  function UpperSettings(upperdirs: Option<UpperDirs>): seq<Setting> {
    match upperdirs
    case None => []
    case Some(HostUpper(parent, upperdir, _, workdir, _)) =>
      [Workdir(Inside(Constituent(parent), workdir)), Upperdir(Inside(Constituent(parent), upperdir))]
    case Some(TmpfsUpper(size, maxInodes)) =>
      [Upperdir(Inside(FilesystemMount(UpperTmpfs(size, maxInodes)), Text("upperdir"))),
       Workdir(Inside(FilesystemMount(UpperTmpfs(size, maxInodes)), Text("workdir")))]
  }

  /** An overlay is configured with its own layers, in their own order, and nothing else. */
  function OverlaySettings(
    lowerdirs: seq<HostFd>, datadirs: seq<HostFd>, upperdirs: Option<UpperDirs>): seq<Setting>
  {
    LowerSettings(lowerdirs) + DataSettings(datadirs) + UpperSettings(upperdirs) + [Userxattr]
  }

  function ResolvedBind(bind: BindMount, destination: Path): ResolvedMount {
    match bind
    case BindFile(dirfd, name, _, attributes, isSymlink) =>
      ResolvedFd(DetachedTree(Namespace(dirfd, false), Some(name), false, isSymlink, attributes), destination, false)
    case BindDirectory(fd, attributes, isRecursive) =>
      ResolvedFd(DetachedTree(Namespace(fd, isRecursive), None, isRecursive, false, attributes), destination, true)
  }

  /** What the slot of an entry has to hold once all passes are done. */
  function Resolved(entry: Entry): (r: ResolvedMount)
    ensures r.destination == entry.destination
  {
    var destination := entry.destination;
    match entry.source
    case Bind(bind) => ResolvedBind(bind, destination)
    case Overlay(lowerdirs, datadirs, upperdirs, attributes) =>
      ResolvedFd(OverlayMount(OverlaySettings(lowerdirs, datadirs, upperdirs), attributes), destination, true)
    case File(contents, permissions) => ResolvedFile(contents, permissions, destination)
    case Symlink(target) => ResolvedSymlink(target, destination)
    case EmptyDirectory(permissions) => ResolvedDirectory(permissions, destination)
    case _ => ResolvedFd(FilesystemMount(Configured(entry.source)), destination, true)
  }

  /** Whether what a handle refers to is the file behind a descriptor the caller opened. */
  type Identity = (Handle, HostFd) -> bool

  predicate GenuineBind(same: Identity, bind: BindMount) {
    bind.BindFile? ==> same(ResolvedBind(bind, []).fd, bind.fd)
  }

  predicate GenuineUpper(same: Identity, upperdirs: Option<UpperDirs>) {
    match upperdirs
    case Some(HostUpper(parent, upperdir, upperdirFd, workdir, workdirFd)) =>
      same(Inside(Constituent(parent), workdir), workdirFd) && same(Inside(Constituent(parent), upperdir), upperdirFd)
    case _ => true
  }

  /** Everything looked up again by name is still the file the caller opened. */
  predicate Genuine(same: Identity, mount: Mount) {
    match mount
    case Bind(bind) => GenuineBind(same, bind)
    case Overlay(_, _, upperdirs, _) => GenuineUpper(same, upperdirs)
    case _ => true
  }

  /** What the kernel has to say on the way: the identity of files, and which configurations it accepts. */
  datatype Kernel = Kernel(
    same: Identity, overlays: (seq<Setting>, Attributes) -> bool, filesystems: FsKernel)
  {
    predicate Faultless() {
      filesystems.faultless
    }
  }

  predicate UpperAccepted(kernel: Kernel, upperdirs: Option<UpperDirs>) {
    match upperdirs
    case Some(TmpfsUpper(size, maxInodes)) => kernel.filesystems.accepts(UpperTmpfs(size, maxInodes))
    case _ => true
  }

  /** The kernel accepts every filesystem the mount needs. */
  predicate Accepted(kernel: Kernel, mount: Mount) {
    match mount
    case Overlay(lowerdirs, datadirs, upperdirs, attributes) =>
      UpperAccepted(kernel, upperdirs) && kernel.overlays(OverlaySettings(lowerdirs, datadirs, upperdirs), attributes)
    case Procfs(_, _, _, _, _) => kernel.filesystems.accepts(Configured(mount))
    case Mqueue(_) => kernel.filesystems.accepts(Configured(mount))
    case Tmpfs(_, _, _, _) => kernel.filesystems.accepts(Configured(mount))
    case _ => true
  }

  /** Nothing was swapped, and nothing is refused. */
  predicate Resolvable(kernel: Kernel, mount: Mount) {
    Genuine(kernel.same, mount) && Accepted(kernel, mount)
  }

  ghost predicate AllResolvable(kernel: Kernel, tree: Tree, kind: Mount -> bool) {
    forall i :: 0 <= i < |tree| && kind(tree[i].source) ==> Resolvable(kernel, tree[i].source)
  }

  ghost predicate SomeUnresolvable(kernel: Kernel, tree: Tree) {
    exists i :: 0 <= i < |tree| && !Resolvable(kernel, tree[i].source)
  }

  /** Some entry of the tree was swapped since the caller opened it. */
  ghost predicate Swapped(same: Identity, tree: Tree) {
    exists i :: 0 <= i < |tree| && !Genuine(same, tree[i].source)
  }

  // ----- bookkeeping of the first pass -----

  function Capture(index: nat, entry: Entry): CapturedBind
    requires entry.source.Bind?
  {
    match entry.source.bind
    case BindFile(dirfd, name, fd, attributes, isSymlink) =>
      CapturedBind(index, Namespace(dirfd, false), entry.destination, Some((name, fd, isSymlink)), attributes, false)
    case BindDirectory(fd, attributes, isRecursive) =>
      CapturedBind(index, Namespace(fd, isRecursive), entry.destination, None, attributes, isRecursive)
  }

  function Binds(tree: Tree): seq<CapturedBind> {
    if tree == [] then []
    else
      var n := |tree| - 1;
      Binds(tree[..n]) + BindRecord(n, tree[n])
  }

  function BindRecord(index: nat, entry: Entry): seq<CapturedBind> {
    if entry.source.Bind? then [Capture(index, entry)] else []
  }

  function Pend(index: nat, entry: Entry): PendingOverlay
    requires entry.source.Overlay?
  {
    var source := entry.source;
    PendingOverlay(index, entry.destination, source.lowerdirs, source.datadirs, source.upperdirs, source.attributes)
  }

  function Overlays(tree: Tree): seq<PendingOverlay> {
    if tree == [] then []
    else
      var n := |tree| - 1;
      Overlays(tree[..n]) + OverlayRecord(n, tree[n])
  }

  function OverlayRecord(index: nat, entry: Entry): seq<PendingOverlay> {
    if entry.source.Overlay? then [Pend(index, entry)] else []
  }

  predicate IsOther(mount: Mount) {
    !mount.Bind? && !mount.Overlay?
  }

  function Others(tree: Tree): nat {
    if tree == [] then 0
    else Others(tree[..|tree| - 1]) + if IsOther(tree[|tree| - 1].source) then 1 else 0
  }

  /** The three kinds partition the tree. */
  lemma {:induction false} KindsPartition(tree: Tree)
    ensures |Binds(tree)| + |Overlays(tree)| + Others(tree) == |tree|
  {
    if tree != [] {
      KindsPartition(tree[..|tree| - 1]);
    }
  }

  function UpperParent(upperdirs: Option<UpperDirs>): seq<HostFd> {
    if upperdirs.Some? && upperdirs.value.HostUpper? then [upperdirs.value.parent] else []
  }

  /** Host directories captured for one overlay, in push order. */
  function Layers(overlay: PendingOverlay): seq<HostFd> {
    overlay.lowerdirs + overlay.datadirs + UpperParent(overlay.upperdirs)
  }

  function AllLayers(overlays: seq<PendingOverlay>): seq<HostFd> {
    if overlays == [] then []
    else AllLayers(overlays[..|overlays| - 1]) + Layers(overlays[|overlays| - 1])
  }

  function TmpfsUppers(tree: Tree): nat {
    if tree == [] then 0
    else
      var last := tree[|tree| - 1].source;
      TmpfsUppers(tree[..|tree| - 1]) +
      if last.Overlay? && last.upperdirs.Some? && last.upperdirs.value.TmpfsUpper? then 1 else 0
  }

  /** The validator's count covers every push; the slack is one place per tmpfs-backed upper directory. */
  lemma {:induction false} CountCoversLayers(tree: Tree)
    ensures |AllLayers(Overlays(tree))| + TmpfsUppers(tree) == HostMountCount(tree)
  {
    if tree != [] {
      var n := |tree| - 1;
      CountCoversLayers(tree[..n]);
      if tree[n].source.Overlay? {
        var front := Overlays(tree[..n]);
        assert (front + [Pend(n, tree[n])])[..|front|] == front;
      } else {
        assert Overlays(tree) == Overlays(tree[..n]);
      }
    }
  }

  lemma {:induction false} CountMonotone(tree: Tree, i: nat)
    requires i <= |tree|
    ensures HostMountCount(tree[..i]) <= HostMountCount(tree)
    ensures |Binds(tree[..i])| <= |Binds(tree)| && |Overlays(tree[..i])| <= |Overlays(tree)|
  {
    if i < |tree| {
      CountMonotone(tree[..|tree| - 1], i);
      assert tree[..|tree| - 1][..i] == tree[..i];
    } else {
      assert tree[..i] == tree;
    }
  }

  /** One entry adds at most one record, and its pushes fit the buffers. */
  lemma CaptureStep(tree: Tree, i: nat)
    requires i < |tree|
    ensures |Binds(tree[..i])| <= i && |Overlays(tree[..i])| <= i
    ensures Binds(tree[..i + 1]) == Binds(tree[..i]) + BindRecord(i, tree[i])
    ensures Overlays(tree[..i + 1]) == Overlays(tree[..i]) + OverlayRecord(i, tree[i])
    ensures AllLayers(Overlays(tree[..i + 1])) ==
      AllLayers(Overlays(tree[..i])) + AllLayers(OverlayRecord(i, tree[i]))
    ensures |AllLayers(Overlays(tree[..i + 1]))| <= HostMountCount(tree)
  {
    assert tree[..i + 1][..i] == tree[..i];
    KindsPartition(tree[..i]);
    CountCoversLayers(tree[..i + 1]);
    CountMonotone(tree, i + 1);
    AllLayersRecord(Overlays(tree[..i]), i, tree[i]);
  }

  lemma AllLayersRecord(front: seq<PendingOverlay>, i: nat, entry: Entry)
    ensures AllLayers(front + OverlayRecord(i, entry)) == AllLayers(front) + AllLayers(OverlayRecord(i, entry))
    ensures AllLayers(OverlayRecord(i, entry)) == if entry.source.Overlay? then Layers(Pend(i, entry)) else []
  {
    if entry.source.Overlay? {
      var one := [Pend(i, entry)];
      assert (front + one)[..|front|] == front;
      assert AllLayers(one) == Layers(one[0]) by {
        assert one[..0] == [] && [] + Layers(one[0]) == Layers(one[0]);
      }
    } else {
      assert front + [] == front && AllLayers(front) + [] == AllLayers(front);
    }
  }

  lemma {:induction false} LayersPrefix(overlays: seq<PendingOverlay>, k: nat)
    requires k < |overlays|
    ensures AllLayers(overlays[..k + 1]) == AllLayers(overlays[..k]) + Layers(overlays[k])
    ensures AllLayers(overlays[..k + 1]) <= AllLayers(overlays)
  {
    assert overlays[..k + 1][..k] == overlays[..k];
    if k + 1 < |overlays| {
      var front := overlays[..|overlays| - 1];
      LayersPrefix(front, k);
      assert front[..k + 1] == overlays[..k + 1];
    } else {
      assert overlays[..k + 1] == overlays;
    }
  }

  /** The scratch segment at the cursor belongs to the overlay whose turn it is. */
  lemma CursorStep(overlays: seq<PendingOverlay>, k: nat)
    requires k < |overlays|
    ensures
      var start, end := |AllLayers(overlays[..k])|, |AllLayers(overlays[..k + 1])|;
      && end == start + |Layers(overlays[k])|
      && end <= |AllLayers(overlays)|
      && Constituents(AllLayers(overlays))[start..end] == Constituents(Layers(overlays[k]))
  {
    LayersPrefix(overlays, k);
    MiddleSlice(AllLayers(overlays[..k]), Layers(overlays[k]), AllLayers(overlays));
    var start, end := |AllLayers(overlays[..k])|, |AllLayers(overlays[..k + 1])|;
    ConstituentsSlice(AllLayers(overlays), start, end);
  }

  lemma MiddleSlice(front: seq<HostFd>, middle: seq<HostFd>, all: seq<HostFd>)
    requires front + middle <= all
    ensures all[|front|..|front| + |middle|] == middle
  {
    assert (front + middle)[|front|..] == middle;
  }

  lemma ConstituentsSlice(fds: seq<HostFd>, i: nat, j: nat)
    requires i <= j <= |fds|
    ensures Constituents(fds)[i..j] == Constituents(fds[i..j])
  {
  }

  /** The segment of one overlay, split into lower directories, data directories and upper parent. */
  lemma OwnSegments(layers: seq<Handle>, overlay: PendingOverlay, cursor: nat)
    requires cursor + |Layers(overlay)| <= |layers|
    requires layers[cursor..cursor + |Layers(overlay)|] == Constituents(Layers(overlay))
    ensures
      var low := cursor + |overlay.lowerdirs|;
      var data := low + |overlay.datadirs|;
      && data + |UpperParent(overlay.upperdirs)| == cursor + |Layers(overlay)|
      && layers[cursor..low] == Constituents(overlay.lowerdirs)
      && layers[low..data] == Constituents(overlay.datadirs)
      && forall j :: 0 <= j < |UpperParent(overlay.upperdirs)| ==>
        layers[data + j] == Constituent(UpperParent(overlay.upperdirs)[j])
  {
    var own, low, data := Layers(overlay), |overlay.lowerdirs|, |overlay.datadirs|;
    forall j | 0 <= j < |own| ensures layers[cursor + j] == Constituent(own[j]) {
      assert layers[cursor..cursor + |own|][j] == layers[cursor + j];
    }
    assert forall j :: 0 <= j < low ==> own[j] == overlay.lowerdirs[j];
    assert forall j :: 0 <= j < data ==> own[low + j] == overlay.datadirs[j];
    assert forall j :: 0 <= j < |UpperParent(overlay.upperdirs)| ==>
      own[low + data + j] == UpperParent(overlay.upperdirs)[j];
  }

  predicate IsCapture(tree: Tree, bind: CapturedBind) {
    bind.index < |tree| && tree[bind.index].source.Bind? && bind == Capture(bind.index, tree[bind.index])
  }

  predicate IsPending(tree: Tree, overlay: PendingOverlay) {
    overlay.index < |tree| && tree[overlay.index].source.Overlay? && overlay == Pend(overlay.index, tree[overlay.index])
  }

  /** The recorded index of a bind is the index of its entry, and every bind entry is recorded. */
  lemma {:induction false} BindsIndex(tree: Tree)
    ensures forall bind :: bind in Binds(tree) ==> IsCapture(tree, bind)
    ensures forall i :: 0 <= i < |tree| && tree[i].source.Bind? ==> Capture(i, tree[i]) in Binds(tree)
  {
    if tree != [] {
      BindsIndex(tree[..|tree| - 1]);
    }
  }

  lemma {:induction false} OverlaysIndex(tree: Tree)
    ensures forall overlay :: overlay in Overlays(tree) ==> IsPending(tree, overlay)
    ensures forall i :: 0 <= i < |tree| && tree[i].source.Overlay? ==> Pend(i, tree[i]) in Overlays(tree)
  {
    if tree != [] {
      OverlaysIndex(tree[..|tree| - 1]);
    }
  }

  // ----- filling slots -----

  type Slots = seq<Option<ResolvedMount>>

  /** The slots in `done` hold what they should; every other slot is as before. */
  ghost predicate Filled(now: Slots, before: Slots, tree: Tree, done: set<nat>) {
    && |now| == |before|
    && (forall i :: i in done ==> i < |tree|)
    && forall i :: 0 <= i < |now| ==> now[i] == if i in done then Some(Resolved(tree[i])) else before[i]
  }

  lemma FilledStep(now: Slots, before: Slots, tree: Tree, done: set<nat>, i: nat)
    requires Filled(now, before, tree, done) && i < |tree| && i < |now|
    ensures Filled(now[i := Some(Resolved(tree[i]))], before, tree, done + {i})
  {
  }

  /** All slots of one kind are filled, and no others. */
  ghost predicate FilledKind(now: Slots, before: Slots, tree: Tree, kind: Mount -> bool) {
    && |now| == |before|
    && forall i :: 0 <= i < |now| ==>
      now[i] == if i < |tree| && kind(tree[i].source) then Some(Resolved(tree[i])) else before[i]
  }

  lemma FilledIsKind(now: Slots, before: Slots, tree: Tree, done: set<nat>, kind: Mount -> bool)
    requires Filled(now, before, tree, done)
    requires forall i :: 0 <= i < |tree| ==> (i in done <==> kind(tree[i].source))
    ensures FilledKind(now, before, tree, kind)
  {
  }

  /** The second pass before the `k`-th overlay: the slots of those before it are filled. */
  ghost predicate OverlayTurn(kernel: Kernel, now: Slots, before: Slots, tree: Tree, k: nat, done: set<nat>) {
    && k <= |Overlays(tree)|
    && (forall j :: 0 <= j < k ==> Overlays(tree)[j].index in done)
    && (forall i :: i in done ==> i < |tree| && tree[i].source.Overlay? && Resolvable(kernel, tree[i].source))
    && Filled(now, before, tree, done)
  }

  lemma OverlayTurnStep(kernel: Kernel, now: Slots, before: Slots, tree: Tree, k: nat, done: set<nat>)
    requires OverlayTurn(kernel, now, before, tree, k, done) && k < |Overlays(tree)| && |tree| <= |now|
    requires IsPending(tree, Overlays(tree)[k]) && Resolvable(kernel, tree[Overlays(tree)[k].index].source)
    ensures
      var i := Overlays(tree)[k].index;
      OverlayTurn(kernel, now[i := Some(Resolved(tree[i]))], before, tree, k + 1, done + {i})
  {
    FilledStep(now, before, tree, done, Overlays(tree)[k].index);
  }

  lemma OverlayTurnLast(kernel: Kernel, now: Slots, before: Slots, tree: Tree, done: set<nat>)
    requires OverlayTurn(kernel, now, before, tree, |Overlays(tree)|, done)
    ensures FilledKind(now, before, tree, (mount: Mount) => mount.Overlay?)
    ensures AllResolvable(kernel, tree, (mount: Mount) => mount.Overlay?)
  {
    forall i | 0 <= i < |tree| && tree[i].source.Overlay? ensures i in done {
      OverlaysIndex(tree);
      assert Pend(i, tree[i]) in Overlays(tree);
    }
    FilledIsKind(now, before, tree, done, (mount: Mount) => mount.Overlay?);
  }

  /** The third pass before the `i`-th entry. */
  ghost predicate NonbindTurn(kernel: Kernel, now: Slots, before: Slots, tree: Tree, i: nat, count: nat) {
    && i <= |tree| <= |now| == |before| && count == Others(tree[..i])
    && (forall j :: 0 <= j < i && IsOther(tree[j].source) ==> Resolvable(kernel, tree[j].source))
    && forall j :: 0 <= j < |now| ==>
      now[j] == if j < i && IsOther(tree[j].source) then Some(Resolved(tree[j])) else before[j]
  }

  lemma NonbindStep(kernel: Kernel, now: Slots, before: Slots, tree: Tree, i: nat, count: nat)
    requires NonbindTurn(kernel, now, before, tree, i, count) && i < |tree|
    ensures !IsOther(tree[i].source) ==> NonbindTurn(kernel, now, before, tree, i + 1, count)
    ensures IsOther(tree[i].source) && Resolvable(kernel, tree[i].source) ==>
      NonbindTurn(kernel, now[i := Some(Resolved(tree[i]))], before, tree, i + 1, count + 1)
  {
    assert tree[..i + 1][..i] == tree[..i];
  }

  // ----- the passes -----

  /** Buffers of the guest; the kernel's answers are nondeterministic. */
  class Spawn {
    // slots of the spare capacity of the resolved vector; `None` is uninitialised memory
    const resolved: array<Option<ResolvedMount>>
    var resolvedLength: nat

    const bindCapacity: nat
    const layerCapacity: nat
    const overlayCapacity: nat
    var binds: seq<CapturedBind>
    var layers: seq<Handle>
    var overlays: seq<PendingOverlay>

    // mount namespace the process is in, the directory it stands in, and whether the namespace is its own
    var namespace: Handle
    var directory: Handle
    var own: bool

    const kernel: Kernel

    /** Allocation before the clone; `Vec::with_capacity` may give more than asked for. */
    constructor (size: nat, hostMountCount: nat, slack: nat, kernel: Kernel)
      ensures this.kernel == kernel
      ensures fresh(resolved) && resolved.Length == size + slack && resolvedLength == 0
      ensures bindCapacity == overlayCapacity == size + slack && layerCapacity == hostMountCount + slack
      ensures binds == [] && layers == [] && overlays == []
      ensures forall i :: 0 <= i < resolved.Length ==> resolved[i] == None
    {
      resolved := new Option<ResolvedMount>[size + slack](_ => None);
      resolvedLength := 0;
      bindCapacity, overlayCapacity, layerCapacity := size + slack, size + slack, hostMountCount + slack;
      binds, layers, overlays := [], [], [];
      namespace, directory, own := OriginalNamespace, OriginalNamespace, false;
      this.kernel := kernel;
    }

    // kernel stubs

    method OpenTreeNamespace(fd: HostFd, recursive: bool) returns (r: Result<Handle, Error>)
      ensures r == Ok(Namespace(fd, recursive)) || (r == Err(Syscall) && !kernel.Faultless())
    {
      var ok: bool := *;
      r := if ok || kernel.Faultless() then Ok(Namespace(fd, recursive)) else Err(Syscall);
    }

    method Setns(target: Handle) returns (r: Result<(), Error>)
      modifies this`namespace, this`directory
      ensures r == Ok(()) || (r == Err(Syscall) && !kernel.Faultless())
      ensures r.Ok? ==> namespace == target
    {
      var ok: bool := *;
      if ok || kernel.Faultless() {
        namespace := target;
        directory := *;
        return Ok(());
      }
      return Err(Syscall);
    }

    /** `chdir` to the root of the namespace. */
    method Chdir() returns (r: Result<(), Error>)
      modifies this`directory
      ensures r == Ok(()) || (r == Err(Syscall) && !kernel.Faultless())
      ensures r.Ok? ==> directory == namespace
    {
      var ok: bool := *;
      if ok || kernel.Faultless() {
        directory := namespace;
        return Ok(());
      }
      return Err(Syscall);
    }

    /** `unshare`: from now on the mounts of the host are out of reach. */
    method Unshare() returns (r: Result<(), Error>)
      modifies this`own
      ensures r == Ok(()) || (r == Err(Syscall) && !kernel.Faultless())
      ensures r.Ok? ==> own
    {
      var ok: bool := *;
      if ok || kernel.Faultless() {
        own := true;
        return Ok(());
      }
      return Err(Syscall);
    }

    /** Captures the process's own mount tree, so that it can come back to it. */
    method OpenOwnTree() returns (r: Result<Handle, Error>)
      requires own
      ensures r == Ok(OriginalNamespace) || (r == Err(Syscall) && !kernel.Faultless())
    {
      var ok: bool := *;
      r := if ok || kernel.Faultless() then Ok(OriginalNamespace) else Err(Syscall);
    }

    /** Names are looked up from the current directory, no name stands for the root. */
    method OpenTreeAttr(name: Option<Name>, recursive: bool, nofollow: bool, attributes: Attributes)
      returns (r: Result<Handle, Error>)
      ensures r.Ok? ==>
        r.value == DetachedTree(if name.Some? then directory else namespace, name, recursive, nofollow, attributes)
      ensures r.Err? ==> r.error == Syscall && !kernel.Faultless()
    {
      var ok: bool := *;
      if ok || kernel.Faultless() {
        return Ok(DetachedTree(if name.Some? then directory else namespace, name, recursive, nofollow, attributes));
      }
      return Err(Syscall);
    }

    /** `fsconfig`: the settings made so far, and one more. */
    method AddSetting(settings: seq<Setting>, setting: Setting) returns (r: Result<seq<Setting>, Error>)
      ensures r == Ok(settings + [setting]) || (r == Err(Syscall) && !kernel.Faultless())
    {
      var ok: bool := *;
      r := if ok || kernel.Faultless() then Ok(settings + [setting]) else Err(Syscall);
    }

    /** A directory inside a mount: opened, or made and then opened. */
    method OpenInside(mount: Handle, name: Name) returns (r: Result<Handle, Error>)
      ensures r == Ok(Inside(mount, name)) || (r == Err(Syscall) && !kernel.Faultless())
    {
      var ok: bool := *;
      r := if ok || kernel.Faultless() then Ok(Inside(mount, name)) else Err(Syscall);
    }

    method SameFileIdentity(found: Handle, original: HostFd) returns (r: Result<bool, Error>)
      ensures r == Ok(kernel.same(found, original)) || (r == Err(Syscall) && !kernel.Faultless())
    {
      var ok: bool := *;
      r := if ok || kernel.Faultless() then Ok(kernel.same(found, original)) else Err(Syscall);
    }

    /** Fails closed if the object found is not the one the caller opened. */
    method CheckIdentity(found: Handle, original: HostFd) returns (r: Result<(), Error>)
      ensures r.Err? ==>
        || (r.error == Syscall && !kernel.Faultless())
        || (r.error == HostSourcedFileMismatch && !kernel.same(found, original))
      ensures r.Ok? ==> kernel.same(found, original)
    {
      var identical :- SameFileIdentity(found, original);
      if !identical {
        return Err(HostSourcedFileMismatch);
      }
      return Ok(());
    }

    // unchecked pushes: exceeding the capacity would be undefined behaviour

    method PushBind(bind: CapturedBind)
      requires |binds| < bindCapacity
      modifies this`binds
      ensures binds == old(binds) + [bind]
    {
      binds := binds + [bind];
    }

    method PushLayer(layer: Handle)
      requires |layers| < layerCapacity
      modifies this`layers
      ensures layers == old(layers) + [layer]
    {
      layers := layers + [layer];
    }

    method PushOverlay(overlay: PendingOverlay)
      requires |overlays| < overlayCapacity
      modifies this`overlays
      ensures overlays == old(overlays) + [overlay]
    {
      overlays := overlays + [overlay];
    }

    method WriteSlot(i: nat, mount: ResolvedMount)
      requires i < resolved.Length
      modifies resolved
      ensures resolved[..] == old(resolved[..])[i := Some(mount)]
    {
      resolved[i] := Some(mount);
    }

    static function NamespaceOf(fd: HostFd): Handle {
      Namespace(fd, false)
    }

    static function NamespacesOf(fds: seq<HostFd>): (handles: seq<Handle>)
      ensures |handles| == |fds|
    {
      seq(|fds|, i requires 0 <= i < |fds| => NamespaceOf(fds[i]))
    }

    /** The slots of one kind hold what they should; every other slot is as before. */
    twostate predicate Wrote(tree: Tree, kind: Mount -> bool)
      reads resolved
    {
      FilledKind(resolved[..], old(resolved[..]), tree, kind)
    }

    /** Captures the namespaces of the layers of one overlay. */
    method CaptureLayers(overlay: PendingOverlay) returns (r: Result<(), Error>)
      requires |layers| + |Layers(overlay)| <= layerCapacity
      modifies this`layers
      ensures r == Ok(()) || (r == Err(Syscall) && !kernel.Faultless())
      ensures r.Ok? ==> layers == old(layers) + NamespacesOf(Layers(overlay))
    {
      var dirs := overlay.lowerdirs + overlay.datadirs;
      for k := 0 to |dirs|
        invariant layers == old(layers) + NamespacesOf(dirs[..k])
      {
        var namespaceFd :- OpenTreeNamespace(dirs[k], false);
        PushLayer(namespaceFd);
        assert NamespacesOf(dirs[..k + 1]) == NamespacesOf(dirs[..k]) + [NamespaceOf(dirs[k])];
      }
      assert dirs[..|dirs|] == dirs;
      if overlay.upperdirs.Some? && overlay.upperdirs.value.HostUpper? {
        var namespaceFd :- OpenTreeNamespace(overlay.upperdirs.value.parent, false);
        PushLayer(namespaceFd);
        assert NamespacesOf(Layers(overlay)) ==
          NamespacesOf(dirs) + [NamespaceOf(overlay.upperdirs.value.parent)];
      } else {
        assert Layers(overlay) == dirs;
      }
      return Ok(());
    }

    /** One step of the first loop. */
    method CaptureEntry(i: nat, entry: Entry) returns (r: Result<(), Error>)
      requires |binds| < bindCapacity && |overlays| < overlayCapacity
      requires |layers| + |AllLayers(OverlayRecord(i, entry))| <= layerCapacity
      modifies this`binds, this`layers, this`overlays
      ensures r == Ok(()) || (r == Err(Syscall) && !kernel.Faultless())
      ensures r.Ok? ==> binds == old(binds) + BindRecord(i, entry)
      ensures r.Ok? ==> overlays == old(overlays) + OverlayRecord(i, entry)
      ensures r.Ok? ==> layers == old(layers) + NamespacesOf(AllLayers(OverlayRecord(i, entry)))
    {
      var destination := entry.destination;
      AllLayersRecord([], i, entry);
      assert NamespacesOf([]) == [];
      match entry.source {
        case Bind(BindFile(dirfd, name, fd, attributes, isSymlink)) =>
          var namespaceFd :- OpenTreeNamespace(dirfd, false);
          PushBind(CapturedBind(i, namespaceFd, destination, Some((name, fd, isSymlink)), attributes, false));
        case Bind(BindDirectory(fd, attributes, isRecursive)) =>
          var namespaceFd :- OpenTreeNamespace(fd, isRecursive);
          PushBind(CapturedBind(i, namespaceFd, destination, None, attributes, isRecursive));
        case Overlay(lowerdirs, datadirs, upperdirs, attributes) =>
          var overlay := PendingOverlay(i, destination, lowerdirs, datadirs, upperdirs, attributes);
          assert BindRecord(i, entry) == [] && OverlayRecord(i, entry) == [overlay];
          PushOverlay(overlay);
          var _ :- CaptureLayers(overlay);
        case _ =>
      }
      return Ok(());
    }

    /** First loop: records binds and overlays, and captures host namespaces. */
    method CaptureHostMounts(tree: Tree) returns (r: Result<(), Error>)
      requires binds == [] && layers == [] && overlays == []
      requires |tree| <= bindCapacity && |tree| <= overlayCapacity && HostMountCount(tree) <= layerCapacity
      modifies this`binds, this`layers, this`overlays
      ensures r == Ok(()) || (r == Err(Syscall) && !kernel.Faultless())
      ensures r.Ok? ==> binds == Binds(tree) && overlays == Overlays(tree)
      ensures r.Ok? ==> layers == NamespacesOf(AllLayers(overlays))
    {
      for i := 0 to |tree|
        invariant binds == Binds(tree[..i]) && overlays == Overlays(tree[..i])
        invariant layers == NamespacesOf(AllLayers(overlays))
      {
        CaptureStep(tree, i);
        NamespacesConcat(AllLayers(overlays), AllLayers(OverlayRecord(i, tree[i])));
        var _ :- CaptureEntry(i, tree[i]);
      }
      assert tree[..|tree|] == tree;
      return Ok(());
    }

    static lemma NamespacesConcat(a: seq<HostFd>, b: seq<HostFd>)
      ensures NamespacesOf(a + b) == NamespacesOf(a) + NamespacesOf(b)
    {
    }

    /** Enters the namespace captured for one bind and detaches a mount from it. */
    method DetachBind(ghost tree: Tree, bind: CapturedBind) returns (r: Result<Handle, Error>)
      requires IsCapture(tree, bind)
      modifies this`namespace, this`directory
      ensures r.Err? ==> r.error == HostSourcedFileMismatch || (r.error == Syscall && !kernel.Faultless())
      ensures r == Err(HostSourcedFileMismatch) ==> !Genuine(kernel.same, tree[bind.index].source)
      ensures r.Ok? ==> ResolvedFd(r.value, bind.destination, bind.file.None?) == Resolved(tree[bind.index])
      ensures r.Ok? ==> Genuine(kernel.same, tree[bind.index].source)
    {
      var _ :- Setns(bind.namespace);
      var _ :- Chdir();
      if bind.file.Some? {
        var (name, original, isSymlink) := bind.file.value;
        var fd :- OpenTreeAttr(Some(name), bind.recursive, isSymlink, bind.attributes);
        var _ :- CheckIdentity(fd, original);
        return Ok(fd);
      }
      r := OpenTreeAttr(None, bind.recursive, false, bind.attributes);
    }

    /** Second loop: enters each captured namespace and writes the slot of its bind. */
    method DetachBinds(ghost tree: Tree) returns (r: Result<(), Error>)
      requires binds == Binds(tree) && |tree| <= resolved.Length
      modifies this`namespace, this`directory, resolved
      ensures r.Err? ==> r.error == HostSourcedFileMismatch || (r.error == Syscall && !kernel.Faultless())
      ensures r == Err(HostSourcedFileMismatch) ==> Swapped(kernel.same, tree)
      ensures r.Ok? ==> Wrote(tree, (mount: Mount) => mount.Bind?)
      ensures r.Ok? ==> AllResolvable(kernel, tree, (mount: Mount) => mount.Bind?)
    {
      ghost var before := resolved[..];
      ghost var done: set<nat> := {};
      for k := 0 to |binds|
        invariant forall j :: 0 <= j < k ==> binds[j].index in done
        invariant forall i :: i in done ==> i < |tree| && tree[i].source.Bind? && Resolvable(kernel, tree[i].source)
        invariant Filled(resolved[..], before, tree, done)
      {
        var bind := binds[k];
        assert IsCapture(tree, bind) by {
          BindsIndex(tree);
          assert bind in binds;
        }
        var fd :- DetachBind(tree, bind);
        FilledStep(resolved[..], before, tree, done, bind.index);
        WriteSlot(bind.index, ResolvedFd(fd, bind.destination, bind.file.None?));
        done := done + {bind.index};
      }
      forall i | 0 <= i < |tree| && tree[i].source.Bind? ensures i in done {
        BindsIndex(tree);
        assert Capture(i, tree[i]) in binds;
      }
      FilledIsKind(resolved[..], before, tree, done, (mount: Mount) => mount.Bind?);
      return Ok(());
    }

    /** Third loop: replaces each captured namespace, in place, by a detached mount of its root. */
    method DetachLayers(ghost fds: seq<HostFd>) returns (r: Result<(), Error>)
      requires layers == NamespacesOf(fds)
      modifies this`namespace, this`directory, this`layers
      ensures r == Ok(()) || (r == Err(Syscall) && !kernel.Faultless())
      ensures r.Ok? ==> layers == Constituents(fds)
    {
      for k := 0 to |layers|
        invariant |layers| == |fds|
        invariant forall j :: 0 <= j < |fds| ==>
          layers[j] == if j < k then Constituent(fds[j]) else NamespaceOf(fds[j])
      {
        var _ :- Setns(layers[k]);
        var _ :- Chdir();
        var fd :- OpenTreeAttr(None, true, false, OVERLAY_ATTRIBUTES);
        layers := layers[k := fd];
      }
      return Ok(());
    }

    /** Why a pass may fail: unsuitable buffers, a fault, a swapped file, or a filesystem that is not accepted. */
    ghost predicate PassError(error: Error, tree: Tree)
      reads this`resolvedLength
    {
      match error
      case NonzeroResolvedLen => resolvedLength != 0
      case BufferTooSmall => resolved.Length < |tree| || bindCapacity < |tree|
      case Syscall => !kernel.Faultless() || SomeUnresolvable(kernel, tree)
      case HostSourcedFileMismatch => Swapped(kernel.same, tree)
      case _ => false
    }

    /** The first pass: bind slots are written, overlay constituents are ready. */
    method ResolveBindMappings(tree: Tree) returns (r: Result<nat, Error>)
      requires binds == [] && layers == [] && overlays == []
      requires |tree| <= overlayCapacity && HostMountCount(tree) <= layerCapacity
      modifies this`binds, this`layers, this`overlays, this`namespace, this`directory, this`own, resolved
      ensures r.Err? ==> PassError(r.error, tree)
      ensures r == Err(HostSourcedFileMismatch) ==> Swapped(kernel.same, tree)
      ensures r.Ok? ==> r.value == |Binds(tree)| && |tree| <= resolved.Length
      ensures r.Ok? ==> Wrote(tree, (mount: Mount) => mount.Bind?)
      ensures r.Ok? ==> AllResolvable(kernel, tree, (mount: Mount) => mount.Bind?)
      ensures r.Ok? ==> overlays == Overlays(tree) && layers == Constituents(AllLayers(overlays))
      ensures r.Ok? ==> own && namespace == OriginalNamespace && directory == OriginalNamespace
      ensures resolvedLength != 0 ==> r == Err(NonzeroResolvedLen)
      ensures resolvedLength == 0 && resolved.Length < |tree| ==> r == Err(BufferTooSmall)
    {
      if resolvedLength != 0 {
        return Err(NonzeroResolvedLen);
      }
      if !(resolved.Length >= |tree|) || !(bindCapacity >= |tree|) {
        return Err(BufferTooSmall);
      }
      var _ :- CaptureHostMounts(tree);
      var _ :- Unshare();
      var originalNs :- OpenOwnTree();
      var count := |binds|;
      var _ :- DetachBinds(tree);
      var _ :- DetachLayers(AllLayers(overlays));
      var _ :- Setns(originalNs);
      var _ :- Chdir();
      return Ok(count);
    }

    /** `lowerdir+`, once per lower directory, consuming the scratch buffer from the cursor on. */
    method ConfigureLower(fds: seq<HostFd>, cursor: nat) returns (r: Result<seq<Setting>, Error>, end: nat)
      requires cursor + |fds| <= |layers| && layers[cursor..cursor + |fds|] == Constituents(fds)
      ensures r == Ok(LowerSettings(fds)) || (r == Err(Syscall) && !kernel.Faultless())
      ensures r.Ok? ==> end == cursor + |fds|
    {
      var settings: seq<Setting> := [];
      end := cursor;
      for k := 0 to |fds|
        invariant end == cursor + k
        invariant settings == LowerSettings(fds)[..k]
      {
        assert layers[cursor..cursor + |fds|][k] == layers[end];
        var mountFd := layers[end];
        end := end + 1;
        var configured := AddSetting(settings, Lowerdir(mountFd));
        if configured.Err? {
          return configured, end;
        }
        settings := configured.value;
      }
      assert LowerSettings(fds)[..|fds|] == LowerSettings(fds);
      return Ok(settings), end;
    }

    /** `datadir+`, once per data directory. */
    method ConfigureData(fds: seq<HostFd>, cursor: nat) returns (r: Result<seq<Setting>, Error>, end: nat)
      requires cursor + |fds| <= |layers| && layers[cursor..cursor + |fds|] == Constituents(fds)
      ensures r == Ok(DataSettings(fds)) || (r == Err(Syscall) && !kernel.Faultless())
      ensures r.Ok? ==> end == cursor + |fds|
    {
      var settings: seq<Setting> := [];
      end := cursor;
      for k := 0 to |fds|
        invariant end == cursor + k
        invariant settings == DataSettings(fds)[..k]
      {
        assert layers[cursor..cursor + |fds|][k] == layers[end];
        var mountFd := layers[end];
        end := end + 1;
        var configured := AddSetting(settings, Datadir(mountFd));
        if configured.Err? {
          return configured, end;
        }
        settings := configured.value;
      }
      assert DataSettings(fds)[..|fds|] == DataSettings(fds);
      return Ok(settings), end;
    }

    /** `workdir` and `upperdir`, looked up in the captured parent or in a new tmpfs. */
    method ConfigureUpper(upperdirs: Option<UpperDirs>, cursor: nat)
      returns (r: Result<seq<Setting>, Error>, end: nat)
      requires cursor + |UpperParent(upperdirs)| <= |layers|
      requires forall j :: 0 <= j < |UpperParent(upperdirs)| ==>
        layers[cursor + j] == Constituent(UpperParent(upperdirs)[j])
      ensures r.Err? ==> r.error in {Syscall, HostSourcedFileMismatch}
      ensures r == Err(HostSourcedFileMismatch) ==> !GenuineUpper(kernel.same, upperdirs)
      ensures r == Err(Syscall) && kernel.Faultless() ==> !UpperAccepted(kernel, upperdirs)
      ensures r.Ok? ==> GenuineUpper(kernel.same, upperdirs) && UpperAccepted(kernel, upperdirs)
      ensures r.Ok? ==> r.value == UpperSettings(upperdirs) && end == cursor + |UpperParent(upperdirs)|
    {
      end := cursor;
      match upperdirs {
        case None =>
          return Ok([]), end;
        case Some(HostUpper(parent, upperdir, upperdirFd, workdir, workdirFd)) =>
          assert UpperParent(upperdirs)[0] == parent;
          var mountFd := layers[end];
          end := end + 1;
          var settings := UpperInHost(mountFd, upperdir, upperdirFd, workdir, workdirFd);
          return settings, end;
        case Some(TmpfsUpper(size, maxInodes)) =>
          var mounted := MountUpperTmpfs(kernel.filesystems, size, maxInodes);
          if mounted.None? {
            return Err(Syscall), end;
          }
          var settings := UpperInTmpfs(FilesystemMount(mounted.value));
          return settings, end;
      }
    }

    /** Both directories are opened inside the captured parent, and have to be those the caller opened. */
    method UpperInHost(mountFd: Handle, upperdir: Name, upperdirFd: HostFd, workdir: Name, workdirFd: HostFd)
      returns (r: Result<seq<Setting>, Error>)
      ensures r.Err? ==>
        || (r.error == Syscall && !kernel.Faultless())
        || (r.error == HostSourcedFileMismatch &&
            !(kernel.same(Inside(mountFd, workdir), workdirFd) && kernel.same(Inside(mountFd, upperdir), upperdirFd)))
      ensures r.Ok? ==>
        kernel.same(Inside(mountFd, workdir), workdirFd) && kernel.same(Inside(mountFd, upperdir), upperdirFd)
      ensures r.Ok? ==> r.value == [Workdir(Inside(mountFd, workdir)), Upperdir(Inside(mountFd, upperdir))]
    {
      var work :- OpenInside(mountFd, workdir);
      var _ :- CheckIdentity(work, workdirFd);
      var upper :- OpenInside(mountFd, upperdir);
      var _ :- CheckIdentity(upper, upperdirFd);
      r := AddSetting([], Workdir(work));
      if r.Ok? {
        r := AddSetting(r.value, Upperdir(upper));
      }
    }

    /** Both directories are made in a new tmpfs. */
    method UpperInTmpfs(tmpfs: Handle) returns (r: Result<seq<Setting>, Error>)
      ensures r.Err? ==> r.error == Syscall && !kernel.Faultless()
      ensures r.Ok? ==>
        r.value == [Upperdir(Inside(tmpfs, Text("upperdir"))), Workdir(Inside(tmpfs, Text("workdir")))]
    {
      var upper :- OpenInside(tmpfs, Text("upperdir"));
      var work :- OpenInside(tmpfs, Text("workdir"));
      r := AddSetting([], Upperdir(upper));
      if r.Ok? {
        r := AddSetting(r.value, Workdir(work));
      }
    }

    method CreateOverlay(settings: seq<Setting>, attributes: Attributes) returns (r: Result<(), Error>)
      ensures r.Ok? ==> kernel.overlays(settings, attributes)
      ensures r.Err? ==> r.error == Syscall && !(kernel.Faultless() && kernel.overlays(settings, attributes))
    {
      var ok: bool := *;
      if kernel.overlays(settings, attributes) && (ok || kernel.Faultless()) {
        return Ok(());
      }
      return Err(Syscall);
    }

    /** The overlay a record was made from. */
    static function MountOf(overlay: PendingOverlay): Mount {
      Overlay(overlay.lowerdirs, overlay.datadirs, overlay.upperdirs, overlay.attributes)
    }

    /** All settings of one overlay, in the order they are made. */
    method ConfigureOverlay(overlay: PendingOverlay, cursor: nat) returns (r: Result<seq<Setting>, Error>, end: nat)
      requires cursor + |Layers(overlay)| <= |layers|
      requires layers[cursor..cursor + |Layers(overlay)|] == Constituents(Layers(overlay))
      ensures r.Err? ==> r.error in {Syscall, HostSourcedFileMismatch}
      ensures r == Err(HostSourcedFileMismatch) ==> !GenuineUpper(kernel.same, overlay.upperdirs)
      ensures r == Err(Syscall) && kernel.Faultless() ==> !Accepted(kernel, MountOf(overlay))
      ensures r.Ok? ==> Resolvable(kernel, MountOf(overlay))
      ensures r.Ok? ==> r.value == OverlaySettings(overlay.lowerdirs, overlay.datadirs, overlay.upperdirs)
      ensures r.Ok? ==> end == cursor + |Layers(overlay)|
    {
      OwnSegments(layers, overlay, cursor);
      var lower, afterLower := ConfigureLower(overlay.lowerdirs, cursor);
      if lower.Err? {
        return lower, afterLower;
      }
      var datas, afterData := ConfigureData(overlay.datadirs, afterLower);
      if datas.Err? {
        return datas, afterData;
      }
      var upper, afterUpper := ConfigureUpper(overlay.upperdirs, afterData);
      if upper.Err? {
        return upper, afterUpper;
      }
      var configured := AddSetting(lower.value + datas.value + upper.value, Userxattr);
      if configured.Err? {
        return configured, afterUpper;
      }
      var settings := configured.value;
      var created := CreateOverlay(settings, overlay.attributes);
      if created.Err? {
        return Err(Syscall), afterUpper;
      }
      return Ok(settings), afterUpper;
    }

    /** One step of the second pass: configures the `k`-th overlay and writes its slot. */
    method FinishOverlay(ghost tree: Tree, k: nat, cursor: nat) returns (r: Result<(), Error>, end: nat)
      requires k < |overlays| && IsPending(tree, overlays[k]) && |tree| <= resolved.Length
      requires layers == Constituents(AllLayers(overlays)) && cursor == |AllLayers(overlays[..k])|
      modifies resolved
      ensures r.Err? ==> r.error in {Syscall, HostSourcedFileMismatch}
      ensures r.Err? ==> PassError(r.error, tree)
      ensures r.Ok? ==> Resolvable(kernel, tree[overlays[k].index].source)
      ensures r.Ok? ==> end == |AllLayers(overlays[..k + 1])| <= |layers|
      ensures r.Ok? ==>
        resolved[..] == old(resolved[..])[overlays[k].index := Some(Resolved(tree[overlays[k].index]))]
    {
      var overlay := overlays[k];
      CursorStep(overlays, k);
      assert MountOf(overlay) == tree[overlay.index].source;
      var settings, afterOverlay := ConfigureOverlay(overlay, cursor);
      if settings.Err? {
        return Err(settings.error), afterOverlay;
      }
      var mount := ResolvedFd(OverlayMount(settings.value, overlay.attributes), overlay.destination, true);
      assert mount == Resolved(tree[overlay.index]);
      WriteSlot(overlay.index, mount);
      return Ok(()), afterOverlay;
    }

    /** The second pass: the cursor walks the scratch buffer once, overlay by overlay. */
    method FinishOverlayMountResolution(ghost tree: Tree) returns (r: Result<nat, Error>, cursor: nat)
      requires |tree| <= resolved.Length
      requires overlays == Overlays(tree) && layers == Constituents(AllLayers(overlays))
      modifies resolved
      ensures r.Err? ==> r.error in {Syscall, HostSourcedFileMismatch}
      ensures r.Err? ==> PassError(r.error, tree)
      ensures r.Ok? ==> AllResolvable(kernel, tree, (mount: Mount) => mount.Overlay?)
      ensures r.Ok? ==> r.value == |Overlays(tree)| && Wrote(tree, (mount: Mount) => mount.Overlay?)
      ensures r.Ok? ==> cursor == |layers|
    {
      cursor := 0;
      var k := 0;
      ghost var before := resolved[..];
      ghost var done: set<nat> := {};
      while k < |overlays|
        invariant 0 <= k <= |overlays| && cursor == |AllLayers(overlays[..k])|
        invariant OverlayTurn(kernel, resolved[..], before, tree, k, done)
      {
        assert IsPending(tree, overlays[k]) by {
          OverlaysIndex(tree);
          assert overlays[k] in overlays;
        }
        ghost var now := resolved[..];
        var step: Result<(), Error>;
        step, cursor := FinishOverlay(tree, k, cursor);
        if step.Err? {
          return Err(step.error), cursor;
        }
        OverlayTurnStep(kernel, now, before, tree, k, done);
        done := done + {overlays[k].index};
        k := k + 1;
      }
      assert overlays[..k] == overlays;
      OverlayTurnLast(kernel, resolved[..], before, tree, done);
      return Ok(|overlays|), cursor;
    }

    method MountFilesystem(mount: Mount) returns (r: Result<Filesystem, Error>)
      requires IsFilesystem(mount)
      ensures r.Ok? ==> r.value == Configured(mount) && Accepted(kernel, mount)
      ensures r.Err? ==> r.error == Syscall && !(kernel.Faultless() && Accepted(kernel, mount))
    {
      var mounted: Option<Filesystem>;
      match mount {
        case Procfs(hidepid, gid, subsetPid, namespace, attributes) =>
          mounted := MountProcfs(kernel.filesystems, hidepid, gid, subsetPid, namespace, attributes);
        case Mqueue(attributes) =>
          mounted := MountMqueue(kernel.filesystems, attributes);
        case Tmpfs(size, maxInodes, permissions, attributes) =>
          mounted := MountTmpfs(kernel.filesystems, size, maxInodes, permissions, attributes);
      }
      r := if mounted.Some? then Ok(mounted.value) else Err(Syscall);
    }

    /** What the third pass writes for one entry. */
    method ResolveNonbind(entry: Entry) returns (r: Result<ResolvedMount, Error>)
      requires IsOther(entry.source)
      ensures r.Ok? ==> r.value == Resolved(entry) && Resolvable(kernel, entry.source)
      ensures r.Err? ==> r.error == Syscall && !(kernel.Faultless() && Resolvable(kernel, entry.source))
    {
      var source, destination := entry.source, entry.destination;
      if source.File? {
        return Ok(ResolvedFile(source.contents, source.permissions, destination));
      }
      if source.Symlink? {
        return Ok(ResolvedSymlink(source.target, destination));
      }
      if source.EmptyDirectory? {
        return Ok(ResolvedDirectory(source.permissions, destination));
      }
      var fs :- MountFilesystem(source);
      return Ok(ResolvedFd(FilesystemMount(fs), destination, true));
    }

    /** The third pass: everything that is neither a bind nor an overlay. */
    method ResolveNonbindMappings(tree: Tree) returns (r: Result<nat, Error>)
      modifies resolved
      ensures r.Err? ==> PassError(r.error, tree) && r.error != HostSourcedFileMismatch
      ensures resolvedLength != 0 ==> r == Err(NonzeroResolvedLen)
      ensures resolvedLength == 0 && resolved.Length < |tree| ==> r == Err(BufferTooSmall)
      ensures r.Ok? ==> r.value == Others(tree) && |tree| <= resolved.Length && Wrote(tree, IsOther)
      ensures r.Ok? ==> AllResolvable(kernel, tree, IsOther)
    {
      if resolvedLength != 0 {
        return Err(NonzeroResolvedLen);
      }
      if !(resolved.Length >= |tree|) {
        return Err(BufferTooSmall);
      }
      ghost var before := resolved[..];
      var count := 0;
      for i := 0 to |tree|
        invariant NonbindTurn(kernel, resolved[..], before, tree, i, count)
      {
        NonbindStep(kernel, resolved[..], before, tree, i, count);
        match tree[i].source {
          case Bind(_) =>
          case Overlay(_, _, _, _) =>
          case _ =>
            var mount :- ResolveNonbind(tree[i]);
            WriteSlot(i, mount);
            count := count + 1;
        }
      }
      assert tree[..|tree|] == tree;
      return Ok(count);
    }

    /** The order the guest runs the passes in, up to exposing the slots with `set_len`. */
    method ResolveAll(tree: Tree) returns (r: Result<seq<ResolvedMount>, Error>)
      requires resolvedLength == 0 && binds == [] && layers == [] && overlays == []
      requires |tree| <= overlayCapacity && HostMountCount(tree) <= layerCapacity
      modifies this, resolved
      ensures r.Err? ==> PassError(r.error, tree) && resolvedLength == 0
      ensures r.Ok? ==> !Swapped(kernel.same, tree) && !SomeUnresolvable(kernel, tree)
      ensures r.Ok? ==> resolvedLength == |r.value| == |tree|
      ensures r.Ok? ==> forall i :: 0 <= i < |tree| ==> r.value[i] == Resolved(tree[i])
      ensures r.Ok? ==> own && namespace == OriginalNamespace && directory == OriginalNamespace
    {
      KindsPartition(tree);
      ghost var start := resolved[..];
      var resolvedCount :- ResolveBindMappings(tree);
      ghost var bound := resolved[..];
      var finished, cursor := FinishOverlayMountResolution(tree);
      if finished.Err? {
        return Err(finished.error);
      }
      ghost var overlaid := resolved[..];
      resolvedCount := resolvedCount + finished.value;
      var others :- ResolveNonbindMappings(tree);
      resolvedCount := resolvedCount + others;
      if resolvedCount != |tree| {
        return Err(MappingsLengthMismatch);
      }
      PassesFillAll(start, bound, overlaid, resolved[..], tree);
      AllKindsResolvable(kernel, tree);
      resolvedLength := resolvedCount;
      var slots := resolved[..resolvedLength];
      assert forall i :: 0 <= i < |slots| ==> slots[i] == resolved[..][i] == Some(Resolved(tree[i]));
      return Ok(seq(|slots|, i requires 0 <= i < |slots| && slots[i].Some? => slots[i].value));
    }
  }

  /** Three passes over disjoint kinds leave every slot of the tree as it should be. */
  lemma PassesFillAll(start: Slots, bound: Slots, overlaid: Slots, full: Slots, tree: Tree)
    requires FilledKind(bound, start, tree, (mount: Mount) => mount.Bind?)
    requires FilledKind(overlaid, bound, tree, (mount: Mount) => mount.Overlay?)
    requires FilledKind(full, overlaid, tree, IsOther)
    ensures |full| == |start|
    ensures forall i :: 0 <= i < |tree| && i < |full| ==> full[i] == Some(Resolved(tree[i]))
  {
  }

  lemma AllKindsResolvable(kernel: Kernel, tree: Tree)
    requires AllResolvable(kernel, tree, (mount: Mount) => mount.Bind?)
    requires AllResolvable(kernel, tree, (mount: Mount) => mount.Overlay?)
    requires AllResolvable(kernel, tree, IsOther)
    ensures !SomeUnresolvable(kernel, tree) && !Swapped(kernel.same, tree)
  {
    forall i | 0 <= i < |tree| ensures Resolvable(kernel, tree[i].source) {
      assert tree[i].source.Bind? || tree[i].source.Overlay? || IsOther(tree[i].source);
    }
  }

  /** A valid tree with its stored count gets buffers in which every pass is memory safe. */
  method ResolveValidTree(policy: MountTree, slack: nat, kernel: Kernel)
    returns (r: Result<seq<ResolvedMount>, Error>)
    requires Ordered(policy.tree)
    modifies policy
    ensures policy.tree == old(policy.tree)
    ensures r == Err(InvalidMountPolicy) <==> !NothingUnderHost(policy.tree)
    ensures r.Err? ==> r.error in {InvalidMountPolicy, Syscall, HostSourcedFileMismatch}
    ensures r == Err(HostSourcedFileMismatch) ==> Swapped(kernel.same, policy.tree)
    ensures r == Err(Syscall) && kernel.Faultless() ==> SomeUnresolvable(kernel, policy.tree)
    ensures r.Ok? ==> !SomeUnresolvable(kernel, policy.tree) && !Swapped(kernel.same, policy.tree)
    ensures r.Ok? ==> |r.value| == |policy.tree|
    ensures r.Ok? ==> forall i :: 0 <= i < |policy.tree| ==> r.value[i] == Resolved(policy.tree[i])
  {
    var valid := policy.IsValid();
    if !valid {
      return Err(InvalidMountPolicy);
    }
    var spawn := new Spawn(|policy.tree|, policy.hostMountCount, slack, kernel);
    r := spawn.ResolveAll(policy.tree);
  }
}
