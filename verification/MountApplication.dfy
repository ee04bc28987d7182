/** Applying resolved mounts in slot order inside the new root (spawn/mod.rs, guest_post_clone). */
module MountApplication {
  import opened Bytes
  import opened PathOrder
  import opened Wrappers
  import opened Mounts
  import opened MountResolution
  import opened Filesystems
  import opened MountMeaning
  import Paths

  // ----- the kernel's mount table -----

  /** A mounted filesystem: where it sits and on which mount it was placed; layer 0 is the root tmpfs. */
  datatype Layer = Layer(point: Path, parent: nat, fd: Handle)

  type Layers = seq<Layer>

  ghost predicate WellFormed(layers: Layers) {
    && |layers| > 0
    && layers[0].point == []
    && forall j :: 0 < j < |layers| ==> layers[j].parent < j
  }

  /** The mount placed on mount `parent` at `point`, searching the newest first. */
  function ChildAt(layers: Layers, parent: nat, point: Path): (child: Option<nat>)
    ensures child.Some? ==> 0 < child.value < |layers|
    ensures child.Some? ==> layers[child.value].parent == parent && layers[child.value].point == point
    ensures child.None? ==> forall j :: 0 < j < |layers| ==> layers[j].parent != parent || layers[j].point != point
  {
    if |layers| <= 1 then None
    else
      var last := |layers| - 1;
      if layers[last].parent == parent && layers[last].point == point then Some(last)
      else ChildAt(layers[..last], parent, point)
  }

  /** Crossing mount points: the topmost mount stacked at `point` starting from mount `current`. */
  function Cross(layers: Layers, current: nat, point: Path): (top: nat)
    requires WellFormed(layers) && current < |layers|
    ensures top < |layers| && ChildAt(layers, top, point) == None
    decreases |layers| - current
  {
    var child := ChildAt(layers, current, point);
    if child.None? then current else Cross(layers, child.value, point)
  }

  /** Path resolution: walks the components and crosses mounts at every step. */
  function Walk(layers: Layers, path: Path): (owner: nat)
    requires WellFormed(layers)
    ensures owner < |layers| && ChildAt(layers, owner, path) == None
    decreases |path|
  {
    if path == [] then Cross(layers, 0, [])
    else Cross(layers, Walk(layers, path[..|path| - 1]), path)
  }

  /** `move_mount` onto a path: the new mount lands on whatever owns that path now. */
  function Attach(layers: Layers, point: Path, fd: Handle): (r: Layers)
    requires WellFormed(layers)
    ensures WellFormed(r) && |r| == |layers| + 1
  {
    layers + [Layer(point, Walk(layers, point), fd)]
  }

  lemma ChildAtAppend(layers: Layers, layer: Layer, parent: nat, point: Path)
    requires WellFormed(layers)
    ensures ChildAt(layers + [layer], parent, point) ==
      if layer.parent == parent && layer.point == point then Some(|layers|) else ChildAt(layers, parent, point)
  {
    assert (layers + [layer])[..|layers|] == layers;
  }

  lemma {:induction false} CrossAppend(layers: Layers, layer: Layer, current: nat, point: Path)
    requires WellFormed(layers) && current < |layers|
    requires layer.parent < |layers| && ChildAt(layers, layer.parent, layer.point) == None
    ensures WellFormed(layers + [layer])
    ensures Cross(layers + [layer], current, point) ==
      if layer.point == point && layer.parent == Cross(layers, current, point) then |layers|
      else Cross(layers, current, point)
    decreases |layers| - current
  {
    ChildAtAppend(layers, layer, current, point);
    var child := ChildAt(layers, current, point);
    if child.Some? {
      CrossAppend(layers, layer, child.value, point);
    } else {
      CrossNew(layers, layer, point);
    }
  }

  /** Nothing has been mounted on the newest mount. */
  lemma CrossNew(layers: Layers, layer: Layer, point: Path)
    requires WellFormed(layers) && layer.parent < |layers|
    ensures WellFormed(layers + [layer])
    ensures Cross(layers + [layer], |layers|, point) == |layers|
  {
    var extended := layers + [layer];
    var child := ChildAt(extended, |layers|, point);
    if child.Some? {
      assert false;
    }
  }

  /** A new mount takes over exactly the paths at and below its mount point. */
  lemma {:induction false} WalkAttach(layers: Layers, point: Path, fd: Handle, path: Path)
    requires WellFormed(layers)
    ensures Walk(Attach(layers, point, fd), path) == if point <= path then |layers| else Walk(layers, path)
    decreases |path|
  {
    var layer := Layer(point, Walk(layers, point), fd);
    if path == [] {
      CrossAppend(layers, layer, 0, []);
    } else {
      var front := path[..|path| - 1];
      WalkAttach(layers, point, fd, front);
      if point <= front {
        CrossNew(layers, layer, path);
        assert point <= path;
      } else {
        CrossAppend(layers, layer, Walk(layers, front), path);
        if point <= path {
          assert point == path;
        }
      }
    }
  }

  // ----- longest-prefix lookup -----

  /** The layer whose mount point is the longest prefix of the path. */
  ghost predicate LongestPrefix(layers: Layers, path: Path, owner: nat) {
    && owner < |layers|
    && layers[owner].point <= path
    && forall j :: 0 <= j < |layers| && layers[j].point <= path ==> |layers[j].point| <= |layers[owner].point|
  }

  /** Mount points in strictly increasing path order, the root first. */
  ghost predicate InOrder(layers: Layers) {
    forall i, j :: 0 <= i < j < |layers| ==> ComparePaths(layers[i].point, layers[j].point) == Less
  }

  /** Built by attaching one mount after another onto the root. */
  ghost predicate Built(layers: Layers) {
    && WellFormed(layers)
    && forall j :: 0 < j < |layers| ==> BuiltAt(layers, j)
  }

  ghost predicate BuiltAt(layers: Layers, j: nat)
    requires WellFormed(layers) && 0 < j < |layers|
  {
    WellFormed(layers[..j]) && layers[j].parent == Walk(layers[..j], layers[j].point)
  }

  /** Attaching in path order makes kernel path resolution the longest-prefix lookup. */
  lemma {:induction false} WalkIsLongestPrefix(layers: Layers, path: Path)
    requires Built(layers) && InOrder(layers)
    ensures LongestPrefix(layers, path, Walk(layers, path))
    decreases |layers|
  {
    var n := |layers| - 1;
    if n == 0 {
      RootOwnsAll(layers, path);
    } else {
      var front, last := layers[..n], layers[n];
      BuiltFront(layers);
      WalkIsLongestPrefix(front, path);
      assert BuiltAt(layers, n);
      assert layers == Attach(front, last.point, last.fd);
      WalkAttach(front, last.point, last.fd, path);
      ExtendLongestPrefix(layers, path, Walk(front, path));
    }
  }

  /** The newest mount wins if it matches; otherwise the winner among the others stays. */
  lemma ExtendLongestPrefix(layers: Layers, path: Path, owner: nat)
    requires |layers| > 1 && InOrder(layers) && LongestPrefix(layers[..|layers| - 1], path, owner)
    ensures LongestPrefix(layers, path, if layers[|layers| - 1].point <= path then |layers| - 1 else owner)
  {
    var n := |layers| - 1;
    var front := layers[..n];
    if layers[n].point <= path {
      forall j | 0 <= j < n && layers[j].point <= path ensures |layers[j].point| <= |layers[n].point| {
        LaterPrefixIsLonger(layers[j].point, layers[n].point, path);
      }
    } else {
      forall j | 0 <= j < |layers| && layers[j].point <= path ensures |layers[j].point| <= |layers[owner].point| {
        assert j < n && front[j] == layers[j];
      }
    }
  }

  lemma BuiltFront(layers: Layers)
    requires Built(layers) && |layers| > 1
    ensures Built(layers[..|layers| - 1])
  {
    var front := layers[..|layers| - 1];
    forall j | 0 < j < |front| ensures WellFormed(front) && BuiltAt(front, j) {
      assert BuiltAt(layers, j);
      assert front[..j] == layers[..j];
    }
  }

  lemma {:induction false} RootOwnsAll(layers: Layers, path: Path)
    requires WellFormed(layers) && |layers| == 1
    ensures Walk(layers, path) == 0
    decreases |path|
  {
    if path != [] {
      RootOwnsAll(layers, path[..|path| - 1]);
    }
  }

  lemma LaterPrefixIsLonger(a: Path, b: Path, path: Path)
    requires a <= path && b <= path && ComparePaths(a, b) == Less
    ensures |a| < |b|
  {
    if |b| <= |a| {
      assert b == path[..|b|] && a == path[..|a|];
      assert b <= a;
      PrefixAtMost(b, a);
      PathsTotal();
      assert false;
    }
  }

  // ----- what a run leaves behind -----

  datatype NodeKind =
    | DirectoryNode(permissions: nat)
    | RegularNode(contents: seq<Byte>, permissions: nat)
    | SymlinkNode(text: seq<Byte>)

  /** A filesystem object the setup created: in which mount, and under which path. */
  datatype Node = Node(mount: nat, path: Path, kind: NodeKind)

  function Parent(path: Path): Path
    requires path != []
  {
    path[..|path| - 1]
  }

  /** The permission and sticky bits: a new directory has no others, and set-id bits of a file may get lost. */
  function ModeBits(permissions: nat): nat {
    permissions % 0x400
  }

  /** The object a non-mount entry asks for. */
  function Requested(mount: ResolvedMount): NodeKind
    requires !mount.ResolvedFd?
  {
    match mount
    case ResolvedFile(contents, permissions, _) => RegularNode(contents, ModeBits(permissions))
    case ResolvedSymlink(target, _) => SymlinkNode(Paths.Print(target))
    case ResolvedDirectory(permissions, _) => DirectoryNode(ModeBits(permissions))
  }

  ghost predicate Applicable(mounts: seq<ResolvedMount>) {
    && (forall i :: 0 <= i < |mounts| ==> mounts[i].destination != [])
    && forall i, j :: 0 <= i < j < |mounts| ==>
      ComparePaths(mounts[i].destination, mounts[j].destination) == Less
  }

  /** Mount table after applying every entry in order. */
  function LayersOf(root: Handle, mounts: seq<ResolvedMount>): (layers: Layers)
    ensures WellFormed(layers)
  {
    if mounts == [] then [Layer([], 0, root)]
    else
      var front, last := mounts[..|mounts| - 1], mounts[|mounts| - 1];
      if last.ResolvedFd? then Attach(LayersOf(root, front), last.destination, last.fd)
      else LayersOf(root, front)
  }

  predicate ComesFrom(mounts: seq<ResolvedMount>, layer: Layer, j: nat) {
    j < |mounts| && mounts[j].ResolvedFd? && mounts[j].destination == layer.point && mounts[j].fd == layer.fd
  }

  /** Every mount but the root was made from an entry, at its destination. */
  lemma {:induction false} LayersOfOrigin(root: Handle, mounts: seq<ResolvedMount>, k: nat) returns (j: nat)
    requires 0 < k < |LayersOf(root, mounts)|
    ensures ComesFrom(mounts, LayersOf(root, mounts)[k], j)
    decreases |mounts|
  {
    var n := |mounts| - 1;
    var before := LayersOf(root, mounts[..n]);
    if k < |before| {
      j := LayersOfOrigin(root, mounts[..n], k);
      assert mounts[..n][j] == mounts[j];
    } else {
      j := n;
    }
  }

  lemma {:induction false} LayersOfBuilt(root: Handle, mounts: seq<ResolvedMount>)
    requires Applicable(mounts)
    ensures Built(LayersOf(root, mounts)) && InOrder(LayersOf(root, mounts))
  {
    if mounts != [] {
      var n := |mounts| - 1;
      var front, last := mounts[..n], mounts[n];
      LayersOfBuilt(root, front);
      if last.ResolvedFd? {
        var before := LayersOf(root, front);
        forall i | 0 <= i < |before| ensures ComparePaths(before[i].point, last.destination) == Less {
          EarlierPoint(root, mounts, i);
        }
        AttachBuilt(before, last.destination, last.fd);
      }
    }
  }

  lemma AttachBuilt(layers: Layers, point: Path, fd: Handle)
    requires Built(layers)
    ensures Built(Attach(layers, point, fd))
  {
    var extended := Attach(layers, point, fd);
    forall j | 0 < j < |extended| ensures BuiltAt(extended, j) {
      if j < |layers| {
        assert BuiltAt(layers, j);
        assert extended[..j] == layers[..j];
      } else {
        assert extended[..j] == layers;
      }
    }
  }

  /** Mounts applied before the last entry sit strictly before its destination. */
  lemma EarlierPoint(root: Handle, mounts: seq<ResolvedMount>, k: nat)
    requires Applicable(mounts) && mounts != [] && k < |LayersOf(root, mounts[..|mounts| - 1])|
    ensures
      var point, path := LayersOf(root, mounts[..|mounts| - 1])[k].point, mounts[|mounts| - 1].destination;
      ComparePaths(point, path) == Less && (k > 0 ==> point != path)
  {
    var n := |mounts| - 1;
    if k > 0 {
      var j := LayersOfOrigin(root, mounts[..n], k);
      assert mounts[..n][j] == mounts[j];
      PathsTotal();
    } else {
      RootIsFirst(root, mounts[..n]);
      PrefixAtMost([], mounts[n].destination);
    }
  }

  lemma {:induction false} RootIsFirst(root: Handle, mounts: seq<ResolvedMount>)
    ensures LayersOf(root, mounts)[0] == Layer([], 0, root)
  {
    if mounts != [] {
      RootIsFirst(root, mounts[..|mounts| - 1]);
    }
  }

  /** A path that carries no mount of its own is owned by the mount that owns its parent. */
  lemma OwnerOfUnmounted(layers: Layers, path: Path)
    requires WellFormed(layers) && path != []
    requires forall j :: 0 < j < |layers| ==> layers[j].point != path
    ensures Walk(layers, path) == Walk(layers, Parent(path))
  {
  }

  /** A mount attached later in path order changes neither the owner of a path nor that of its parent. */
  lemma LaterMountHidesNothing(layers: Layers, point: Path, fd: Handle, path: Path)
    requires WellFormed(layers) && path != [] && ComparePaths(path, point) == Less
    ensures Walk(Attach(layers, point, fd), path) == Walk(layers, path)
    ensures Walk(Attach(layers, point, fd), Parent(path)) == Walk(layers, Parent(path))
  {
    if point <= path {
      PrefixAtMost(point, path);
      PathsTotal();
      assert false;
    }
    WalkAttach(layers, point, fd, path);
    WalkAttach(layers, point, fd, Parent(path));
  }

  /** The entry is visible: its mount is on top at its destination, or its parent's owner owns it. */
  ghost predicate Visible(layers: Layers, mount: ResolvedMount)
    requires WellFormed(layers) && mount.destination != []
  {
    var path := mount.destination;
    var owner := Walk(layers, path);
    if mount.ResolvedFd? then owner > 0 && layers[owner] == Layer(path, Walk(layers, Parent(path)), mount.fd)
    else owner == Walk(layers, Parent(path))
  }

  lemma VisibleKept(layers: Layers, mount: ResolvedMount, point: Path, fd: Handle)
    requires WellFormed(layers) && mount.destination != [] && Visible(layers, mount)
    requires ComparePaths(mount.destination, point) == Less
    ensures Visible(Attach(layers, point, fd), mount)
  {
    LaterMountHidesNothing(layers, point, fd, mount.destination);
    assert layers <= Attach(layers, point, fd);
  }

  /** At the end of the run every entry is visible exactly where it was asked for. */
  lemma {:induction false} EveryEntryVisible(root: Handle, mounts: seq<ResolvedMount>, i: nat)
    requires Applicable(mounts) && i < |mounts|
    ensures Visible(LayersOf(root, mounts), mounts[i])
    decreases |mounts|
  {
    var n := |mounts| - 1;
    if i < n {
      var front, last := mounts[..n], mounts[n];
      assert front[i] == mounts[i];
      assert Applicable(front) && ComparePaths(mounts[i].destination, last.destination) == Less;
      EveryEntryVisible(root, front, i);
      VisibleAfter(root, mounts, mounts[i]);
    } else {
      LastEntryVisible(root, mounts);
    }
  }

  lemma VisibleAfter(root: Handle, mounts: seq<ResolvedMount>, mount: ResolvedMount)
    requires mounts != [] && mount.destination != []
    requires ComparePaths(mount.destination, mounts[|mounts| - 1].destination) == Less
    requires Visible(LayersOf(root, mounts[..|mounts| - 1]), mount)
    ensures Visible(LayersOf(root, mounts), mount)
  {
    var last := mounts[|mounts| - 1];
    if last.ResolvedFd? {
      VisibleKept(LayersOf(root, mounts[..|mounts| - 1]), mount, last.destination, last.fd);
    }
  }

  lemma LastEntryVisible(root: Handle, mounts: seq<ResolvedMount>)
    requires Applicable(mounts) && mounts != []
    ensures Visible(LayersOf(root, mounts), mounts[|mounts| - 1])
  {
    var n := |mounts| - 1;
    var before, last, path := LayersOf(root, mounts[..n]), mounts[n], mounts[n].destination;
    forall k | 0 < k < |before| ensures before[k].point != path {
      EarlierPoint(root, mounts, k);
    }
    OwnerOfUnmounted(before, path);
    if last.ResolvedFd? {
      WalkAttach(before, path, last.fd, path);
      WalkAttach(before, path, last.fd, Parent(path));
      assert !(path <= Parent(path));
    }
  }

  // ----- where setup may write -----

  /** The root tmpfs, or a mount below which nothing that is written reaches the host. */
  ghost predicate OffHost(layers: Layers, m: nat) {
    m < |layers| && (m == 0 || !ReachesHost(layers[m].fd))
  }

  /** The entries of a tree, resolved. */
  ghost predicate ResolvedFrom(tree: Tree, mounts: seq<ResolvedMount>) {
    && |mounts| == |tree|
    && (forall i :: 0 <= i < |tree| ==> mounts[i] == Resolved(tree[i]))
    && forall i :: 0 <= i < |tree| ==> tree[i].destination != []
  }

  lemma ResolvedIsApplicable(tree: Tree, mounts: seq<ResolvedMount>, n: nat)
    requires Ordered(tree) && ResolvedFrom(tree, mounts) && n <= |mounts|
    ensures Applicable(mounts[..n])
  {
    forall i, j | 0 <= i < j < n
      ensures ComparePaths(mounts[i].destination, mounts[j].destination) == Less
    {
      DestinationsDiffer(tree, i, j);
    }
  }

  /** In a valid tree, the mount that owns a destination's parent is off the host, at every stage of the loop. */
  lemma ParentIsOffHost(root: Handle, tree: Tree, mounts: seq<ResolvedMount>, n: nat, i: nat)
    requires Ordered(tree) && NothingUnderHost(tree) && ResolvedFrom(tree, mounts) && n <= |tree| && i < |tree|
    ensures
      var layers := LayersOf(root, mounts[..n]);
      OffHost(layers, Walk(layers, Parent(tree[i].destination)))
  {
    var layers := LayersOf(root, mounts[..n]);
    var owner := Walk(layers, Parent(tree[i].destination));
    if owner != 0 {
      ResolvedIsApplicable(tree, mounts, n);
      LayersOfBuilt(root, mounts[..n]);
      WalkIsLongestPrefix(layers, Parent(tree[i].destination));
      var j := LayersOfOrigin(root, mounts[..n], owner);
      assert mounts[..n][j] == Resolved(tree[j]);
      assert tree[j].destination < tree[i].destination;
      SyntheticExactly(tree[j]);
    }
  }

  /** Every mount of the finished tree sits on the root tmpfs or on a mount off the host. */
  lemma MountsSitOffHost(root: Handle, tree: Tree, mounts: seq<ResolvedMount>, k: nat)
    requires Ordered(tree) && NothingUnderHost(tree) && ResolvedFrom(tree, mounts)
    requires 0 < k < |LayersOf(root, mounts)|
    ensures OffHost(LayersOf(root, mounts), LayersOf(root, mounts)[k].parent)
  {
    var layers := LayersOf(root, mounts);
    assert mounts[..|mounts|] == mounts;
    ResolvedIsApplicable(tree, mounts, |mounts|);
    LayersOfBuilt(root, mounts);
    var j := LayersOfOrigin(root, mounts, k);
    EveryEntryVisible(root, mounts, j);
    var owner := Walk(layers, mounts[j].destination);
    assert layers[owner].point == layers[k].point;
    PathsTotal();
    assert owner == k;
    ParentIsOffHost(root, tree, mounts, |mounts|, j);
  }

  /** A created object has a destination of the tree as its path, and lives off the host, in the owner of its parent. */
  ghost predicate SafeNode(tree: Tree, layers: Layers, node: Node)
    requires WellFormed(layers)
  {
    && node.path != []
    && node.path in Destinations(tree)
    && node.mount == Walk(layers, Parent(node.path))
    && OffHost(layers, node.mount)
  }

  /** All objects are safe, and were made for one of the first `i` entries. */
  ghost predicate AllSafe(tree: Tree, layers: Layers, nodes: seq<Node>, i: nat)
    requires WellFormed(layers) && i <= |tree|
  {
    forall node :: node in nodes ==> SafeNode(tree, layers, node) && node.path in Destinations(tree[..i])
  }

  lemma SafeAfterCreation(tree: Tree, layers: Layers, nodes: seq<Node>, more: seq<Node>, i: nat)
    requires WellFormed(layers) && i < |tree| && tree[i].destination != [] && AllSafe(tree, layers, nodes, i)
    requires OffHost(layers, Walk(layers, Parent(tree[i].destination)))
    requires forall node :: node in more ==>
      node.path == tree[i].destination && node.mount == Walk(layers, Parent(tree[i].destination))
    ensures AllSafe(tree, layers, nodes + more, i + 1)
  {
    assert Destinations(tree)[i] == tree[i].destination && Destinations(tree[..i + 1])[i] == tree[i].destination;
    assert Destinations(tree[..i]) <= Destinations(tree[..i + 1]);
  }

  /** Objects made so far stay safe when the entry adds its mount. */
  lemma SafeAfterMount(tree: Tree, layers: Layers, nodes: seq<Node>, i: nat, fd: Handle)
    requires WellFormed(layers) && Ordered(tree) && i < |tree| && AllSafe(tree, layers, nodes, i + 1)
    ensures AllSafe(tree, Attach(layers, tree[i].destination, fd), nodes, i + 1)
  {
    forall node | node in nodes ensures SafeNode(tree, Attach(layers, tree[i].destination, fd), node) {
      var j :| 0 <= j < i + 1 && Destinations(tree[..i + 1])[j] == node.path;
      if j < i {
        DestinationsDiffer(tree, j, i);
      }
      SafeNodeKept(tree, layers, tree[i].destination, fd, node);
    }
  }

  lemma SafeNodeKept(tree: Tree, layers: Layers, point: Path, fd: Handle, node: Node)
    requires WellFormed(layers) && SafeNode(tree, layers, node)
    requires node.path == point || ComparePaths(node.path, point) == Less
    ensures SafeNode(tree, Attach(layers, point, fd), node)
  {
    if node.path == point {
      WalkAttach(layers, point, fd, Parent(point));
      assert !(point <= Parent(point));
    } else {
      LaterMountHidesNothing(layers, point, fd, node.path);
    }
    assert Attach(layers, point, fd)[node.mount] == layers[node.mount];
  }

  /** Both steps of an entry together. */
  lemma SafeAfterEntry(
    tree: Tree, layers: Layers, before: seq<Node>, nodes: seq<Node>, i: nat, mount: ResolvedMount, applied: bool)
    requires WellFormed(layers) && Ordered(tree) && i < |tree| && tree[i].destination != []
    requires mount.destination == tree[i].destination && AllSafe(tree, layers, before, i)
    requires OffHost(layers, Walk(layers, Parent(tree[i].destination)))
    requires before <= nodes && |nodes| <= |before| + 1
    requires |nodes| > |before| ==>
      nodes[|nodes| - 1].path == tree[i].destination &&
      nodes[|nodes| - 1].mount == Walk(layers, Parent(tree[i].destination))
    ensures
      var after := if mount.ResolvedFd? && applied then Attach(layers, mount.destination, mount.fd) else layers;
      AllSafe(tree, after, nodes, i + 1)
  {
    var more := nodes[|before|..];
    assert nodes == before + more;
    SafeAfterCreation(tree, layers, before, more, i);
    if mount.ResolvedFd? && applied {
      SafeAfterMount(tree, layers, nodes, i, mount.fd);
    }
  }

  // ----- the loop -----

  datatype ApplyError =
    | ApplySyscall
    | InvalidDirectoryMountPoint
    | InvalidRegularFileMountPoint
    | DestinationExists
    | TargetTooLong

  /** The object created for a missing mount point: mode 755, or an empty file of mode 644. */
  function MountPointKind(isDirectory: bool): NodeKind {
    if isDirectory then DirectoryNode(0x1ED) else RegularNode([], 0x1A4)
  }

  // ----- what a mounted filesystem lets the setup create -----

  /**
    * The kinds of objects a filesystem takes at all. Nothing can be made on a read-only mount, below proc, or in an
    * overlay without upper directories; a message queue is an empty regular file.
    */
  predicate Takes(handle: Handle, kind: NodeKind) {
    match handle
    case FilesystemMount(filesystem) =>
      !filesystem.attributes.readOnly &&
      (filesystem.kind == "tmpfs" || (filesystem.kind == "mqueue" && kind.RegularNode? && kind.contents == []))
    case OverlayMount(settings, attributes) =>
      !attributes.readOnly && exists i :: 0 <= i < |settings| && settings[i].Upperdir?
    case DetachedTree(_, _, _, _, attributes) => !attributes.readOnly
    case _ => true
  }

  /** Whether a filesystem that takes such objects has room for this one, and lets the guest create it. */
  type Room = (Handle, Path, NodeKind) -> bool

  predicate Makes(room: Room, handle: Handle, path: Path, kind: NodeKind) {
    Takes(handle, kind) && room(handle, path, kind)
  }

  // what `openat2` accepts as the mode of a new file
  const MODE_MAX := 0xFFF

  predicate TooLong(mount: ResolvedMount) {
    mount.ResolvedSymlink? && |Paths.Print(mount.target)| >= Paths.PATH_MAX
  }

  /** The object of an entry can be made where nothing is yet. */
  predicate Makeable(room: Room, handle: Handle, mount: ResolvedMount) {
    match mount
    case ResolvedFd(_, path, isDirectory) => Makes(room, handle, path, MountPointKind(isDirectory))
    case ResolvedFile(_, permissions, path) =>
      && permissions <= MODE_MAX
      && Makes(room, handle, path, RegularNode([], ModeBits(permissions)))
      && Makes(room, handle, path, Requested(mount))
    case ResolvedSymlink(_, path) => !TooLong(mount) && Makes(room, handle, path, Requested(mount))
    case ResolvedDirectory(_, path) => Makes(room, handle, path, Requested(mount))
  }

  datatype Status = Missing | IsDirectory | IsRegular | IsSomethingElse

  function StatusOf(kind: NodeKind): Status {
    match kind
    case DirectoryNode(_) => IsDirectory
    case RegularNode(_, _) => IsRegular
    case SymlinkNode(_) => IsSomethingElse
  }

  /** What a mounted filesystem holds at a path, apart from what the setup creates under that path. */
  type Contents = (Handle, Path) -> Status

  /** What is at `path` in mount `mount` now. */
  function StatusAt(initial: Contents, layers: Layers, nodes: seq<Node>, mount: nat, path: Path): Status
    requires mount < |layers|
  {
    if nodes == [] then initial(layers[mount].fd, path)
    else
      var last := nodes[|nodes| - 1];
      if last.mount == mount && last.path == path then StatusOf(last.kind)
      else StatusAt(initial, layers, nodes[..|nodes| - 1], mount, path)
  }

  lemma {:induction false} StatusWhereNothingCreated(
    initial: Contents, layers: Layers, nodes: seq<Node>, mount: nat, path: Path)
    requires mount < |layers| && forall node :: node in nodes ==> node.path != path
    ensures StatusAt(initial, layers, nodes, mount, path) == initial(layers[mount].fd, path)
  {
    if nodes != [] {
      StatusWhereNothingCreated(initial, layers, nodes[..|nodes| - 1], mount, path);
    }
  }

  lemma StatusOfNew(initial: Contents, layers: Layers, nodes: seq<Node>, node: Node)
    requires node.mount < |layers|
    ensures StatusAt(initial, layers, nodes + [node], node.mount, node.path) == StatusOf(node.kind)
  {
  }

  lemma {:induction false} StatusKept(
    initial: Contents, layers: Layers, after: Layers, nodes: seq<Node>, mount: nat, path: Path)
    requires layers <= after && mount < |layers|
    ensures StatusAt(initial, after, nodes, mount, path) == StatusAt(initial, layers, nodes, mount, path)
  {
    if nodes != [] {
      StatusKept(initial, layers, after, nodes[..|nodes| - 1], mount, path);
    }
  }

  /** What opening a path without following links needs: a directory at every step, in the owner of its parent. */
  predicate DirectoryAt(initial: Contents, layers: Layers, nodes: seq<Node>, path: Path)
    requires WellFormed(layers)
  {
    forall n :: 0 < n <= |path| ==> StepStatus(initial, layers, nodes, path, n) == IsDirectory
  }

  function StepStatus(initial: Contents, layers: Layers, nodes: seq<Node>, path: Path, n: nat): Status
    requires WellFormed(layers) && 0 < n <= |path|
  {
    StatusAt(initial, layers, nodes, Walk(layers, path[..n - 1]), path[..n])
  }

  /** What an applied entry leaves at its destination; a mount sits on an object of its own kind. */
  function Left(mount: ResolvedMount): Status {
    match mount
    case ResolvedFd(_, _, isDirectory) => if isDirectory then IsDirectory else IsRegular
    case ResolvedFile(_, _, _) => IsRegular
    case ResolvedSymlink(_, _) => IsSomethingElse
    case ResolvedDirectory(_, _) => IsDirectory
  }

  /** What an entry accepts at its destination: nothing, or for a mount an object of the kind it needs. */
  predicate Acceptable(mount: ResolvedMount, status: Status) {
    status == Missing || (mount.ResolvedFd? && status == if mount.isDirectory then IsDirectory else IsRegular)
  }

  /** The setup itself turns the entry down, before any attempt to create something. */
  predicate Refused(mount: ResolvedMount, status: Status) {
    !Acceptable(mount, status) || TooLong(mount)
  }

  /** What the filesystem that owns a destination's parent held there to begin with. */
  function InitialAt(initial: Contents, layers: Layers, destination: Path): Status
    requires WellFormed(layers) && destination != []
  {
    initial(layers[Walk(layers, Parent(destination))].fd, destination)
  }

  /** What is at the destination of the `i`-th entry from the start is unsuitable, or its target is too long. */
  ghost predicate Obstructed(initial: Contents, root: Handle, mounts: seq<ResolvedMount>, i: nat)
    requires i < |mounts|
  {
    && mounts[i].destination != []
    && Refused(mounts[i], InitialAt(initial, LayersOf(root, mounts[..i]), mounts[i].destination))
  }

  /** An entry can be applied now. */
  predicate Fits(initial: Contents, room: Room, layers: Layers, nodes: seq<Node>, mount: ResolvedMount)
    requires WellFormed(layers) && mount.destination != []
  {
    var path := mount.destination;
    var owner := Walk(layers, Parent(path));
    && DirectoryAt(initial, layers, nodes, Parent(path))
    && Suits(room, layers[owner].fd, mount, StatusAt(initial, layers, nodes, owner, path))
  }

  /** What is at the destination is acceptable, and can be made if it is missing. */
  predicate Suits(room: Room, owner: Handle, mount: ResolvedMount, status: Status) {
    Acceptable(mount, status) && (status == Missing ==> Makeable(room, owner, mount))
  }

  /** What the first `i` entries leave at a path. */
  function LeftAt(mounts: seq<ResolvedMount>, i: nat, path: Path): Option<Status>
    requires i <= |mounts|
  {
    if i == 0 then None
    else if mounts[i - 1].destination == path then Some(Left(mounts[i - 1]))
    else LeftAt(mounts, i - 1, path)
  }

  /** What is at a path at the turn of the `i`-th entry: left by an earlier entry, or there from the start. */
  function Expected(initial: Contents, root: Handle, mounts: seq<ResolvedMount>, i: nat, path: Path): Status
    requires i <= |mounts| && path != []
  {
    match LeftAt(mounts, i, path)
    case Some(status) => status
    case None => InitialAt(initial, LayersOf(root, mounts[..i]), path)
  }

  /** The filesystem that owns a path's parent at the turn of the `i`-th entry. */
  function OwnerOf(root: Handle, mounts: seq<ResolvedMount>, i: nat, path: Path): Handle
    requires i <= |mounts| && path != []
  {
    var layers := LayersOf(root, mounts[..i]);
    layers[Walk(layers, Parent(path))].fd
  }

  /** The tree and the filesystems it mounts let the `i`-th entry be applied: nothing else is looked at. */
  predicate Placeable(initial: Contents, room: Room, root: Handle, mounts: seq<ResolvedMount>, i: nat)
    requires i < |mounts|
  {
    var path := mounts[i].destination;
    && path != []
    && (forall n :: 0 < n < |path| ==> Expected(initial, root, mounts, i, path[..n]) == IsDirectory)
    && Suits(room, OwnerOf(root, mounts, i, path), mounts[i], Expected(initial, root, mounts, i, path))
  }

  /** The object an entry needs or asks for is at its destination, in the mount that owns its parent. */
  predicate IsLeft(initial: Contents, layers: Layers, nodes: seq<Node>, mount: ResolvedMount)
    requires WellFormed(layers)
  {
    && mount.destination != []
    && StatusAt(initial, layers, nodes, Walk(layers, Parent(mount.destination)), mount.destination) == Left(mount)
  }

  /** Each applied entry has left its object. */
  ghost predicate Occupied(initial: Contents, layers: Layers, nodes: seq<Node>, mounts: seq<ResolvedMount>, i: nat)
    requires WellFormed(layers) && i <= |mounts|
  {
    forall j :: 0 <= j < i ==> IsLeft(initial, layers, nodes, mounts[j])
  }

  /** No object was created over an existing one, and no two at the same path. */
  ghost predicate NothingReplaced(initial: Contents, layers: Layers, nodes: seq<Node>) {
    && (forall node :: node in nodes ==> node.mount < |layers| && initial(layers[node.mount].fd, node.path) == Missing)
    && forall a, b :: 0 <= a < b < |nodes| ==> nodes[a].path != nodes[b].path
  }

  /** The state an iteration starts from: a parent off the host, a destination with what its filesystem came with. */
  lemma EntryStart(
    initial: Contents, root: Handle, tree: Tree, mounts: seq<ResolvedMount>, layers: Layers, nodes: seq<Node>, i: nat)
    requires Ordered(tree) && NothingUnderHost(tree) && ResolvedFrom(tree, mounts) && i < |mounts|
    requires layers == LayersOf(root, mounts[..i]) && AllSafe(tree, layers, nodes, i)
    ensures mounts[i].destination == tree[i].destination != []
    ensures OffHost(layers, Walk(layers, Parent(tree[i].destination)))
    ensures forall node :: node in nodes ==> node.path != tree[i].destination
    ensures StatusAt(initial, layers, nodes, Walk(layers, Parent(tree[i].destination)), tree[i].destination) ==
      InitialAt(initial, layers, tree[i].destination)
  {
    ParentIsOffHost(root, tree, mounts, i, i);
    NothingCreatedYet(tree, layers, nodes, i);
    StatusWhereNothingCreated(initial, layers, nodes, Walk(layers, Parent(tree[i].destination)), tree[i].destination);
  }

  lemma LayersStep(root: Handle, mounts: seq<ResolvedMount>, i: nat)
    requires i < |mounts|
    ensures LayersOf(root, mounts[..i + 1]) ==
      if mounts[i].ResolvedFd? then Attach(LayersOf(root, mounts[..i]), mounts[i].destination, mounts[i].fd)
      else LayersOf(root, mounts[..i])
  {
    assert mounts[..i + 1][..i] == mounts[..i];
  }

  /** A filesystem that the validator calls synthetic, but that cannot hold anything new. */
  predicate Barren(handle: Handle) {
    match handle
    case FilesystemMount(filesystem) =>
      filesystem.attributes.readOnly || (filesystem.kind != "tmpfs" && filesystem.kind != "mqueue")
    case OverlayMount(settings, attributes) =>
      attributes.readOnly || forall i :: 0 <= i < |settings| ==> !settings[i].Upperdir?
    case _ => false
  }

  /** Below such a filesystem an entry can only be mounted onto something that is already there. */
  lemma NothingNewBelowBarren(
    initial: Contents, room: Room, root: Handle, mounts: seq<ResolvedMount>, i: nat)
    requires i < |mounts| && mounts[i].destination != []
    requires Barren(OwnerOf(root, mounts, i, mounts[i].destination))
    requires Expected(initial, root, mounts, i, mounts[i].destination) == Missing
    ensures !Placeable(initial, room, root, mounts, i)
  {
    var owner := OwnerOf(root, mounts, i, mounts[i].destination);
    assert forall kind: NodeKind :: !Takes(owner, kind);
  }

  /** Overlays without upper directories, and proc, are such filesystems. */
  lemma BarrenMounts(entry: Entry)
    requires entry.source.Procfs? || (entry.source.Overlay? && entry.source.upperdirs.None?)
    ensures entry.source.IsSynthetic() && Resolved(entry).ResolvedFd? && Barren(Resolved(entry).fd)
  {
    if entry.source.Overlay? {
      var source := entry.source;
      var settings := OverlaySettings(source.lowerdirs, source.datadirs, source.upperdirs);
      assert forall i :: 0 <= i < |settings| ==> !settings[i].Upperdir?;
    }
  }

  /** What a mount of the policy takes, by kind: the policy alone decides. */
  lemma TakesExactly(entry: Entry, kind: NodeKind)
    requires !entry.source.File? && !entry.source.Symlink? && !entry.source.EmptyDirectory?
    ensures Resolved(entry).ResolvedFd?
    ensures Takes(Resolved(entry).fd, kind) <==>
      match entry.source
      case Tmpfs(_, _, _, attributes) => !attributes.readOnly
      case Mqueue(attributes) => !attributes.readOnly && kind.RegularNode? && kind.contents == []
      case Overlay(_, _, upperdirs, attributes) => !attributes.readOnly && upperdirs.Some?
      case Bind(BindFile(_, _, _, attributes, _)) => !attributes.readOnly
      case Bind(BindDirectory(_, attributes, _)) => !attributes.readOnly
      case _ => false
    ensures forall handle: Handle :: handle.OriginalNamespace? || handle.Namespace? || handle.Inside? ==>
      Takes(handle, kind)
  {
    if entry.source.Overlay? {
      var source := entry.source;
      var settings := OverlaySettings(source.lowerdirs, source.datadirs, source.upperdirs);
      var n, upper := |source.lowerdirs| + |source.datadirs|, UpperSettings(source.upperdirs);
      assert forall i :: 0 <= i < n ==> !settings[i].Upperdir?;
      assert forall i :: n <= i < n + |upper| ==> settings[i] == upper[i - n];
      assert settings[n + |upper|] == Userxattr && |settings| == n + |upper| + 1;
      if source.upperdirs.Some? {
        assert upper[0].Upperdir? || upper[1].Upperdir?;
        assert settings[n] == upper[0] && settings[n + 1] == upper[1];
      }
    }
  }

  /** rwxr-xr-x for a directory, rw-r--r-- for a file. */
  /** What the entries of a policy need where nothing is yet: room for these objects, a file mode, a short target. */
  lemma MakeableExactly(room: Room, owner: Handle, entry: Entry)
    ensures Suits(room, owner, Resolved(entry), Missing) <==>
      match entry.source
      case File(contents, permissions) =>
        && permissions <= 0xFFF
        && Makes(room, owner, entry.destination, RegularNode([], permissions % 0x400))
        && Makes(room, owner, entry.destination, RegularNode(contents, permissions % 0x400))
      case Symlink(target) =>
        && |target.parentDir| + 1 + |target.fileName| < 4096
        && Makes(room, owner, entry.destination, SymlinkNode(target.parentDir + [47] + target.fileName))
      case EmptyDirectory(permissions) => Makes(room, owner, entry.destination, DirectoryNode(permissions % 0x400))
      case Bind(BindFile(_, _, _, _, _)) => Makes(room, owner, entry.destination, RegularNode([], 0x1A4))
      case _ => Makes(room, owner, entry.destination, DirectoryNode(0x1ED))
  {
  }

  lemma MountPointModes()
    ensures MountPointKind(true) == DirectoryNode(7 * 64 + 5 * 8 + 5)
    ensures MountPointKind(false) == RegularNode([], 6 * 64 + 4 * 8 + 4)
  {
  }

  /** A link whose target does not print into its buffer is never made. */
  lemma LongTargetNeverPlaced(initial: Contents, room: Room, root: Handle, mounts: seq<ResolvedMount>, i: nat)
    requires i < |mounts| && TooLong(mounts[i])
    ensures !Placeable(initial, room, root, mounts, i)
  {
  }

  lemma {:induction false} LeftAtFrom(mounts: seq<ResolvedMount>, i: nat, path: Path) returns (j: nat)
    requires i <= |mounts| && LeftAt(mounts, i, path).Some?
    ensures j < i && mounts[j].destination == path && LeftAt(mounts, i, path) == Some(Left(mounts[j]))
  {
    j := i - 1;
    if mounts[j].destination != path {
      j := LeftAtFrom(mounts, i - 1, path);
    }
  }

  lemma {:induction false} LeftAtNone(mounts: seq<ResolvedMount>, i: nat, path: Path)
    requires i <= |mounts| && LeftAt(mounts, i, path) == None
    ensures forall j :: 0 <= j < i ==> mounts[j].destination != path
  {
    if i > 0 {
      LeftAtNone(mounts, i - 1, path);
    }
  }

  lemma {:induction false} LeftAtEarlier(mounts: seq<ResolvedMount>, i: nat, j: nat)
    requires i < j <= |mounts| && forall k :: i < k < j ==> mounts[k].destination != mounts[i].destination
    ensures LeftAt(mounts, j, mounts[i].destination) == Some(Left(mounts[i]))
  {
    if i < j - 1 {
      LeftAtEarlier(mounts, i, j - 1);
    }
  }

  /** The validator accepts entries below files and links, but none of them can ever be applied. */
  lemma NothingBelowFiles(
    initial: Contents, room: Room, root: Handle, tree: Tree, mounts: seq<ResolvedMount>, i: nat, j: nat)
    requires Ordered(tree) && ResolvedFrom(tree, mounts) && i < |tree| && j < |tree|
    requires tree[i].source.File? || tree[i].source.Symlink?
    requires tree[i].destination < tree[j].destination
    ensures !Placeable(initial, room, root, mounts, j)
  {
    var file, path := mounts[i].destination, mounts[j].destination;
    assert file == tree[i].destination && path == tree[j].destination;
    AncestorFirst(tree, i, j);
    forall k | i < k < j ensures mounts[k].destination != file {
      DestinationsDiffer(tree, i, k);
    }
    LeftAtEarlier(mounts, i, j);
    assert Left(mounts[i]) != IsDirectory;
    assert path[..|file|] == file && file != [];
    assert Expected(initial, root, mounts, j, path[..|file|]) != IsDirectory;
  }

  /** Objects are only created at the destinations of applied entries. */
  lemma NothingElsewhere(tree: Tree, mounts: seq<ResolvedMount>, layers: Layers, nodes: seq<Node>, i: nat, path: Path)
    requires ResolvedFrom(tree, mounts) && i <= |mounts| && WellFormed(layers) && AllSafe(tree, layers, nodes, i)
    requires forall j :: 0 <= j < i ==> mounts[j].destination != path
    ensures forall node :: node in nodes ==> node.path != path
  {
    forall node | node in nodes ensures node.path != path {
      var k :| 0 <= k < i && Destinations(tree[..i])[k] == node.path;
      assert mounts[k] == Resolved(tree[k]);
    }
  }

  /** What is found at a path at the turn of an entry, in terms of the tree and the mounted filesystems alone. */
  lemma PresentIsExpected(
    initial: Contents, root: Handle, tree: Tree, mounts: seq<ResolvedMount>, layers: Layers, nodes: seq<Node>, i: nat,
    path: Path)
    requires ResolvedFrom(tree, mounts) && i <= |mounts| && layers == LayersOf(root, mounts[..i]) && path != []
    requires AllSafe(tree, layers, nodes, i) && Occupied(initial, layers, nodes, mounts, i)
    ensures
      StatusAt(initial, layers, nodes, Walk(layers, Parent(path)), path) == Expected(initial, root, mounts, i, path)
  {
    if LeftAt(mounts, i, path).Some? {
      var j := LeftAtFrom(mounts, i, path);
      assert IsLeft(initial, layers, nodes, mounts[j]);
    } else {
      LeftAtNone(mounts, i, path);
      NothingElsewhere(tree, mounts, layers, nodes, i, path);
      StatusWhereNothingCreated(initial, layers, nodes, Walk(layers, Parent(path)), path);
    }
  }

  /** An entry can be applied at its turn exactly if it is placeable. */
  lemma FittingIsPlaceable(
    initial: Contents, room: Room, root: Handle, tree: Tree, mounts: seq<ResolvedMount>, i: nat,
    layers: Layers, nodes: seq<Node>)
    requires ResolvedFrom(tree, mounts) && i < |mounts| && layers == LayersOf(root, mounts[..i])
    requires AllSafe(tree, layers, nodes, i) && Occupied(initial, layers, nodes, mounts, i)
    requires mounts[i].destination != []
    ensures Fits(initial, room, layers, nodes, mounts[i]) <==> Placeable(initial, room, root, mounts, i)
  {
    var path := mounts[i].destination;
    var parent := Parent(path);
    forall n | 0 < n < |path|
      ensures StepStatus(initial, layers, nodes, parent, n) == Expected(initial, root, mounts, i, path[..n])
    {
      assert parent[..n] == path[..n] && parent[..n - 1] == Parent(path[..n]);
      PresentIsExpected(initial, root, tree, mounts, layers, nodes, i, path[..n]);
    }
    PresentIsExpected(initial, root, tree, mounts, layers, nodes, i, path);
  }

  /** The objects of earlier entries are still where they were, and the new one is in place. */
  lemma OccupiedStep(
    initial: Contents, tree: Tree, mounts: seq<ResolvedMount>, layers: Layers, after: Layers,
    nodes: seq<Node>, grown: seq<Node>, i: nat)
    requires Ordered(tree) && ResolvedFrom(tree, mounts) && i < |mounts| && WellFormed(layers) && WellFormed(after)
    requires Occupied(initial, layers, nodes, mounts, i) && nodes <= grown && |grown| <= |nodes| + 1
    requires |grown| > |nodes| ==> grown[|nodes|].path == mounts[i].destination
    requires
      after == if mounts[i].ResolvedFd? then Attach(layers, mounts[i].destination, mounts[i].fd) else layers
    requires IsLeft(initial, layers, grown, mounts[i])
    ensures Occupied(initial, after, grown, mounts, i + 1)
  {
    forall j | 0 <= j <= i ensures IsLeft(initial, after, grown, mounts[j]) {
      var path := mounts[j].destination;
      ParentKept(tree, mounts, layers, after, i, j);
      StatusKept(initial, layers, after, grown, Walk(layers, Parent(path)), path);
      if j < i {
        assert IsLeft(initial, layers, nodes, mounts[j]);
        DestinationsDiffer(tree, j, i);
        StatusElsewhere(initial, layers, nodes, grown, Walk(layers, Parent(path)), path);
      }
    }
  }

  lemma StatusElsewhere(initial: Contents, layers: Layers, nodes: seq<Node>, grown: seq<Node>, mount: nat, path: Path)
    requires mount < |layers| && nodes <= grown && |grown| <= |nodes| + 1
    requires |grown| > |nodes| ==> grown[|nodes|].path != path
    ensures StatusAt(initial, layers, grown, mount, path) == StatusAt(initial, layers, nodes, mount, path)
  {
    if |grown| > |nodes| {
      assert grown[..|grown| - 1] == nodes;
    } else {
      assert grown == nodes;
    }
  }

  /** Applying an entry leaves the parents of its own and of all earlier destinations where they were. */
  lemma ParentKept(tree: Tree, mounts: seq<ResolvedMount>, layers: Layers, after: Layers, i: nat, j: nat)
    requires Ordered(tree) && ResolvedFrom(tree, mounts) && j <= i < |mounts| && WellFormed(layers) && WellFormed(after)
    requires after == if mounts[i].ResolvedFd? then Attach(layers, mounts[i].destination, mounts[i].fd) else layers
    ensures mounts[j].destination != [] && layers <= after
    ensures Walk(after, Parent(mounts[j].destination)) == Walk(layers, Parent(mounts[j].destination))
  {
    var path, point := tree[j].destination, tree[i].destination;
    assert mounts[j] == Resolved(tree[j]) && mounts[i] == Resolved(tree[i]);
    assert path == mounts[j].destination && point == mounts[i].destination;
    if mounts[i].ResolvedFd? {
      WalkAttach(layers, point, mounts[i].fd, Parent(path));
      if j < i {
        DestinationsDiffer(tree, j, i);
        LaterMountHidesNothing(layers, point, mounts[i].fd, path);
      } else {
        assert !(point <= Parent(path));
      }
    }
  }

  lemma NothingReplacedStep(
    initial: Contents, layers: Layers, after: Layers, nodes: seq<Node>, grown: seq<Node>, path: Path)
    requires layers <= after && nodes <= grown && |grown| <= |nodes| + 1 && NothingReplaced(initial, layers, nodes)
    requires forall node :: node in nodes ==> node.path != path
    requires |grown| > |nodes| ==>
      var last := grown[|nodes|];
      last.path == path && last.mount < |layers| && initial(layers[last.mount].fd, path) == Missing
    ensures NothingReplaced(initial, after, grown)
  {
    forall node | node in grown
      ensures node.mount < |after| && initial(after[node.mount].fd, node.path) == Missing
    {
      if node !in nodes {
        assert node == grown[|nodes|];
      }
      assert node.mount < |layers| && after[node.mount] == layers[node.mount];
    }
    forall a, b | 0 <= a < b < |grown| ensures grown[a].path != grown[b].path {
      assert grown[a] == nodes[a] && nodes[a] in nodes;
      assert b < |nodes| ==> grown[b] == nodes[b];
    }
  }

  /** Objects created for earlier entries are elsewhere. */
  lemma NothingCreatedYet(tree: Tree, layers: Layers, nodes: seq<Node>, i: nat)
    requires WellFormed(layers) && Ordered(tree) && i < |tree| && AllSafe(tree, layers, nodes, i)
    ensures forall node :: node in nodes ==> node.path != tree[i].destination
  {
    forall node | node in nodes ensures node.path != tree[i].destination {
      var j :| 0 <= j < i && Destinations(tree[..i])[j] == node.path;
      DestinationsDiffer(tree, j, i);
    }
  }

  class GuestRoot {
    const initial: Contents
    const room: Room
    // a faultless kernel fails only where a path cannot be opened or an object cannot be made
    const faultless: bool
    var layers: Layers
    var nodes: seq<Node>

    constructor (root: Handle, initial: Contents, room: Room, faultless: bool)
      ensures layers == LayersOf(root, []) && nodes == []
      ensures this.initial == initial && this.room == room && this.faultless == faultless
    {
      this.room := room;
      this.initial := initial;
      this.faultless := faultless;
      layers, nodes := [Layer([], 0, root)], [];
    }

    /** What is at a destination, in the mount that owns its parent. */
    function Present(destination: Path): Status
      requires WellFormed(layers) && destination != []
      reads this
    {
      StatusAt(initial, layers, nodes, Walk(layers, Parent(destination)), destination)
    }

    // kernel stubs

    /** Every directory above a destination can be opened. */
    predicate Opens(destination: Path)
      requires WellFormed(layers) && destination != []
      reads this
    {
      DirectoryAt(initial, layers, nodes, Parent(destination))
    }

    predicate Fitting(mount: ResolvedMount)
      requires WellFormed(layers) && mount.destination != []
      reads this
    {
      Fits(initial, room, layers, nodes, mount)
    }

    predicate LeftBehind(before: Layers, mount: ResolvedMount)
      requires WellFormed(before)
      reads this
    {
      IsLeft(initial, before, nodes, mount)
    }

    /** Opening the parent directory resolves it through the mounts applied so far, without following links. */
    method OpenParent(destination: Path) returns (r: Result<nat, ApplyError>)
      requires WellFormed(layers) && destination != []
      ensures r.Ok? ==> r.value == Walk(layers, Parent(destination)) && Opens(destination)
      ensures r.Err? ==> r.error == ApplySyscall && !(faultless && Opens(destination))
    {
      var ok: bool := *;
      if Opens(destination) && (ok || faultless) {
        return Ok(Walk(layers, Parent(destination)));
      }
      return Err(ApplySyscall);
    }

    method Statx(parent: nat, path: Path) returns (r: Result<Status, ApplyError>)
      requires parent < |layers|
      ensures r == Ok(StatusAt(initial, layers, nodes, parent, path)) || (r == Err(ApplySyscall) && !faultless)
    {
      var ok: bool := *;
      r := if ok || faultless then Ok(StatusAt(initial, layers, nodes, parent, path)) else Err(ApplySyscall);
    }

    /** Making a new object, complete as it is. */
    method Create(parent: nat, path: Path, kind: NodeKind) returns (r: Result<(), ApplyError>)
      requires parent < |layers|
      modifies this`nodes
      ensures r.Ok? ==> Makes(room, layers[parent].fd, path, kind)
      ensures r.Err? ==> r.error == ApplySyscall && !(faultless && Makes(room, layers[parent].fd, path, kind))
      ensures nodes == old(nodes) + if r.Ok? then [Node(parent, path, kind)] else []
    {
      var ok: bool := *;
      if !Makes(room, layers[parent].fd, path, kind) || !(ok || faultless) {
        return Err(ApplySyscall);
      }
      nodes := nodes + [Node(parent, path, kind)];
      return Ok(());
    }

    /** Writing the contents may stop part way, which leaves a shorter file behind. */
    method WriteContents(contents: seq<Byte>) returns (r: Result<(), ApplyError>)
      requires nodes != [] && nodes[|nodes| - 1].kind.RegularNode? && nodes[|nodes| - 1].mount < |layers|
      modifies this`nodes
      ensures |nodes| == |old(nodes)| && nodes[..|nodes| - 1] == old(nodes[..|nodes| - 1])
      ensures
        var node, before := nodes[|nodes| - 1], old(nodes[|nodes| - 1]);
        var whole := RegularNode(contents, before.kind.permissions);
        && node.mount == before.mount && node.path == before.path && node.kind.RegularNode?
        && node.kind.permissions == before.kind.permissions && node.kind.contents <= contents
        && (r.Ok? ==> node.kind == whole && Makes(room, layers[before.mount].fd, before.path, whole))
        && (r.Err? ==>
          r.error == ApplySyscall && !(faultless && Makes(room, layers[before.mount].fd, before.path, whole)))
    {
      var node := nodes[|nodes| - 1];
      var whole := RegularNode(contents, node.kind.permissions);
      var written: nat :| written <= |contents| && (faultless ==> written == |contents|);
      var done := written == |contents| && Makes(room, layers[node.mount].fd, node.path, whole);
      var kept := if done then whole else RegularNode(contents[..written], node.kind.permissions);
      nodes := nodes[..|nodes| - 1] + [Node(node.mount, node.path, kept)];
      r := if done then Ok(()) else Err(ApplySyscall);
    }

    method MoveMount(fd: Handle, destination: Path) returns (r: Result<(), ApplyError>)
      requires WellFormed(layers)
      modifies this`layers
      ensures r == Ok(()) || (r == Err(ApplySyscall) && !faultless)
      ensures layers == if r.Ok? then Attach(old(layers), destination, fd) else old(layers)
    {
      var ok: bool := *;
      if !ok && !faultless {
        return Err(ApplySyscall);
      }
      layers := Attach(layers, destination, fd);
      return Ok(());
    }

    /** Creates the mount point if it is missing, then moves the mount onto it. */
    method ApplyMount(fd: Handle, destination: Path, isDirectory: bool) returns (r: Result<(), ApplyError>)
      requires WellFormed(layers) && destination != []
      modifies this
      ensures layers == if r.Ok? then Attach(old(layers), destination, fd) else old(layers)
      ensures nodes == old(nodes) ||
        nodes == old(nodes) + [Node(Walk(old(layers), Parent(destination)), destination, MountPointKind(isDirectory))]
      ensures |nodes| > |old(nodes)| ==> old(Present(destination)) == Missing
      ensures r.Ok? && old(Present(destination)) == Missing ==> |nodes| > |old(nodes)|
      ensures r.Ok? && old(Present(destination)) != Missing ==>
        old(Present(destination)) == if isDirectory then IsDirectory else IsRegular
      ensures r.Ok? ==> old(Fitting(ResolvedFd(fd, destination, isDirectory)))
      ensures r.Err? && faultless ==> !old(Fitting(ResolvedFd(fd, destination, isDirectory)))
      ensures r.Ok? ==> LeftBehind(old(layers), ResolvedFd(fd, destination, isDirectory))
      ensures r.Err? ==> r.error in {ApplySyscall, InvalidDirectoryMountPoint, InvalidRegularFileMountPoint}
      ensures r == Err(InvalidDirectoryMountPoint) ==>
        isDirectory && old(Present(destination)) !in {Missing, IsDirectory}
      ensures r == Err(InvalidRegularFileMountPoint) ==>
        !isDirectory && old(Present(destination)) !in {Missing, IsRegular}
      ensures faultless && isDirectory && old(Opens(destination)) && old(Present(destination)) == IsDirectory ==>
        r.Ok? && nodes == old(nodes)
      ensures faultless && !isDirectory && old(Opens(destination)) && old(Present(destination)) == IsRegular ==>
        r.Ok? && nodes == old(nodes)
    {
      var parentFd :- OpenParent(destination);
      var status :- Statx(parentFd, destination);
      if status == Missing {
        var _ :- Create(parentFd, destination, MountPointKind(isDirectory));
        StatusOfNew(initial, layers, old(nodes), Node(parentFd, destination, MountPointKind(isDirectory)));
      } else if isDirectory && status != IsDirectory {
        return Err(InvalidDirectoryMountPoint);
      } else if !isDirectory && status != IsRegular {
        return Err(InvalidRegularFileMountPoint);
      }
      r := MoveMount(fd, destination);
    }

    /** Some or all of the requested contents, in the requested mode. */
    static predicate Unfinished(kind: NodeKind, mount: ResolvedMount)
      requires mount.ResolvedFile?
    {
      kind.RegularNode? && kind.permissions == mount.permissions % 0x400 && kind.contents <= mount.contents
    }

    /** An empty file of the requested mode, then its contents. */
    method CreateFile(parent: nat, mount: ResolvedMount) returns (r: Result<(), ApplyError>)
      requires parent < |layers| && mount.ResolvedFile?
      modifies this`nodes
      ensures old(nodes) <= nodes && |nodes| <= |old(nodes)| + 1
      ensures |nodes| > |old(nodes)| ==>
        nodes[|old(nodes)|].mount == parent && nodes[|old(nodes)|].path == mount.destination
      ensures |nodes| > |old(nodes)| ==> Unfinished(nodes[|old(nodes)|].kind, mount)
      ensures r.Ok? ==> nodes == old(nodes) + [Node(parent, mount.destination, Requested(mount))]
      ensures r.Ok? ==> Makeable(room, layers[parent].fd, mount)
      ensures r.Err? ==> r.error == ApplySyscall && !(faultless && Makeable(room, layers[parent].fd, mount))
    {
      if mount.permissions > MODE_MAX {
        return Err(ApplySyscall);
      }
      var _ :- Create(parent, mount.destination, RegularNode([], ModeBits(mount.permissions)));
      r := WriteContents(mount.contents);
      if r.Ok? {
        assert nodes == old(nodes) + [Node(parent, mount.destination, Requested(mount))];
      }
    }

    /** The target is printed into a fixed buffer first. */
    method CreateSymlink(parent: nat, mount: ResolvedMount) returns (r: Result<(), ApplyError>)
      requires parent < |layers| && mount.ResolvedSymlink?
      modifies this`nodes
      ensures nodes == old(nodes) + if r.Ok? then [Node(parent, mount.destination, Requested(mount))] else []
      ensures r.Ok? ==> Makeable(room, layers[parent].fd, mount)
      ensures r.Err? && faultless ==> !Makeable(room, layers[parent].fd, mount)
      ensures r.Err? ==> r.error == if TooLong(mount) then TargetTooLong else ApplySyscall
    {
      var printed := Paths.WithCStr(mount.target, Paths.PATH_MAX);
      if printed.Err? {
        return Err(TargetTooLong);
      }
      var text := printed.value[..|printed.value| - 1];
      assert text == Paths.Print(mount.target);
      r := Create(parent, mount.destination, SymlinkNode(text));
    }

    /** Creates a file, symlink or directory, refusing to replace anything. */
    method ApplyNode(mount: ResolvedMount) returns (r: Result<(), ApplyError>)
      requires WellFormed(layers) && mount.destination != [] && !mount.ResolvedFd?
      modifies this`nodes
      ensures old(nodes) <= nodes && |nodes| <= |old(nodes)| + 1
      ensures r.Ok? ==>
        nodes == old(nodes) + [Node(Walk(layers, Parent(mount.destination)), mount.destination, Requested(mount))]
      ensures |nodes| > |old(nodes)| ==>
        nodes[|old(nodes)|].mount == Walk(layers, Parent(mount.destination)) &&
        nodes[|old(nodes)|].path == mount.destination
      ensures |nodes| > |old(nodes)| ==> old(Present(mount.destination)) == Missing
      ensures r.Err? && |nodes| > |old(nodes)| ==>
        mount.ResolvedFile? && Unfinished(nodes[|old(nodes)|].kind, mount)
      ensures r.Ok? ==> old(Fitting(mount)) && LeftBehind(layers, mount)
      ensures r.Err? && faultless ==> !old(Fitting(mount))
      ensures r == Err(DestinationExists) ==> old(Present(mount.destination)) != Missing
      ensures faultless && old(Opens(mount.destination)) && old(Present(mount.destination)) != Missing ==>
        r == Err(DestinationExists)
      ensures r == Err(TargetTooLong) ==> TooLong(mount)
      ensures r.Err? ==> r.error in {ApplySyscall, DestinationExists, TargetTooLong}
    {
      var parentFd :- OpenParent(mount.destination);
      var status :- Statx(parentFd, mount.destination);
      if status != Missing {
        return Err(DestinationExists);
      }
      if mount.ResolvedFile? {
        r := CreateFile(parentFd, mount);
      } else if mount.ResolvedSymlink? {
        r := CreateSymlink(parentFd, mount);
      } else {
        r := Create(parentFd, mount.destination, DirectoryNode(ModeBits(mount.permissions)));
      }
      if r.Ok? {
        StatusOfNew(initial, layers, old(nodes), Node(parentFd, mount.destination, Requested(mount)));
      }
    }

    /** The body of the loop, by kind of entry. */
    method ApplyResolved(mount: ResolvedMount) returns (r: Result<(), ApplyError>)
      requires WellFormed(layers) && mount.destination != []
      modifies this
      ensures layers ==
        if mount.ResolvedFd? && r.Ok? then Attach(old(layers), mount.destination, mount.fd) else old(layers)
      ensures old(nodes) <= nodes && |nodes| <= |old(nodes)| + 1
      ensures |nodes| > |old(nodes)| ==>
        nodes[|old(nodes)|].path == mount.destination &&
        nodes[|old(nodes)|].mount == Walk(old(layers), Parent(mount.destination))
      ensures r.Ok? && !mount.ResolvedFd? ==>
        nodes == old(nodes) + [Node(Walk(layers, Parent(mount.destination)), mount.destination, Requested(mount))]
      ensures |nodes| > |old(nodes)| ==> old(Present(mount.destination)) == Missing
      ensures r.Ok? ==> old(Fitting(mount)) && LeftBehind(old(layers), mount)
      ensures r.Err? && faultless ==> !old(Fitting(mount))
      ensures r.Err? && r.error != ApplySyscall ==> Refused(mount, old(Present(mount.destination)))
    {
      if mount.ResolvedFd? {
        r := ApplyMount(mount.fd, mount.destination, mount.isDirectory);
      } else {
        r := ApplyNode(mount);
      }
    }

    /** The state of the loop at the turn of the `i`-th entry. */
    ghost predicate AtTurn(root: Handle, tree: Tree, mounts: seq<ResolvedMount>, i: nat)
      reads this
    {
      TurnState(initial, room, root, tree, mounts, i, layers, nodes)
    }

    /** The `i`-th entry failed, for a reason. */
    ghost predicate StoppedAt(root: Handle, tree: Tree, mounts: seq<ResolvedMount>, i: nat, error: ApplyError)
      reads this
    {
      && StoppedState(initial, root, tree, mounts, i, layers, nodes)
      && (faultless ==> !Placeable(initial, room, root, mounts, i))
      && (error != ApplySyscall ==> Obstructed(initial, root, mounts, i))
    }

    /** One iteration of the loop over the resolved mounts. */
    method ApplyEntry(ghost tree: Tree, ghost root: Handle, mounts: seq<ResolvedMount>, i: nat)
      returns (r: Result<(), ApplyError>)
      requires Ordered(tree) && NothingUnderHost(tree) && ResolvedFrom(tree, mounts) && i < |mounts|
      requires AtTurn(root, tree, mounts, i)
      modifies this
      ensures r.Ok? ==> AtTurn(root, tree, mounts, i + 1)
      ensures r.Err? ==> StoppedAt(root, tree, mounts, i, r.error)
    {
      ghost var before, older := layers, nodes;
      TurnStart(initial, room, root, tree, mounts, i, layers, nodes);
      r := ApplyResolved(mounts[i]);
      if r.Ok? {
        TurnDone(initial, room, root, tree, mounts, i, before, layers, older, nodes);
      } else {
        TurnStopped(initial, room, root, tree, mounts, i, before, older, nodes);
      }
    }

    /** The loop; `n` is the number of entries applied. */
    method ApplyAll(ghost tree: Tree, ghost root: Handle, mounts: seq<ResolvedMount>)
      returns (r: Result<(), ApplyError>, ghost n: nat)
      requires Ordered(tree) && NothingUnderHost(tree) && ResolvedFrom(tree, mounts)
      requires AtTurn(root, tree, mounts, 0)
      modifies this
      ensures n <= |mounts| && (r.Ok? <==> n == |mounts|)
      ensures r.Ok? ==> AtTurn(root, tree, mounts, n)
      ensures r.Err? ==> StoppedAt(root, tree, mounts, n, r.error)
    {
      for i := 0 to |mounts|
        invariant AtTurn(root, tree, mounts, i)
      {
        r := ApplyEntry(tree, root, mounts, i);
        if r.Err? {
          return r, i;
        }
      }
      return Ok(()), |mounts|;
    }

    /** The whole loop; the guarantees about created objects hold on every exit. */
    method ApplyMounts(ghost tree: Tree, ghost root: Handle, mounts: seq<ResolvedMount>)
      returns (r: Result<(), ApplyError>)
      requires Ordered(tree) && NothingUnderHost(tree) && ResolvedFrom(tree, mounts)
      requires layers == LayersOf(root, []) && nodes == []
      modifies this
      ensures exists i :: 0 <= i <= |mounts| && TableOf(root, mounts, i, layers)
      ensures r.Ok? ==> layers == LayersOf(root, mounts)
      ensures WellFormed(layers)
      ensures forall node :: node in nodes ==> SafeNode(tree, layers, node)
      ensures r.Ok? ==> forall i :: 0 <= i < |mounts| && !mounts[i].ResolvedFd? ==> HasNode(nodes, mounts[i])
      ensures NothingReplaced(initial, layers, nodes)
      ensures r.Err? && r.error != ApplySyscall ==>
        exists i :: 0 <= i < |mounts| && Obstructed(initial, root, mounts, i)
      ensures r.Ok? ==> forall i :: 0 <= i < |mounts| ==> Placeable(initial, room, root, mounts, i)
      ensures r.Err? && faultless ==> exists i :: 0 <= i < |mounts| && !Placeable(initial, room, root, mounts, i)
    {
      TurnFirst(initial, room, root, tree, mounts);
      ghost var n;
      r, n := ApplyAll(tree, root, mounts);
      if r.Ok? {
        TurnLast(initial, room, root, tree, mounts, layers, nodes);
      } else {
        assert StoppedAt(root, tree, mounts, n, r.error);
        TurnFailed(initial, root, tree, mounts, n, layers, nodes);
      }
    }
  }

  /** The first `i` entries are placeable. */
  predicate PlacedBelow(initial: Contents, room: Room, root: Handle, mounts: seq<ResolvedMount>, i: nat)
    requires i <= |mounts|
  {
    i == 0 || (PlacedBelow(initial, room, root, mounts, i - 1) && Placeable(initial, room, root, mounts, i - 1))
  }

  lemma {:induction false} PlacedOne(
    initial: Contents, room: Room, root: Handle, mounts: seq<ResolvedMount>, i: nat, j: nat)
    requires j < i <= |mounts| && PlacedBelow(initial, room, root, mounts, i)
    ensures Placeable(initial, room, root, mounts, j)
  {
    if j < i - 1 {
      PlacedOne(initial, room, root, mounts, i - 1, j);
    }
  }

  predicate TableOf(root: Handle, mounts: seq<ResolvedMount>, i: nat, layers: Layers) {
    i <= |mounts| && layers == LayersOf(root, mounts[..i])
  }

  /** The table is that of the first `i` entries, which were placeable, and whose objects are safe and in place. */
  ghost predicate TurnState(
    initial: Contents, room: Room, root: Handle, tree: Tree, mounts: seq<ResolvedMount>, i: nat,
    layers: Layers, nodes: seq<Node>)
  {
    && i <= |mounts| == |tree| && TableOf(root, mounts, i, layers) && WellFormed(layers)
    && AllSafe(tree, layers, nodes, i) && NothingReplaced(initial, layers, nodes)
    && Occupied(initial, layers, nodes, mounts, i) && AllHave(nodes, mounts, i)
    && PlacedBelow(initial, room, root, mounts, i)
  }

  /** The objects asked for by the first `i` entries exist. */
  ghost predicate AllHave(nodes: seq<Node>, mounts: seq<ResolvedMount>, i: nat)
    requires i <= |mounts|
  {
    forall j :: 0 <= j < i && !mounts[j].ResolvedFd? ==> HasNode(nodes, mounts[j])
  }

  lemma AllHaveStep(nodes: seq<Node>, grown: seq<Node>, mounts: seq<ResolvedMount>, i: nat)
    requires i < |mounts| && AllHave(nodes, mounts, i) && nodes <= grown
    requires !mounts[i].ResolvedFd? ==> HasNode(grown, mounts[i])
    ensures AllHave(grown, mounts, i + 1)
  {
    forall j | 0 <= j <= i && !mounts[j].ResolvedFd? ensures HasNode(grown, mounts[j]) {
      if j < i {
        HasNodeKept(nodes, grown, mounts[j]);
      }
    }
  }

  lemma TurnFirst(initial: Contents, room: Room, root: Handle, tree: Tree, mounts: seq<ResolvedMount>)
    requires |mounts| == |tree|
    ensures TurnState(initial, room, root, tree, mounts, 0, LayersOf(root, []), [])
  {
    assert mounts[..0] == [];
  }

  /** What the last turn leaves behind. */
  lemma TurnLast(
    initial: Contents, room: Room, root: Handle, tree: Tree, mounts: seq<ResolvedMount>,
    layers: Layers, nodes: seq<Node>)
    requires TurnState(initial, room, root, tree, mounts, |mounts|, layers, nodes)
    ensures TableOf(root, mounts, |mounts|, layers) && layers == LayersOf(root, mounts) && WellFormed(layers)
    ensures forall node :: node in nodes ==> SafeNode(tree, layers, node)
    ensures forall i :: 0 <= i < |mounts| && !mounts[i].ResolvedFd? ==> HasNode(nodes, mounts[i])
    ensures NothingReplaced(initial, layers, nodes)
    ensures forall i :: 0 <= i < |mounts| ==> Placeable(initial, room, root, mounts, i)
  {
    assert mounts[..|mounts|] == mounts;
    forall i | 0 <= i < |mounts| ensures Placeable(initial, room, root, mounts, i) {
      PlacedOne(initial, room, root, mounts, |mounts|, i);
    }
  }

  lemma TurnFailed(
    initial: Contents, root: Handle, tree: Tree, mounts: seq<ResolvedMount>, i: nat, layers: Layers, nodes: seq<Node>)
    requires StoppedState(initial, root, tree, mounts, i, layers, nodes)
    ensures TableOf(root, mounts, i, layers) && WellFormed(layers) && NothingReplaced(initial, layers, nodes)
    ensures forall node :: node in nodes ==> SafeNode(tree, layers, node)
  {
  }

  /** The `i`-th entry failed: its mount point or a partly written file may be there, and is as safe as the rest. */
  ghost predicate StoppedState(
    initial: Contents, root: Handle, tree: Tree, mounts: seq<ResolvedMount>, i: nat, layers: Layers, nodes: seq<Node>)
  {
    && i < |mounts| == |tree| && TableOf(root, mounts, i, layers) && WellFormed(layers)
    && AllSafe(tree, layers, nodes, i + 1) && NothingReplaced(initial, layers, nodes)
  }

  lemma TurnStart(
    initial: Contents, room: Room, root: Handle, tree: Tree, mounts: seq<ResolvedMount>, i: nat,
    layers: Layers, nodes: seq<Node>)
    requires Ordered(tree) && NothingUnderHost(tree) && ResolvedFrom(tree, mounts) && i < |mounts|
    requires TurnState(initial, room, root, tree, mounts, i, layers, nodes)
    ensures mounts[i].destination != []
    ensures Fits(initial, room, layers, nodes, mounts[i]) <==> Placeable(initial, room, root, mounts, i)
    ensures
      var path := mounts[i].destination;
      StatusAt(initial, layers, nodes, Walk(layers, Parent(path)), path) == InitialAt(initial, layers, path)
  {
    EntryStart(initial, root, tree, mounts, layers, nodes, i);
    FittingIsPlaceable(initial, room, root, tree, mounts, i, layers, nodes);
  }

  /** What one entry adds: at most one object, at its destination, where nothing was, in the owner of its parent. */
  ghost predicate Grown(initial: Contents, layers: Layers, nodes: seq<Node>, grown: seq<Node>, mount: ResolvedMount)
    requires WellFormed(layers) && mount.destination != []
  {
    && nodes <= grown && |grown| <= |nodes| + 1
    && (|grown| > |nodes| ==>
      && grown[|nodes|].path == mount.destination
      && grown[|nodes|].mount == Walk(layers, Parent(mount.destination))
      && StatusAt(initial, layers, nodes, grown[|nodes|].mount, mount.destination) == Missing)
  }

  lemma TurnDone(
    initial: Contents, room: Room, root: Handle, tree: Tree, mounts: seq<ResolvedMount>, i: nat,
    layers: Layers, after: Layers, nodes: seq<Node>, grown: seq<Node>)
    requires Ordered(tree) && NothingUnderHost(tree) && ResolvedFrom(tree, mounts) && i < |mounts|
    requires TurnState(initial, room, root, tree, mounts, i, layers, nodes) && mounts[i].destination != []
    requires Grown(initial, layers, nodes, grown, mounts[i]) && IsLeft(initial, layers, grown, mounts[i])
    requires after == if mounts[i].ResolvedFd? then Attach(layers, mounts[i].destination, mounts[i].fd) else layers
    requires !mounts[i].ResolvedFd? ==> HasNode(grown, mounts[i])
    requires Placeable(initial, room, root, mounts, i)
    ensures TurnState(initial, room, root, tree, mounts, i + 1, after, grown)
  {
    EntryStart(initial, root, tree, mounts, layers, nodes, i);
    LayersStep(root, mounts, i);
    SafeAfterEntry(tree, layers, nodes, grown, i, mounts[i], true);
    NothingReplacedStep(initial, layers, after, nodes, grown, mounts[i].destination);
    OccupiedStep(initial, tree, mounts, layers, after, nodes, grown, i);
    AllHaveStep(nodes, grown, mounts, i);
  }

  lemma TurnStopped(
    initial: Contents, room: Room, root: Handle, tree: Tree, mounts: seq<ResolvedMount>, i: nat,
    layers: Layers, nodes: seq<Node>, grown: seq<Node>)
    requires Ordered(tree) && NothingUnderHost(tree) && ResolvedFrom(tree, mounts) && i < |mounts|
    requires TurnState(initial, room, root, tree, mounts, i, layers, nodes) && mounts[i].destination != []
    requires Grown(initial, layers, nodes, grown, mounts[i])
    ensures StoppedState(initial, root, tree, mounts, i, layers, grown)
  {
    EntryStart(initial, root, tree, mounts, layers, nodes, i);
    SafeAfterEntry(tree, layers, nodes, grown, i, mounts[i], false);
    NothingReplacedStep(initial, layers, layers, nodes, grown, mounts[i].destination);
  }

  /** The object an entry asks for was created, with its contents and permissions. */
  ghost predicate HasNode(nodes: seq<Node>, mount: ResolvedMount)
    requires !mount.ResolvedFd?
  {
    exists m :: Node(m, mount.destination, Requested(mount)) in nodes
  }

  lemma HasNodeKept(nodes: seq<Node>, more: seq<Node>, mount: ResolvedMount)
    requires !mount.ResolvedFd? && HasNode(nodes, mount) && nodes <= more
    ensures HasNode(more, mount)
  {
    var m :| Node(m, mount.destination, Requested(mount)) in nodes;
    assert Node(m, mount.destination, Requested(mount)) in more;
  }

  /** The mount table that `ApplyMounts` reaches, on success or part way: a longest-prefix view of the tree. */
  lemma AppliedTreeIsLongestPrefix(root: Handle, tree: Tree, mounts: seq<ResolvedMount>, n: nat)
    requires Ordered(tree) && ResolvedFrom(tree, mounts) && n <= |mounts|
    ensures forall path :: LongestPrefix(LayersOf(root, mounts[..n]), path, Walk(LayersOf(root, mounts[..n]), path))
    ensures forall i :: 0 <= i < n ==> Visible(LayersOf(root, mounts[..n]), mounts[i])
  {
    var layers := LayersOf(root, mounts[..n]);
    ResolvedIsApplicable(tree, mounts, n);
    LayersOfBuilt(root, mounts[..n]);
    forall path ensures LongestPrefix(layers, path, Walk(layers, path)) {
      WalkIsLongestPrefix(layers, path);
    }
    forall i | 0 <= i < n ensures Visible(layers, mounts[i]) {
      EveryEntryVisible(root, mounts[..n], i);
      assert mounts[..n][i] == mounts[i];
    }
  }

  /** A created object stays visible: its path is owned by the mount it was created in. */
  lemma CreatedObjectVisible(root: Handle, tree: Tree, mounts: seq<ResolvedMount>, node: Node, i: nat)
    requires Ordered(tree) && ResolvedFrom(tree, mounts) && i < |mounts| && !mounts[i].ResolvedFd?
    requires node.path == mounts[i].destination && SafeNode(tree, LayersOf(root, mounts), node)
    ensures Walk(LayersOf(root, mounts), node.path) == node.mount
  {
    assert mounts[..|mounts|] == mounts;
    AppliedTreeIsLongestPrefix(root, tree, mounts, |mounts|);
    assert Visible(LayersOf(root, mounts), mounts[i]);
  }
}
