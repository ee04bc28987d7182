/** The mount story from a policy to the finished root (policy/mounts.rs, spawn/mounts.rs, spawn/mod.rs). */
module MountSetup {
  import opened PathOrder
  import opened Wrappers
  import opened Mounts
  import opened MountResolution
  import opened MountMeaning
  import opened MountApplication
  import Paths

  datatype SetupError =
    | Resolution(resolving: MountResolution.Error)
    | Application(applying: ApplyError)

  function ResolvedTree(tree: Tree): (mounts: seq<ResolvedMount>)
    ensures |mounts| == |tree|
  {
    seq(|tree|, i requires 0 <= i < |tree| => Resolved(tree[i]))
  }

  /** Guest paths always have a file name, so no destination is the root. */
  ghost predicate HasNames(tree: Tree) {
    forall i :: 0 <= i < |tree| ==> tree[i].destination != []
  }

  /** The finished root shows the tree: lookup by longest prefix, every entry where it was asked for. */
  ghost predicate Shows(same: Identity, layers: Layers, nodes: seq<Node>, tree: Tree) {
    && WellFormed(layers)
    && (forall path :: LongestPrefix(layers, path, Walk(layers, path)))
    && (forall i :: 0 <= i < |tree| ==> ShowsEntry(same, layers, nodes, tree[i]))
  }

  /** Walking to the destination finds the object that was asked for, or the mount. */
  ghost predicate ShowsEntry(same: Identity, layers: Layers, nodes: seq<Node>, entry: Entry)
    requires WellFormed(layers)
  {
    var path := entry.destination;
    var owner := Walk(layers, path);
    && path != []
    && match entry.source
       case File(contents, permissions) => Node(owner, path, RegularNode(contents, permissions % 0x400)) in nodes
       case Symlink(target) => Node(owner, path, SymlinkNode(target.parentDir + [47] + target.fileName)) in nodes
       case EmptyDirectory(permissions) => Node(owner, path, DirectoryNode(permissions % 0x400)) in nodes
       case _ => layers[owner].point == path && Presents(same, layers[owner].fd, entry.source)
  }

  lemma EntryShown(same: Identity, tree: Tree, layers: Layers, nodes: seq<Node>, entry: Entry)
    requires WellFormed(layers) && entry.destination != [] && Genuine(same, entry.source)
    requires Visible(layers, Resolved(entry))
    requires !Resolved(entry).ResolvedFd? ==> HasNode(nodes, Resolved(entry))
    requires forall node :: node in nodes ==> SafeNode(tree, layers, node)
    ensures ShowsEntry(same, layers, nodes, entry)
  {
    ResolvedKeeps(entry);
    if entry.source.File? || entry.source.Symlink? || entry.source.EmptyDirectory? {
      var m :| Node(m, entry.destination, Requested(Resolved(entry))) in nodes;
      assert SafeNode(tree, layers, Node(m, entry.destination, Requested(Resolved(entry))));
      assert m == Walk(layers, entry.destination);
    } else {
      ResolvedPresents(same, entry);
    }
  }

  lemma FinishedShows(same: Identity, root: Handle, tree: Tree, layers: Layers, nodes: seq<Node>)
    requires Ordered(tree) && HasNames(tree) && layers == LayersOf(root, ResolvedTree(tree))
    requires forall i :: 0 <= i < |tree| && !ResolvedTree(tree)[i].ResolvedFd? ==> HasNode(nodes, ResolvedTree(tree)[i])
    requires forall node :: node in nodes ==> SafeNode(tree, layers, node)
    requires !Swapped(same, tree)
    ensures Shows(same, layers, nodes, tree)
  {
    var mounts := ResolvedTree(tree);
    assert mounts[..|mounts|] == mounts;
    AppliedTreeIsLongestPrefix(root, tree, mounts, |mounts|);
    forall i | 0 <= i < |tree| ensures ShowsEntry(same, layers, nodes, tree[i]) {
      assert mounts[i] == Resolved(tree[i]);
      EntryShown(same, tree, layers, nodes, tree[i]);
    }
  }

  /** The tree is valid, nothing was swapped or is refused, and every entry is placeable. */
  ghost predicate CanSetUp(kernel: Kernel, initial: Contents, room: Room, root: Handle, tree: Tree) {
    && NothingUnderHost(tree)
    && !SomeUnresolvable(kernel, tree)
    && forall i :: 0 <= i < |tree| ==> Placeable(initial, room, root, ResolvedTree(tree), i)
  }

  /**
    * Validates, resolves and applies a mount tree. It succeeds only for trees that can be set up, and without faults
    * for all of them.
    */
  method SetUpMounts(policy: MountTree, slack: nat, kernel: Kernel, guest: GuestRoot, ghost root: Handle)
    returns (r: Result<(), SetupError>)
    requires Ordered(policy.tree) && HasNames(policy.tree)
    requires guest.layers == LayersOf(root, []) && guest.nodes == []
    modifies policy, guest
    ensures policy.tree == old(policy.tree)
    ensures r.Ok? ==> CanSetUp(kernel, guest.initial, guest.room, root, policy.tree)
    ensures r.Err? && kernel.Faultless() && guest.faultless ==>
      !CanSetUp(kernel, guest.initial, guest.room, root, policy.tree)
    ensures r == Err(Resolution(InvalidMountPolicy)) <==> !NothingUnderHost(policy.tree)
    ensures r == Err(Resolution(HostSourcedFileMismatch)) ==> Swapped(kernel.same, policy.tree)
    // on every exit
    ensures WellFormed(guest.layers) && NothingReplaced(guest.initial, guest.layers, guest.nodes)
    ensures forall node :: node in guest.nodes ==> SafeNode(policy.tree, guest.layers, node)
    ensures forall node :: node in guest.nodes ==>
      node.mount < |guest.layers| && (node.mount == 0 || !ReachesHost(guest.layers[node.mount].fd))
    // on success
    ensures r.Ok? ==> Shows(kernel.same, guest.layers, guest.nodes, policy.tree)
    ensures r.Ok? ==> forall k :: 0 < k < |guest.layers| ==>
      var below := guest.layers[k].parent;
      below < |guest.layers| && (below == 0 || !ReachesHost(guest.layers[below].fd))
  {
    var resolved := ResolveValidTree(policy, slack, kernel);
    if resolved.Err? {
      return Err(Resolution(resolved.error));
    }
    ghost var tree := policy.tree;
    assert resolved.value == ResolvedTree(tree);
    var applied := guest.ApplyMounts(tree, root, resolved.value);
    if applied.Err? {
      return Err(Application(applied.error));
    }
    FinishedShows(kernel.same, root, tree, guest.layers, guest.nodes);
    forall k | 0 < k < |guest.layers| ensures OffHost(guest.layers, guest.layers[k].parent) {
      MountsSitOffHost(root, tree, resolved.value, k);
    }
    return Ok(());
  }
}
