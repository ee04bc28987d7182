/** Mount descriptions and the mount tree policy (platform/linux/mounts.rs, policy/mounts.rs). */
module Mounts {
  import opened Bytes
  import opened PathOrder
  import opened Wrappers
  import opened Digits
  import Formatting
  import Paths

  /** Identity of a file or directory that the host holds open. */
  type HostFd = nat

  datatype Attributes = Attributes(
    readOnly: bool, noSetuid: bool, noDevices: bool, noExecution: bool, noSymlinkFollowing: bool)

  datatype BindMount =
    | BindFile(dirfd: HostFd, name: Name, fd: HostFd, attributes: Attributes, isSymlink: bool)
    | BindDirectory(fd: HostFd, attributes: Attributes, isRecursive: bool)

  datatype UpperDirs =
    | HostUpper(parent: HostFd, upperdir: Name, upperdirFd: HostFd, workdir: Name, workdirFd: HostFd)
    | TmpfsUpper(size: Formatting.TmpfsSize, maxInodes: Option<Unsigned64>)

  /** What a proc mount hides from processes that do not own another. */
  datatype Hidepid = Off | NoAccess | Invisible | Ptraceable

  datatype Mount =
    | Bind(bind: BindMount)
    | Procfs(
        hidepid: Hidepid, gid: Option<Unsigned32>, subsetPid: bool, namespace: Option<HostFd>, attributes: Attributes)
    | Mqueue(attributes: Attributes)
    | File(contents: seq<Byte>, permissions: nat)
    | Symlink(target: Paths.GuestPath)
    | EmptyDirectory(permissions: nat)
    | Tmpfs(size: Formatting.TmpfsSize, maxInodes: Option<Unsigned64>, permissions: nat, attributes: Attributes)
    | Overlay(lowerdirs: seq<HostFd>, datadirs: seq<HostFd>, upperdirs: Option<UpperDirs>, attributes: Attributes)
  {
    /** Whether writes below the mount stay inside the sandbox. */
    predicate IsSynthetic() {
      !(Bind? || (Overlay? && upperdirs.Some? && upperdirs.value.HostUpper?))
    }
  }

  datatype Entry = Entry(destination: Path, source: Mount)

  /** A B-tree map from guest path to mount, as its in-order traversal. */
  type Tree = seq<Entry>

  function Destinations(tree: Tree): (paths: seq<Path>)
    ensures |paths| == |tree|
  {
    seq(|tree|, i requires 0 <= i < |tree| => tree[i].destination)
  }

  ghost predicate Ordered(tree: Tree) {
    StrictlySorted(Destinations(tree))
  }

  /** The documented rule: no mount lies underneath a mount whose writes reach the host. */
  ghost predicate NothingUnderHost(tree: Tree) {
    forall i, j ::
      0 <= i < |tree| && 0 <= j < |tree| && tree[i].destination < tree[j].destination ==>
      tree[i].source.IsSynthetic()
  }

  /** Host mounts an overlay may need, as counted for the scratch buffer. */
  function HostMounts(mount: Mount): nat {
    if mount.Overlay? then
      |mount.lowerdirs| + |mount.datadirs| + (if mount.upperdirs.Some? then 1 else 0)
    else 0
  }

  function HostMountCount(tree: Tree): nat {
    if tree == [] then 0
    else HostMountCount(tree[..|tree| - 1]) + HostMounts(tree[|tree| - 1].source)
  }

  /** The linear check: a stack of open ancestors over the in-order traversal. */
  method IsValidMountTree(tree: Tree) returns (r: Option<nat>)
    requires Ordered(tree)
    ensures r.Some? <==> NothingUnderHost(tree)
    ensures r.Some? ==> r.value == HostMountCount(tree)
  {
    var stack: seq<(Path, bool)> := [];
    var hostMountCount := 0;
    var i := 0;
    while i < |tree|
      invariant 0 <= i <= |tree|
      invariant hostMountCount == HostMountCount(tree[..i])
      invariant i == 0 ==> stack == []
      invariant i > 0 ==> stack != []
      invariant i > 0 ==> stack[|stack| - 1] == (tree[i - 1].destination, tree[i - 1].source.IsSynthetic())
      invariant forall k :: 0 < k < i && tree[k - 1].destination <= tree[k].destination ==>
        tree[k - 1].source.IsSynthetic()
    {
      var destination, source := tree[i].destination, tree[i].source;
      assert tree[..i + 1][..i] == tree[..i];
      if source.Overlay? {
        hostMountCount := hostMountCount + |source.lowerdirs| + |source.datadirs|;
        if source.upperdirs.Some? {
          hostMountCount := hostMountCount + 1;
        }
      }
      if stack != [] {
        var (current, isSynthetic) := stack[|stack| - 1];
        if current <= destination {
          if !isSynthetic {
            DestinationsDiffer(tree, i - 1, i);
            assert tree[i - 1].destination < tree[i].destination;
            return None;
          }
        } else {
          var searching := true;
          while searching
            decreases |stack|, searching
          {
            if stack == [] {
              searching := false;
            } else {
              var candidate := stack[|stack| - 1].0;
              stack := stack[..|stack| - 1];
              searching := !(candidate <= destination);
            }
          }
        }
      }
      stack := stack + [(destination, source.IsSynthetic())];
      i := i + 1;
    }
    assert tree[..i] == tree;
    AdjacentCheckSuffices(tree);
    return Some(hostMountCount);
  }

  lemma DestinationsDiffer(tree: Tree, i: nat, j: nat)
    requires Ordered(tree) && i < j < |tree|
    ensures ComparePaths(tree[i].destination, tree[j].destination) == Less
    ensures tree[i].destination != tree[j].destination
  {
    var paths := Destinations(tree);
    assert ComparePaths(paths[i], paths[j]) == Less;
    PathsTotal();
  }

  /** A strict ancestor comes earlier in the traversal. */
  lemma AncestorFirst(tree: Tree, i: nat, j: nat)
    requires Ordered(tree) && i < |tree| && j < |tree|
    requires tree[i].destination < tree[j].destination
    ensures i < j
  {
    PathsTotal();
    PrefixAtMost(tree[i].destination, tree[j].destination);
    if j < i {
      DestinationsDiffer(tree, j, i);
    }
  }

  /** Checking neighbours only is enough, because descendants are contiguous. */
  lemma AdjacentCheckSuffices(tree: Tree)
    requires Ordered(tree)
    requires forall k :: 0 < k < |tree| && tree[k - 1].destination <= tree[k].destination ==>
      tree[k - 1].source.IsSynthetic()
    ensures NothingUnderHost(tree)
  {
    forall i, j |
      0 <= i < |tree| && 0 <= j < |tree| && tree[i].destination < tree[j].destination
      ensures tree[i].source.IsSynthetic()
    {
      AncestorFirst(tree, i, j);
      DestinationsDiffer(tree, i, i + 1);
      if i + 1 < j {
        DestinationsDiffer(tree, i + 1, j);
      }
      PathsTotal();
      DescendantsContiguous(tree[i].destination, tree[i + 1].destination, tree[j].destination);
      assert tree[i + 1 - 1].destination <= tree[i + 1].destination;
    }
  }

  /** The view of a mount tree that a policy stores. */
  class MountTree {
    var tree: Tree
    var hostMountCount: nat

    constructor Empty()
      ensures tree == [] && hostMountCount == 0
    {
      tree, hostMountCount := [], 0;
    }

    /** Checks the tree; only a valid tree updates the stored count. */
    method IsValid() returns (valid: bool)
      requires Ordered(tree)
      modifies this`hostMountCount
      ensures valid <==> NothingUnderHost(tree)
      ensures hostMountCount == if valid then HostMountCount(tree) else old(hostMountCount)
    {
      var count := IsValidMountTree(tree);
      if count.Some? {
        hostMountCount := count.value;
        return true;
      }
      return false;
    }
  }
}
