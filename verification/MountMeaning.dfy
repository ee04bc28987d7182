/** What mounted handles are, read back from the handles themselves (platform/linux/mounts.rs, spawn/mounts.rs). */
module MountMeaning {
  import opened Bytes
  import opened Wrappers
  import opened Digits
  import opened PathOrder
  import opened Mounts
  import opened Filesystems
  import opened MountResolution
  import Formatting

  // ----- writes that reach the host -----

  /** Whether what is written below a handle ends up in files of the host. */
  ghost predicate ReachesHost(handle: Handle) {
    match handle
    case OriginalNamespace => true
    case Namespace(_, _) => true
    case DetachedTree(_, _, _, _, _) => true
    case Inside(mount, _) => ReachesHost(mount)
    case OverlayMount(settings, _) =>
      exists i :: 0 <= i < |settings| && settings[i].Upperdir? && ReachesHost(settings[i].directory)
    case FilesystemMount(_) => false
  }

  lemma OverlayReachesHost(settings: seq<Setting>, attributes: Attributes)
    ensures ReachesHost(OverlayMount(settings, attributes)) <==>
      exists i :: 0 <= i < |settings| && settings[i].Upperdir? && ReachesHost(settings[i].directory)
  {
  }

  /** The validator's notion, an enumeration of kinds, is exactly that writes do not reach the host. */
  lemma SyntheticExactly(entry: Entry)
    ensures entry.source.IsSynthetic() <==> !(Resolved(entry).ResolvedFd? && ReachesHost(Resolved(entry).fd))
  {
    if entry.source.Overlay? {
      OverlayExactly(entry.source);
    }
  }

  lemma OverlayExactly(source: Mount)
    requires source.Overlay?
    ensures
      var settings := OverlaySettings(source.lowerdirs, source.datadirs, source.upperdirs);
      ReachesHost(OverlayMount(settings, source.attributes)) <==> !source.IsSynthetic()
  {
    var settings := OverlaySettings(source.lowerdirs, source.datadirs, source.upperdirs);
    var n := |source.lowerdirs| + |source.datadirs|;
    OverlayReachesHost(settings, source.attributes);
    assert forall i :: 0 <= i < n ==> !settings[i].Upperdir?;
    match source.upperdirs
    case None =>
      assert |settings| == n + 1 && settings[n] == Userxattr;
    case Some(HostUpper(parent, upperdir, _, _, _)) =>
      assert settings[n + 1] == Upperdir(Inside(Constituent(parent), upperdir));
      assert ReachesHost(settings[n + 1].directory);
    case Some(TmpfsUpper(size, maxInodes)) =>
      assert |settings| == n + 3 && settings[n + 2] == Userxattr && settings[n + 1].Workdir?;
      assert settings[n] == Upperdir(Inside(FilesystemMount(UpperTmpfs(size, maxInodes)), Text("upperdir")));
  }

  // ----- what a filesystem was told -----

  ghost predicate Says(parameters: seq<Parameter>, key: string, text: seq<Byte>) {
    exists i :: 0 <= i < |parameters| && parameters[i] == StringParameter(key, text + [0])
  }

  ghost predicate SaysNumber(parameters: seq<Parameter>, key: string, n: nat) {
    exists text :: Says(parameters, key, text) && ParseUnsigned(text) == Some(n)
  }

  /** A proc filesystem with these options and no others; the words of the kernel's table, byte by byte. */
  ghost predicate IsProc(
    fs: Filesystem, hidepid: Hidepid, gid: Option<Unsigned32>, subsetPid: bool, namespace: Option<HostFd>,
    attributes: Attributes)
  {
    && fs.kind == "proc" && fs.exclusive && fs.attributes == attributes
    && Says(fs.parameters, "hidepid",
         match hidepid
         case Off => [111, 102, 102]
         case NoAccess => [110, 111, 97, 99, 99, 101, 115, 115]
         case Invisible => [105, 110, 118, 105, 115, 105, 98, 108, 101]
         case Ptraceable => [112, 116, 114, 97, 99, 101, 97, 98, 108, 101])
    && (if gid.Some? then SaysNumber(fs.parameters, "gid", gid.value) else !HasKey(fs.parameters, "gid"))
    && (if subsetPid then Says(fs.parameters, "subset", [112, 105, 100]) else !HasKey(fs.parameters, "subset"))
    && (if namespace.Some? then FdParameter("pidns", namespace.value) in fs.parameters
        else !HasKey(fs.parameters, "pidns"))
  }

  /** A tmpfs with these limits; no limit is a size of 0, and a share is followed by a percent sign. */
  ghost predicate IsTmpfs(fs: Filesystem, size: TmpfsSize, maxInodes: Option<Unsigned64>, attributes: Attributes) {
    && fs.kind == "tmpfs" && fs.exclusive && fs.attributes == attributes
    && (match size
        case Unlimited => SaysNumber(fs.parameters, "size", 0)
        case InBytes(count) => SaysNumber(fs.parameters, "size", count)
        case Percent(share) => SaysShare(fs.parameters, share))
    && (if maxInodes.Some? then SaysNumber(fs.parameters, "nr_inodes", maxInodes.value)
        else !HasKey(fs.parameters, "nr_inodes"))
  }

  ghost predicate SaysShare(parameters: seq<Parameter>, share: nat) {
    exists text :: Says(parameters, "size", text + [37]) && ParseUnsigned(text) == Some(share)
  }

  ghost predicate SaysMode(parameters: seq<Parameter>, mode: nat) {
    exists text :: Says(parameters, "mode", text) && AllDigits(text) && OctalValue(text) == mode
  }

  lemma SaysAt(parameters: seq<Parameter>, i: nat, key: string, text: seq<Byte>)
    requires i < |parameters| && parameters[i] == StringParameter(key, text + [0])
    ensures Says(parameters, key, text)
  {
  }

  lemma SaysNumberAt(parameters: seq<Parameter>, i: nat, key: string, n: nat)
    requires i < |parameters| && parameters[i] == StringParameter(key, FormatUnsigned(n) + [0])
    ensures SaysNumber(parameters, key, n)
  {
    SaysAt(parameters, i, key, FormatUnsigned(n));
    ParseFormatUnsigned(n);
  }

  lemma ProcIsRead(
    hidepid: Hidepid, gid: Option<Unsigned32>, subsetPid: bool, namespace: Option<HostFd>, attributes: Attributes)
    ensures IsProc(Configured(Procfs(hidepid, gid, subsetPid, namespace, attributes)),
              hidepid, gid, subsetPid, namespace, attributes)
  {
    var p := ProcParameters(hidepid, gid, subsetPid, namespace);
    HidepidWords();
    SaysAt(p, 0, "hidepid", HidepidText(hidepid));
    GidIsRead(hidepid, gid, subsetPid, namespace);
    SubsetIsRead(hidepid, gid, subsetPid, namespace);
    NamespaceIsRead(hidepid, gid, subsetPid, namespace);
  }

  lemma GidIsRead(hidepid: Hidepid, gid: Option<Unsigned32>, subsetPid: bool, namespace: Option<HostFd>)
    ensures
      var p := ProcParameters(hidepid, gid, subsetPid, namespace);
      if gid.Some? then SaysNumber(p, "gid", gid.value) else !HasKey(p, "gid")
  {
    KeysDecide(hidepid, gid, subsetPid, namespace);
    if gid.Some? {
      SaysNumberAt(ProcParameters(hidepid, gid, subsetPid, namespace), 1, "gid", gid.value);
    }
  }

  lemma SubsetIsRead(hidepid: Hidepid, gid: Option<Unsigned32>, subsetPid: bool, namespace: Option<HostFd>)
    ensures
      var p := ProcParameters(hidepid, gid, subsetPid, namespace);
      if subsetPid then Says(p, "subset", [112, 105, 100]) else !HasKey(p, "subset")
  {
    KeysDecide(hidepid, gid, subsetPid, namespace);
    if subsetPid {
      assert Text("pid") == [112, 105, 100];
      var p := ProcParameters(hidepid, gid, subsetPid, namespace);
      SaysAt(p, if gid.Some? then 2 else 1, "subset", [112, 105, 100]);
    }
  }

  lemma NamespaceIsRead(hidepid: Hidepid, gid: Option<Unsigned32>, subsetPid: bool, namespace: Option<HostFd>)
    ensures
      var p := ProcParameters(hidepid, gid, subsetPid, namespace);
      if namespace.Some? then FdParameter("pidns", namespace.value) in p else !HasKey(p, "pidns")
  {
    KeysDecide(hidepid, gid, subsetPid, namespace);
    if namespace.Some? {
      var p := ProcParameters(hidepid, gid, subsetPid, namespace);
      assert p[|p| - 1] == FdParameter("pidns", namespace.value);
    }
  }

  lemma HidepidWords()
    ensures HidepidText(Off) == [111, 102, 102]
    ensures HidepidText(NoAccess) == [110, 111, 97, 99, 99, 101, 115, 115]
    ensures HidepidText(Invisible) == [105, 110, 118, 105, 115, 105, 98, 108, 101]
    ensures HidepidText(Ptraceable) == [112, 116, 114, 97, 99, 101, 97, 98, 108, 101]
  {
  }

  lemma SizeIsRead(fs: Filesystem, size: TmpfsSize, maxInodes: Option<Unsigned64>, attributes: Attributes)
    requires fs.kind == "tmpfs" && fs.exclusive && fs.attributes == attributes
    requires SizeParameters(size, maxInodes) <= fs.parameters
    requires forall i :: |SizeParameters(size, maxInodes)| <= i < |fs.parameters| ==> fs.parameters[i].key == "mode"
    ensures IsTmpfs(fs, size, maxInodes, attributes)
  {
    var p, s := fs.parameters, SizeParameters(size, maxInodes);
    assert p[0] == s[0];
    match size {
      case Unlimited => SaysNumberAt(p, 0, "size", 0);
      case InBytes(count) => SaysNumberAt(p, 0, "size", count);
      case Percent(share) =>
        var text := FormatUnsigned(share);
        assert Formatting.SizeText(size) == (text + [37]) + [0];
        SaysAt(p, 0, "size", text + [37]);
        ParseFormatUnsigned(share);
    }
    if maxInodes.Some? {
      assert p[1] == s[1];
      SaysNumberAt(p, 1, "nr_inodes", maxInodes.value);
    }
  }

  lemma TmpfsIsRead(size: TmpfsSize, maxInodes: Option<Unsigned64>, permissions: nat, attributes: Attributes)
    ensures
      var fs := Configured(Tmpfs(size, maxInodes, permissions, attributes));
      IsTmpfs(fs, size, maxInodes, attributes) && SaysMode(fs.parameters, permissions % 0x1000)
  {
    var fs := Configured(Tmpfs(size, maxInodes, permissions, attributes));
    var p, s := fs.parameters, SizeParameters(size, maxInodes);
    assert p[..|s|] == s && |p| == |s| + 1;
    SizeIsRead(fs, size, maxInodes, attributes);
    var mode := OctalText(permissions % MODE_MASK, MODE_DIGITS);
    SaysAt(p, |s|, "mode", mode);
    ModeRoundTrip(permissions);
  }

  // ----- what a mount is -----

  /** A mount detached from the root, or a name in it, of what the host held open, with these flags and no others. */
  predicate IsDetached(
    handle: Handle, host: HostFd, name: Option<Name>, captured: bool, recursive: bool, nofollow: bool,
    attributes: Attributes)
  {
    && handle.DetachedTree?
    && handle.namespace.Namespace? && handle.namespace.root == host && handle.namespace.recursive == captured
    && handle.name == name
    && handle.recursive == recursive
    && handle.nofollow == nofollow
    && handle.attributes == attributes
  }

  /** One layer of an overlay: everything below the directory, without set-id bits or devices. */
  predicate IsLayer(handle: Handle, host: HostFd) {
    IsDetached(handle, host, None, false, true, false, Attributes(false, true, true, false, false))
  }

  /** The upper and work directory of an overlay, each under its own setting, and both where they were opened. */
  ghost predicate HasUpper(same: Identity, settings: seq<Setting>, upperdirs: Option<UpperDirs>) {
    match upperdirs
    case None => forall i :: 0 <= i < |settings| ==> !settings[i].Upperdir? && !settings[i].Workdir?
    case Some(HostUpper(parent, upperdir, upperdirFd, workdir, workdirFd)) =>
      && (exists layer :: IsLayer(layer, parent) && Upperdir(Inside(layer, upperdir)) in settings &&
           Workdir(Inside(layer, workdir)) in settings &&
           same(Inside(layer, upperdir), upperdirFd) && same(Inside(layer, workdir), workdirFd))
    case Some(TmpfsUpper(size, maxInodes)) =>
      exists fs :: IsTmpfs(fs, size, maxInodes, Attributes(false, true, true, false, false)) &&
        Upperdir(Inside(FilesystemMount(fs), Text("upperdir"))) in settings &&
        Workdir(Inside(FilesystemMount(fs), Text("workdir"))) in settings
  }

  /** Lower directories first, then data directories, each with its own source and in its own order. */
  ghost predicate HasLayers(settings: seq<Setting>, lowerdirs: seq<HostFd>, datadirs: seq<HostFd>) {
    var low, n := |lowerdirs|, |lowerdirs| + |datadirs|;
    && n <= |settings|
    && (forall i :: 0 <= i < low ==> settings[i].Lowerdir? && IsLayer(settings[i].mount, lowerdirs[i]))
    && (forall i :: low <= i < n ==> settings[i].Datadir? && IsLayer(settings[i].mount, datadirs[i - low]))
    && (forall i :: n <= i < |settings| ==> !settings[i].Lowerdir? && !settings[i].Datadir?)
    && Userxattr in settings
  }

  /** A mounted handle is what the entry asks for. */
  ghost predicate Presents(same: Identity, handle: Handle, mount: Mount) {
    match mount
    case Bind(BindFile(dirfd, name, fd, attributes, isSymlink)) =>
      IsDetached(handle, dirfd, Some(name), false, false, isSymlink, attributes) && same(handle, fd)
    case Bind(BindDirectory(fd, attributes, isRecursive)) =>
      IsDetached(handle, fd, None, isRecursive, isRecursive, false, attributes)
    case Overlay(lowerdirs, datadirs, upperdirs, attributes) =>
      handle.OverlayMount? && handle.attributes == attributes &&
      HasLayers(handle.settings, lowerdirs, datadirs) && HasUpper(same, handle.settings, upperdirs)
    case Procfs(hidepid, gid, subsetPid, namespace, attributes) =>
      handle.FilesystemMount? && IsProc(handle.filesystem, hidepid, gid, subsetPid, namespace, attributes)
    case Mqueue(attributes) =>
      handle.FilesystemMount? && handle.filesystem == Filesystem("mqueue", [], false, attributes)
    case Tmpfs(size, maxInodes, permissions, attributes) =>
      handle.FilesystemMount? && IsTmpfs(handle.filesystem, size, maxInodes, attributes) &&
      SaysMode(handle.filesystem.parameters, permissions % 0x1000)
    case _ => false
  }

  lemma OverlayPresents(same: Identity, entry: Entry)
    requires entry.source.Overlay? && Genuine(same, entry.source)
    ensures Resolved(entry).ResolvedFd? && Presents(same, Resolved(entry).fd, entry.source)
  {
    var source := entry.source;
    var settings := OverlaySettings(source.lowerdirs, source.datadirs, source.upperdirs);
    OverlayHasLayers(source.lowerdirs, source.datadirs, source.upperdirs);
    OverlayHasUpper(same, source.lowerdirs, source.datadirs, source.upperdirs);
    assert Resolved(entry).fd == OverlayMount(settings, source.attributes);
  }

  lemma OverlayHasLayers(lowerdirs: seq<HostFd>, datadirs: seq<HostFd>, upperdirs: Option<UpperDirs>)
    ensures HasLayers(OverlaySettings(lowerdirs, datadirs, upperdirs), lowerdirs, datadirs)
  {
    var settings := OverlaySettings(lowerdirs, datadirs, upperdirs);
    var low, n := |lowerdirs|, |lowerdirs| + |datadirs|;
    assert forall i :: 0 <= i < low ==> settings[i] == Lowerdir(Constituent(lowerdirs[i]));
    assert forall i :: low <= i < n ==> settings[i] == Datadir(Constituent(datadirs[i - low]));
    var upper := UpperSettings(upperdirs);
    assert forall i :: n <= i < n + |upper| ==> settings[i] == upper[i - n];
    assert |settings| == n + |upper| + 1 && settings[n + |upper|] == Userxattr;
  }

  lemma OverlayHasUpper(
    same: Identity, lowerdirs: seq<HostFd>, datadirs: seq<HostFd>, upperdirs: Option<UpperDirs>)
    requires GenuineUpper(same, upperdirs)
    ensures HasUpper(same, OverlaySettings(lowerdirs, datadirs, upperdirs), upperdirs)
  {
    var settings := OverlaySettings(lowerdirs, datadirs, upperdirs);
    var n, upper := |lowerdirs| + |datadirs|, UpperSettings(upperdirs);
    assert forall i :: 0 <= i < n ==> !settings[i].Upperdir? && !settings[i].Workdir?;
    assert forall i :: n <= i < n + |upper| ==> settings[i] == upper[i - n];
    match upperdirs
    case None =>
      assert |settings| == n + 1 && settings[n] == Userxattr;
    case Some(HostUpper(parent, upperdir, _, workdir, _)) =>
      var layer := Constituent(parent);
      assert settings[n] in settings && settings[n + 1] in settings;
      assert IsLayer(layer, parent);
    case Some(TmpfsUpper(size, maxInodes)) =>
      var fs := UpperTmpfs(size, maxInodes);
      SizeIsRead(fs, size, maxInodes, Attributes(false, true, true, false, false));
      assert settings[n] in settings && settings[n + 1] in settings;
  }

  /** What is resolved for a mount is that mount. */
  lemma ResolvedPresents(same: Identity, entry: Entry)
    requires Genuine(same, entry.source)
    requires !entry.source.File? && !entry.source.Symlink? && !entry.source.EmptyDirectory?
    ensures Resolved(entry).ResolvedFd? && Presents(same, Resolved(entry).fd, entry.source)
    ensures Resolved(entry).isDirectory <==> !(entry.source.Bind? && entry.source.bind.BindFile?)
  {
    match entry.source
    case Overlay(_, _, _, _) => OverlayPresents(same, entry);
    case Procfs(hidepid, gid, subsetPid, namespace, attributes) =>
      ProcIsRead(hidepid, gid, subsetPid, namespace, attributes);
    case Tmpfs(size, maxInodes, permissions, attributes) =>
      TmpfsIsRead(size, maxInodes, permissions, attributes);
    case Bind(_) =>
    case Mqueue(_) =>
  }

  /** What has to be the file or directory the caller opened: a bound file, and both upper directories of the host. */
  lemma GenuineExactly(same: Identity, entry: Entry)
    ensures Genuine(same, entry.source) <==>
      match entry.source
      case Bind(BindFile(dirfd, name, fd, attributes, isSymlink)) =>
        forall handle :: IsDetached(handle, dirfd, Some(name), false, false, isSymlink, attributes) ==> same(handle, fd)
      case Overlay(_, _, Some(HostUpper(parent, upperdir, upperdirFd, workdir, workdirFd)), _) =>
        forall layer :: IsLayer(layer, parent) ==>
          same(Inside(layer, upperdir), upperdirFd) && same(Inside(layer, workdir), workdirFd)
      case _ => true
  {
    match entry.source
    case Bind(BindFile(dirfd, name, _, attributes, isSymlink)) =>
      assert IsDetached(Resolved(entry).fd, dirfd, Some(name), false, false, isSymlink, attributes);
    case Overlay(_, _, Some(HostUpper(parent, _, _, _, _)), _) =>
      assert IsLayer(Constituent(parent), parent);
    case _ =>
  }

  /** Files, links and directories keep what was asked for. */
  lemma ResolvedKeeps(entry: Entry)
    ensures entry.source.File? ==>
      Resolved(entry) == ResolvedFile(entry.source.contents, entry.source.permissions, entry.destination)
    ensures entry.source.Symlink? ==> Resolved(entry) == ResolvedSymlink(entry.source.target, entry.destination)
    ensures entry.source.EmptyDirectory? ==>
      Resolved(entry) == ResolvedDirectory(entry.source.permissions, entry.destination)
  {
  }
}
