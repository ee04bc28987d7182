/** Configuring the filesystems a sandbox creates for itself: proc, mqueue and tmpfs (spawn/mounts.rs). */
module Filesystems {
  import opened Bytes
  import opened Wrappers
  import opened Digits
  import opened Mounts
  import Formatting

  type TmpfsSize = Formatting.TmpfsSize

  /** One parameter of a filesystem context; string values carry their terminator. */
  datatype Parameter =
    | StringParameter(key: string, value: seq<Byte>)
    | FdParameter(key: string, fd: HostFd)

  /** A created filesystem: its parameters in the order they were set, and the attributes of its mount. */
  datatype Filesystem = Filesystem(kind: string, parameters: seq<Parameter>, exclusive: bool, attributes: Attributes)

  const NUL: seq<Byte> := [0]

  // ----- what each filesystem should be configured with -----

  function HidepidText(hidepid: Hidepid): seq<Byte> {
    match hidepid
    case Off => Text("off")
    case NoAccess => Text("noaccess")
    case Invisible => Text("invisible")
    case Ptraceable => Text("ptraceable")
  }

  function ProcParameters(hidepid: Hidepid, gid: Option<Unsigned32>, subsetPid: bool, namespace: Option<HostFd>)
    : seq<Parameter>
  {
    [StringParameter("hidepid", HidepidText(hidepid) + NUL)] +
    (if gid.Some? then [StringParameter("gid", FormatUnsigned(gid.value) + NUL)] else []) +
    (if subsetPid then [StringParameter("subset", Text("pid") + NUL)] else []) +
    (if namespace.Some? then [FdParameter("pidns", namespace.value)] else [])
  }

  function SizeParameters(size: TmpfsSize, maxInodes: Option<Unsigned64>): seq<Parameter> {
    [StringParameter("size", Formatting.SizeText(size))] +
    if maxInodes.Some? then [StringParameter("nr_inodes", FormatUnsigned(maxInodes.value) + NUL)] else []
  }

  /** The lowest `digits` octal digits of a number, most significant first. */
  function OctalText(n: nat, digits: nat): (text: seq<Byte>)
    ensures |text| == digits && AllDigits(text)
  {
    if digits == 0 then [] else OctalText(n / 8, digits - 1) + [ZERO + n % 8]
  }

  function OctalValue(text: seq<Byte>): nat
    requires AllDigits(text)
  {
    if text == [] then 0
    else 8 * OctalValue(text[..|text| - 1]) + (text[|text| - 1] - ZERO)
  }

  const MODE_DIGITS := 4
  const MODE_MASK := 0x1000

  function TmpfsParameters(size: TmpfsSize, maxInodes: Option<Unsigned64>, permissions: nat): seq<Parameter> {
    SizeParameters(size, maxInodes) + [StringParameter("mode", OctalText(permissions % MODE_MASK, MODE_DIGITS) + NUL)]
  }

  predicate IsFilesystem(mount: Mount) {
    mount.Procfs? || mount.Mqueue? || mount.Tmpfs?
  }

  function Configured(mount: Mount): Filesystem
    requires IsFilesystem(mount)
  {
    match mount
    case Procfs(hidepid, gid, subsetPid, namespace, attributes) =>
      Filesystem("proc", ProcParameters(hidepid, gid, subsetPid, namespace), true, attributes)
    case Mqueue(attributes) => Filesystem("mqueue", [], false, attributes)
    case Tmpfs(size, maxInodes, permissions, attributes) =>
      Filesystem("tmpfs", TmpfsParameters(size, maxInodes, permissions), true, attributes)
  }

  /** The tmpfs behind the upper directories of an overlay. */
  function UpperTmpfs(size: TmpfsSize, maxInodes: Option<Unsigned64>): Filesystem {
    Filesystem("tmpfs", SizeParameters(size, maxInodes), true, Attributes(false, true, true, false, false))
  }

  // ----- what the parameters tell the kernel -----

  lemma {:induction false} OctalRoundTrip(n: nat, digits: nat, bound: nat)
    requires bound == Pow8(digits) && n < bound
    ensures OctalValue(OctalText(n, digits)) == n
  {
    if digits > 0 {
      OctalRoundTrip(n / 8, digits - 1, Pow8(digits - 1));
      var front := OctalText(n / 8, digits - 1);
      assert OctalText(n, digits)[..digits - 1] == front;
    }
  }

  function Pow8(n: nat): nat {
    if n == 0 then 1 else 8 * Pow8(n - 1)
  }

  /** The mode text reads back as the permission bits. */
  lemma ModeRoundTrip(permissions: nat)
    ensures OctalValue(OctalText(permissions % MODE_MASK, MODE_DIGITS)) == permissions % MODE_MASK
  {
    assert Pow8(1) == 8 && Pow8(2) == 64 && Pow8(3) == 512;
    OctalRoundTrip(permissions % MODE_MASK, MODE_DIGITS, MODE_MASK);
  }

  /** The four octal places of a mode. */
  lemma ModeText(permissions: nat)
    ensures
      var n := permissions % 0x1000;
      OctalText(permissions % MODE_MASK, MODE_DIGITS) == [48 + n / 512, 48 + n / 64 % 8, 48 + n / 8 % 8, 48 + n % 8]
  {
    var n := permissions % MODE_MASK;
    var eighth := n / 8;
    var next := eighth / 8;
    OctalPlace(n, 3);
    OctalPlace(eighth, 2);
    OctalPlace(next, 1);
    OctalPlace(next / 8, 0);
    assert next == n / 64 && next / 8 == n / 512 && next / 8 % 8 == next / 8;
  }

  lemma OctalPlace(n: nat, places: nat)
    ensures OctalText(n, places + 1) == OctalText(n / 8, places) + [48 + n % 8]
    ensures OctalText(n, 0) == []
  {
  }

  lemma HidepidDistinct(a: Hidepid, b: Hidepid)
    requires HidepidText(a) == HidepidText(b)
    ensures a == b
  {
    assert |HidepidText(Off)| == 3 && |HidepidText(NoAccess)| == 8;
    assert |HidepidText(Invisible)| == 9 && |HidepidText(Ptraceable)| == 10;
  }

  lemma NumberDistinct(a: nat, b: nat)
    requires FormatUnsigned(a) == FormatUnsigned(b)
    ensures a == b
  {
    ParseFormatUnsigned(a);
    ParseFormatUnsigned(b);
  }

  /** Nothing about a proc mount is lost: different requests give different configurations. */
  lemma ProcDetermined(
    hidepid: Hidepid, gid: Option<Unsigned32>, subsetPid: bool, namespace: Option<HostFd>,
    hidepid': Hidepid, gid': Option<Unsigned32>, subsetPid': bool, namespace': Option<HostFd>)
    ensures ProcParameters(hidepid, gid, subsetPid, namespace) == ProcParameters(hidepid', gid', subsetPid', namespace')
      <==> hidepid == hidepid' && gid == gid' && subsetPid == subsetPid' && namespace == namespace'
  {
    var p := ProcParameters(hidepid, gid, subsetPid, namespace);
    var q := ProcParameters(hidepid', gid', subsetPid', namespace');
    if p == q {
      assert p[0] == q[0];
      AppendNulDistinct(HidepidText(hidepid), HidepidText(hidepid'));
      HidepidDistinct(hidepid, hidepid');
      KeysDecide(hidepid, gid, subsetPid, namespace);
      KeysDecide(hidepid', gid', subsetPid', namespace');
      if gid.Some? {
        assert p[1] == q[1];
        AppendNulDistinct(FormatUnsigned(gid.value), FormatUnsigned(gid'.value));
        NumberDistinct(gid.value, gid'.value);
      }
      assert p[|p| - 1] == q[|q| - 1];
    }
  }

  /** Which options were given can be read off the keys. */
  lemma KeysDecide(hidepid: Hidepid, gid: Option<Unsigned32>, subsetPid: bool, namespace: Option<HostFd>)
    ensures
      var p := ProcParameters(hidepid, gid, subsetPid, namespace);
      && (gid.Some? <==> HasKey(p, "gid"))
      && (subsetPid <==> HasKey(p, "subset"))
      && (namespace.Some? <==> HasKey(p, "pidns"))
  {
    var p := ProcParameters(hidepid, gid, subsetPid, namespace);
    assert gid.Some? ==> p[1].key == "gid";
    assert subsetPid ==> p[if gid.Some? then 2 else 1].key == "subset";
    assert namespace.Some? ==> p[|p| - 1].key == "pidns";
  }

  ghost predicate HasKey(parameters: seq<Parameter>, key: string) {
    exists i :: 0 <= i < |parameters| && parameters[i].key == key
  }

  lemma AppendNulDistinct(a: seq<Byte>, b: seq<Byte>)
    requires a + NUL == b + NUL
    ensures a == b
  {
    assert a == (a + NUL)[..|a|] && b == (b + NUL)[..|b|];
  }

  /** A size in bytes of 0 is what no limit at all looks like. */
  predicate SameSize(a: TmpfsSize, b: TmpfsSize) {
    a == b || (a in {Formatting.Unlimited, Formatting.InBytes(0)} && b in {Formatting.Unlimited, Formatting.InBytes(0)})
  }

  /** The number of bytes a size limits to, where 0 and no limit are the same. */
  function Limit(size: TmpfsSize): nat
    requires !size.Percent?
  {
    if size.Unlimited? then 0 else size.count
  }

  lemma LimitText(size: TmpfsSize)
    requires !size.Percent?
    ensures Formatting.SizeText(size) == FormatUnsigned(Limit(size)) + NUL
    ensures AllDigits(FormatUnsigned(Limit(size))) && FormatUnsigned(Limit(size)) != []
  {
  }

  lemma PercentText(size: TmpfsSize)
    requires size.Percent?
    ensures Formatting.SizeText(size) == FormatUnsigned(size.share) + [Formatting.PERCENT_SIGN] + NUL
  {
  }

  lemma SizeDetermined(a: TmpfsSize, b: TmpfsSize)
    ensures Formatting.SizeText(a) == Formatting.SizeText(b) <==> SameSize(a, b)
  {
    var s, t := Formatting.SizeText(a), Formatting.SizeText(b);
    if a.Percent? {
      PercentText(a);
      assert s[|s| - 2] == Formatting.PERCENT_SIGN;
    } else {
      LimitText(a);
      assert IsDigit(s[|s| - 2]);
    }
    if b.Percent? {
      PercentText(b);
      assert t[|t| - 2] == Formatting.PERCENT_SIGN;
    } else {
      LimitText(b);
      assert IsDigit(t[|t| - 2]);
    }
    if s == t && a.Percent? && b.Percent? {
      var share, share' := FormatUnsigned(a.share), FormatUnsigned(b.share);
      var sign := [Formatting.PERCENT_SIGN];
      AppendNulDistinct(share + sign, share' + sign);
      assert share == (share + sign)[..|s| - 2] && share' == (share' + sign)[..|t| - 2];
      NumberDistinct(a.share, b.share);
    } else if s == t && !a.Percent? && !b.Percent? {
      AppendNulDistinct(FormatUnsigned(Limit(a)), FormatUnsigned(Limit(b)));
      NumberDistinct(Limit(a), Limit(b));
    }
  }

  /** Nothing about a tmpfs is lost but how no limit differs from a limit of 0 bytes, and the bits above the mode. */
  lemma TmpfsDetermined(
    size: TmpfsSize, maxInodes: Option<Unsigned64>, permissions: nat,
    size': TmpfsSize, maxInodes': Option<Unsigned64>, permissions': nat)
    ensures TmpfsParameters(size, maxInodes, permissions) == TmpfsParameters(size', maxInodes', permissions')
      <==> SameSize(size, size') && maxInodes == maxInodes' && permissions % MODE_MASK == permissions' % MODE_MASK
  {
    var p, q := TmpfsParameters(size, maxInodes, permissions), TmpfsParameters(size', maxInodes', permissions');
    SizeDetermined(size, size');
    if p == q {
      assert p[0] == q[0] && p[|p| - 1] == q[|q| - 1];
      assert |p| == (if maxInodes.Some? then 3 else 2) && |q| == if maxInodes'.Some? then 3 else 2;
      if maxInodes.Some? {
        assert p[1] == q[1];
        AppendNulDistinct(FormatUnsigned(maxInodes.value), FormatUnsigned(maxInodes'.value));
        NumberDistinct(maxInodes.value, maxInodes'.value);
      }
      var mode := OctalText(permissions % MODE_MASK, MODE_DIGITS);
      var mode' := OctalText(permissions' % MODE_MASK, MODE_DIGITS);
      AppendNulDistinct(mode, mode');
      ModeRoundTrip(permissions);
      ModeRoundTrip(permissions');
    }
  }

  // ----- the configuration itself -----

  /** Which configurations the kernel accepts; a faultless kernel fails for no other reason. */
  datatype FsKernel = FsKernel(accepts: Filesystem -> bool, faultless: bool)

  /** Exactly the wanted filesystem, if the kernel accepts it; a faultless kernel then does provide it. */
  predicate Answers(kernel: FsKernel, wanted: Filesystem, r: Option<Filesystem>) {
    && (r.Some? ==> r.value == wanted && kernel.accepts(wanted))
    && (r.None? && kernel.faultless ==> !kernel.accepts(wanted))
  }

  class FsContext {
    const kind: string
    const kernel: FsKernel
    var isOpen: bool
    var parameters: seq<Parameter>

    constructor (kind: string, kernel: FsKernel)
      ensures this.kind == kind && this.kernel == kernel && parameters == []
    {
      this.kind := kind;
      this.kernel := kernel;
      isOpen := false;
      parameters := [];
    }

    /** `fsopen` */
    method Open() returns (ok: bool)
      modifies this`isOpen
      ensures kernel.faultless ==> ok
      ensures isOpen == ok
    {
      ok := *;
      ok := ok || kernel.faultless;
      isOpen := ok;
    }

    method SetString(key: string, value: seq<Byte>) returns (ok: bool)
      requires isOpen
      modifies this`parameters
      ensures kernel.faultless ==> ok
      ensures ok ==> parameters == old(parameters) + [StringParameter(key, value)]
    {
      ok := *;
      ok := ok || kernel.faultless;
      if ok {
        parameters := parameters + [StringParameter(key, value)];
      }
    }

    method SetFd(key: string, fd: HostFd) returns (ok: bool)
      requires isOpen
      modifies this`parameters
      ensures kernel.faultless ==> ok
      ensures ok ==> parameters == old(parameters) + [FdParameter(key, fd)]
    {
      ok := *;
      ok := ok || kernel.faultless;
      if ok {
        parameters := parameters + [FdParameter(key, fd)];
      }
    }

    /** Creating the filesystem and mounting it, either of which may fail. */
    method Mount(exclusive: bool, attributes: Attributes) returns (r: Option<Filesystem>)
      requires isOpen
      ensures Answers(kernel, Filesystem(kind, parameters, exclusive, attributes), r)
    {
      var ok: bool := *;
      var created := Filesystem(kind, parameters, exclusive, attributes);
      r := if kernel.accepts(created) && (ok || kernel.faultless) then Some(created) else None;
    }
  }

  /** A number of a 32-bit or 64-bit width and its terminator fit the buffer sized for the width. */
  method NumberText(n: nat, bits: nat) returns (text: seq<Byte>)
    requires (bits == 32 && n < U32) || (bits == 64 && n < U64)
    ensures text == FormatUnsigned(n) + NUL
  {
    var r := Formatting.WithCStr(FormatUnsigned(n), UnsignedBound(bits, WIDEST) + 1);
    if bits == 32 {
      Width32(WIDEST, n);
    } else {
      Width64(WIDEST, n);
    }
    return r.value;
  }

  method ApplyTmpfsSize(fs: FsContext, size: TmpfsSize, maxInodes: Option<Unsigned64>) returns (ok: bool)
    requires fs.isOpen
    modifies fs`parameters
    ensures fs.kernel.faultless ==> ok
    ensures ok ==> fs.parameters == old(fs.parameters) + SizeParameters(size, maxInodes)
  {
    var text := Formatting.FormatTmpfsSize(size);
    ok := fs.SetString("size", text.value);
    if ok && maxInodes.Some? {
      var inodes := NumberText(maxInodes.value, 64);
      ok := fs.SetString("nr_inodes", inodes);
    }
  }

  /** Fills the four places from the last to the first. */
  method FormatMode(permissions: nat) returns (text: seq<Byte>)
    ensures text == OctalText(permissions % MODE_MASK, MODE_DIGITS) + NUL
  {
    var mode := new Byte[MODE_DIGITS + 1](_ => ZERO);
    mode[MODE_DIGITS] := 0;
    var rest: nat := permissions % MODE_MASK;
    var place := MODE_DIGITS;
    while place > 0
      invariant 0 <= place <= MODE_DIGITS && mode[MODE_DIGITS] == 0
      invariant OctalText(permissions % MODE_MASK, MODE_DIGITS) == OctalText(rest, place) + mode[place..MODE_DIGITS]
    {
      place := place - 1;
      mode[place] := ZERO + rest % 8;
      rest := rest / 8;
    }
    assert mode[..] == mode[0..MODE_DIGITS] + NUL;
    return mode[..];
  }

  method MountProcfs(
    kernel: FsKernel, hidepid: Hidepid, gid: Option<Unsigned32>, subsetPid: bool, namespace: Option<HostFd>,
    attributes: Attributes)
    returns (r: Option<Filesystem>)
    ensures Answers(kernel, Configured(Procfs(hidepid, gid, subsetPid, namespace, attributes)), r)
  {
    var fs := new FsContext("proc", kernel);
    var ok := fs.Open();
    if !ok {
      return None;
    }
    ok := SetProcParameters(fs, hidepid, gid, subsetPid, namespace);
    if !ok {
      return None;
    }
    assert fs.parameters == ProcParameters(hidepid, gid, subsetPid, namespace);
    r := fs.Mount(true, attributes);
  }

  method SetProcParameters(
    fs: FsContext, hidepid: Hidepid, gid: Option<Unsigned32>, subsetPid: bool, namespace: Option<HostFd>)
    returns (ok: bool)
    requires fs.isOpen && fs.parameters == []
    modifies fs`parameters
    ensures fs.kernel.faultless ==> ok
    ensures ok ==> fs.parameters == ProcParameters(hidepid, gid, subsetPid, namespace)
  {
    ok := fs.SetString("hidepid", HidepidText(hidepid) + NUL);
    if ok && gid.Some? {
      var text := NumberText(gid.value, 32);
      ok := fs.SetString("gid", text);
    }
    if ok && subsetPid {
      ok := fs.SetString("subset", Text("pid") + NUL);
    }
    if ok && namespace.Some? {
      ok := fs.SetFd("pidns", namespace.value);
    }
  }

  method MountMqueue(kernel: FsKernel, attributes: Attributes) returns (r: Option<Filesystem>)
    ensures Answers(kernel, Configured(Mqueue(attributes)), r)
  {
    var fs := new FsContext("mqueue", kernel);
    var ok := fs.Open();
    if !ok {
      return None;
    }
    r := fs.Mount(false, attributes);
  }

  method MountTmpfs(
    kernel: FsKernel, size: TmpfsSize, maxInodes: Option<Unsigned64>, permissions: nat, attributes: Attributes)
    returns (r: Option<Filesystem>)
    ensures Answers(kernel, Configured(Tmpfs(size, maxInodes, permissions, attributes)), r)
  {
    var fs := new FsContext("tmpfs", kernel);
    var ok := fs.Open();
    if ok {
      ok := ApplyTmpfsSize(fs, size, maxInodes);
    }
    if ok {
      var mode := FormatMode(permissions);
      ok := fs.SetString("mode", mode);
    }
    if !ok {
      return None;
    }
    assert fs.parameters == TmpfsParameters(size, maxInodes, permissions);
    r := fs.Mount(true, attributes);
  }

  method MountUpperTmpfs(kernel: FsKernel, size: TmpfsSize, maxInodes: Option<Unsigned64>)
    returns (r: Option<Filesystem>)
    ensures Answers(kernel, UpperTmpfs(size, maxInodes), r)
  {
    var fs := new FsContext("tmpfs", kernel);
    var ok := fs.Open();
    if ok {
      ok := ApplyTmpfsSize(fs, size, maxInodes);
    }
    if !ok {
      return None;
    }
    assert fs.parameters == SizeParameters(size, maxInodes);
    r := fs.Mount(true, Attributes(false, true, true, false, false));
  }
}
