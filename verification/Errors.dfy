/** Error numbers and system call tags (meowix, errno.rs and errors.rs). */
module Errors {
  import opened Bytes
  import opened Wrappers

  // ----- errno -----

  /** An error number, stored negated in 16 bits. */
  type Errno = e: int | 0xf001 <= e <= 0xffff witness 0xffff

  /** The 16-bit word read as a signed integer, negated. */
  function RawOsError(e: Errno): (raw: int)
    ensures 1 <= raw <= 4095
  {
    -(e - U16)
  }

  /** `raw as u32`, checked to be an error number, negated and cut to 16 bits. */
  function FromRawOsError(raw: int): (e: Option<Errno>)
    requires -0x8000_0000 <= raw < 0x8000_0000
    ensures e.Some? <==> 1 <= raw <= 4095
  {
    var unsigned := FromI32(raw);
    if 1 <= unsigned <= 4095 then Some((U32 - unsigned) % U16) else None
  }

  /** Both directions of the storage format. */
  lemma ErrnoRoundTrip(e: Errno, raw: int)
    requires -0x8000_0000 <= raw < 0x8000_0000
    ensures FromRawOsError(RawOsError(e)) == Some(e)
    ensures FromRawOsError(raw).Some? ==> RawOsError(FromRawOsError(raw).value) == raw
  {
    assert (U32 - RawOsError(e)) % U16 == e;
    if 1 <= raw <= 4095 {
      assert (U32 - raw) % U16 == U16 - raw;
    }
  }

  /** The stored word is the 16-bit two's complement of the error number, and only 1 to 4095 are error numbers. */
  lemma ErrnoExactly(e: Errno, raw: int)
    requires -0x8000_0000 <= raw < 0x8000_0000
    ensures RawOsError(e) + e == 0x1_0000
    ensures FromRawOsError(raw) == if raw < 1 || raw > 4095 then None else Some(0x1_0000 - raw)
  {
    if 1 <= raw <= 4095 {
      assert (U32 - raw) % U16 == U16 - raw;
    }
  }

  // ----- system calls -----

  datatype Syscall =
    | Pipe2 | Clone3 | Openat2 | Write | OpenTree | OpenTreeAttr | Dup3 | MountSetattr | Statx | Read
    | Mkdirat | Eventfd2 | CloseRange | Capset | Prctl | Unshare | Setsid | Setdomainname | Sethostname
    | Chdir | Umount2 | Chroot | MoveMount | Fchdir | Fsmount | Fsconfig | Fsopen | Mount | Setns
    | RtSigaction | RtSigprocmask | Ppoll | Recvmsg | Sendto | Socket | Ioctl | PidfdOpen | Getegid | Geteuid
    | Gettid | PidfdSendSignal | Umask | Waitid | Execveat | Symlinkat | Fcntl | Seccomp | Keyctl | Prlimit64
    | SchedSetattr | Close | Getdents64 | Lseek | Writev | Flock | Readv | Linkat | Fsetxattr | Fchmod
    | Unknown

  /** The discriminant of the `u8` representation. */
  function Discriminant(syscall: Syscall): (tag: nat)
    ensures tag <= 58 || (tag == 255 && syscall == Unknown)
  {
    match syscall
    case Pipe2 => 0
    case Clone3 => 1
    case Openat2 => 2
    case Write => 3
    case OpenTree => 4
    case OpenTreeAttr => 5
    case Dup3 => 6
    case MountSetattr => 7
    case Statx => 8
    case Read => 9
    case Mkdirat => 10
    case Eventfd2 => 11
    case CloseRange => 12
    case Capset => 13
    case Prctl => 14
    case Unshare => 15
    case Setsid => 16
    case Setdomainname => 17
    case Sethostname => 18
    case Chdir => 19
    case Umount2 => 20
    case Chroot => 21
    case MoveMount => 22
    case Fchdir => 23
    case Fsmount => 24
    case Fsconfig => 25
    case Fsopen => 26
    case Mount => 27
    case Setns => 28
    case RtSigaction => 29
    case RtSigprocmask => 30
    case Ppoll => 31
    case Recvmsg => 32
    case Sendto => 33
    case Socket => 34
    case Ioctl => 35
    case PidfdOpen => 36
    case Getegid => 37
    case Geteuid => 38
    case Gettid => 39
    case PidfdSendSignal => 40
    case Umask => 41
    case Waitid => 42
    case Execveat => 43
    case Symlinkat => 44
    case Fcntl => 45
    case Seccomp => 46
    case Keyctl => 47
    case Prlimit64 => 48
    case SchedSetattr => 49
    case Close => 50
    case Getdents64 => 51
    case Lseek => 52
    case Writev => 53
    case Flock => 54
    case Readv => 55
    case Linkat => 56
    case Fsetxattr => 57
    case Fchmod => 58
    case Unknown => 255
  }

  function SyscallFromByte(tag: nat): Syscall {
    if tag < 15 then SyscallBelow15(tag)
    else if tag < 30 then SyscallBelow30(tag)
    else if tag < 45 then SyscallBelow45(tag)
    else SyscallFrom45(tag)
  }

  function SyscallBelow15(tag: nat): Syscall {
    match tag
    case 0 => Pipe2
    case 1 => Clone3
    case 2 => Openat2
    case 3 => Write
    case 4 => OpenTree
    case 5 => OpenTreeAttr
    case 6 => Dup3
    case 7 => MountSetattr
    case 8 => Statx
    case 9 => Read
    case 10 => Mkdirat
    case 11 => Eventfd2
    case 12 => CloseRange
    case 13 => Capset
    case 14 => Prctl
    case _ => Unknown
  }

  function SyscallBelow30(tag: nat): Syscall {
    match tag
    case 15 => Unshare
    case 16 => Setsid
    case 17 => Setdomainname
    case 18 => Sethostname
    case 19 => Chdir
    case 20 => Umount2
    case 21 => Chroot
    case 22 => MoveMount
    case 23 => Fchdir
    case 24 => Fsmount
    case 25 => Fsconfig
    case 26 => Fsopen
    case 27 => Mount
    case 28 => Setns
    case 29 => RtSigaction
    case _ => Unknown
  }

  function SyscallBelow45(tag: nat): Syscall {
    match tag
    case 30 => RtSigprocmask
    case 31 => Ppoll
    case 32 => Recvmsg
    case 33 => Sendto
    case 34 => Socket
    case 35 => Ioctl
    case 36 => PidfdOpen
    case 37 => Getegid
    case 38 => Geteuid
    case 39 => Gettid
    case 40 => PidfdSendSignal
    case 41 => Umask
    case 42 => Waitid
    case 43 => Execveat
    case 44 => Symlinkat
    case _ => Unknown
  }

  function SyscallFrom45(tag: nat): Syscall {
    match tag
    case 45 => Fcntl
    case 46 => Seccomp
    case 47 => Keyctl
    case 48 => Prlimit64
    case 49 => SchedSetattr
    case 50 => Close
    case 51 => Getdents64
    case 52 => Lseek
    case 53 => Writev
    case 54 => Flock
    case 55 => Readv
    case 56 => Linkat
    case 57 => Fsetxattr
    case 58 => Fchmod
    case _ => Unknown
  }

  /** The two tables agree. */
  lemma SyscallRoundTrip(syscall: Syscall)
    ensures SyscallFromByte(Discriminant(syscall)) == syscall
  {
    var tag := Discriminant(syscall);
    if tag < 15 {
      RoundTripBelow15(syscall);
    } else if tag < 30 {
      RoundTripBelow30(syscall);
    } else if tag < 45 {
      RoundTripBelow45(syscall);
    } else {
      RoundTripFrom45(syscall);
    }
  }

  // The tag of a system call is its place in the declaration, and a byte beyond the last place is `Unknown`.

  lemma TableBelow15()
    ensures SyscallFromByte(0) == Pipe2 && SyscallFromByte(1) == Clone3 && SyscallFromByte(2) == Openat2
    ensures SyscallFromByte(3) == Write && SyscallFromByte(4) == OpenTree && SyscallFromByte(5) == OpenTreeAttr
    ensures SyscallFromByte(6) == Dup3 && SyscallFromByte(7) == MountSetattr && SyscallFromByte(8) == Statx
    ensures SyscallFromByte(9) == Read && SyscallFromByte(10) == Mkdirat && SyscallFromByte(11) == Eventfd2
    ensures SyscallFromByte(12) == CloseRange && SyscallFromByte(13) == Capset && SyscallFromByte(14) == Prctl
  {
  }

  lemma TableBelow30()
    ensures SyscallFromByte(15) == Unshare && SyscallFromByte(16) == Setsid && SyscallFromByte(17) == Setdomainname
    ensures SyscallFromByte(18) == Sethostname && SyscallFromByte(19) == Chdir && SyscallFromByte(20) == Umount2
    ensures SyscallFromByte(21) == Chroot && SyscallFromByte(22) == MoveMount && SyscallFromByte(23) == Fchdir
    ensures SyscallFromByte(24) == Fsmount && SyscallFromByte(25) == Fsconfig && SyscallFromByte(26) == Fsopen
    ensures SyscallFromByte(27) == Mount && SyscallFromByte(28) == Setns && SyscallFromByte(29) == RtSigaction
  {
  }

  lemma TableBelow45()
    ensures SyscallFromByte(30) == RtSigprocmask && SyscallFromByte(31) == Ppoll && SyscallFromByte(32) == Recvmsg
    ensures SyscallFromByte(33) == Sendto && SyscallFromByte(34) == Socket && SyscallFromByte(35) == Ioctl
    ensures SyscallFromByte(36) == PidfdOpen && SyscallFromByte(37) == Getegid && SyscallFromByte(38) == Geteuid
    ensures SyscallFromByte(39) == Gettid && SyscallFromByte(40) == PidfdSendSignal && SyscallFromByte(41) == Umask
    ensures SyscallFromByte(42) == Waitid && SyscallFromByte(43) == Execveat && SyscallFromByte(44) == Symlinkat
  {
  }

  lemma TableFrom45(tag: Byte)
    ensures SyscallFromByte(45) == Fcntl && SyscallFromByte(46) == Seccomp && SyscallFromByte(47) == Keyctl
    ensures SyscallFromByte(48) == Prlimit64 && SyscallFromByte(49) == SchedSetattr && SyscallFromByte(50) == Close
    ensures SyscallFromByte(51) == Getdents64 && SyscallFromByte(52) == Lseek && SyscallFromByte(53) == Writev
    ensures SyscallFromByte(54) == Flock && SyscallFromByte(55) == Readv && SyscallFromByte(56) == Linkat
    ensures SyscallFromByte(57) == Fsetxattr && SyscallFromByte(58) == Fchmod
    ensures tag >= 59 ==> SyscallFromByte(tag) == Unknown
  {
  }

  lemma RoundTripBelow15(syscall: Syscall)
    requires Discriminant(syscall) < 15
    ensures SyscallBelow15(Discriminant(syscall)) == syscall
  {
  }

  lemma RoundTripBelow30(syscall: Syscall)
    requires 15 <= Discriminant(syscall) < 30
    ensures SyscallBelow30(Discriminant(syscall)) == syscall
  {
  }

  lemma RoundTripBelow45(syscall: Syscall)
    requires 30 <= Discriminant(syscall) < 45
    ensures SyscallBelow45(Discriminant(syscall)) == syscall
  {
  }

  lemma RoundTripFrom45(syscall: Syscall)
    requires 45 <= Discriminant(syscall)
    ensures SyscallFrom45(Discriminant(syscall)) == syscall
  {
  }

  datatype SyscallError = SyscallError(syscall: Syscall, error: Errno)

  datatype Netlink =
    | MalformedHeader
    | TruncatedMessage
    | SequenceMismatch
    | IncorrectSize
    | BufferTooSmall
    | IntegerOverflow
    | IncompleteWrite
    | AckTimeout
    | NetlinkErrno(error: Errno)
    | InvalidError(code: int)
    | NetlinkSyscall(failure: SyscallError)
}
