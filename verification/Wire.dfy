/** The six-byte record a guest sends to its host (spawn/wire.rs, spawn/errors.rs). */
module Wire {
  import opened Bytes
  import opened Wrappers
  import opened Errors

  datatype Other =
    | InvalidCgroupsState
    | OtherBufferTooSmall
    | OtherIntegerOverflow
    | InvalidDirectoryMountPoint
    | InvalidRegularFileMountPoint
    | DestinationExists
    | MappingsLengthMismatch
    | NonzeroResolvedLen
    | HostSourcedFileMismatch

  datatype GuestError =
    | GuestSyscall(failure: SyscallError)
    | GuestNetlink(netlink: Netlink)
    | GuestOther(other: Other)
    | GuestIncompleteWrite
    | CStrBufferTooSmall
    | FromBytesWithNulError
    | InvalidWireFormat

  type GuestResult = Result<(), GuestError>

  predicate IsI32(i: int) {
    -0x8000_0000 <= i < 0x8000_0000
  }

  /** Results whose integers have the widths of the program. */
  predicate Representable(r: GuestResult) {
    r.Err? && r.error.GuestNetlink? && r.error.netlink.InvalidError? ==> IsI32(r.error.netlink.code)
  }

  datatype Record = Record(tag: Byte, subtag: Byte, value: int)

  predicate WellTyped(record: Record) {
    IsI32(record.value)
  }

  function OtherTag(other: Other): (tag: Byte)
    ensures tag <= 8
  {
    match other
    case InvalidCgroupsState => 0
    case OtherBufferTooSmall => 1
    case OtherIntegerOverflow => 2
    case InvalidDirectoryMountPoint => 3
    case InvalidRegularFileMountPoint => 4
    case DestinationExists => 5
    case MappingsLengthMismatch => 6
    case NonzeroResolvedLen => 7
    case HostSourcedFileMismatch => 8
  }

  function ErrorFromTag(tag: Byte): GuestError {
    match tag
    case 0 => GuestOther(InvalidCgroupsState)
    case 1 => GuestOther(OtherBufferTooSmall)
    case 2 => GuestOther(OtherIntegerOverflow)
    case 3 => GuestOther(InvalidDirectoryMountPoint)
    case 4 => GuestOther(InvalidRegularFileMountPoint)
    case 5 => GuestOther(DestinationExists)
    case 6 => GuestOther(MappingsLengthMismatch)
    case 7 => GuestOther(NonzeroResolvedLen)
    case 8 => GuestOther(HostSourcedFileMismatch)
    case _ => InvalidWireFormat
  }

  /** Subtag and value of a netlink error; system call tags are shifted by one. */
  function EncodeNetlink(netlink: Netlink): (Byte, int) {
    match netlink
    case MalformedHeader => (0, 1)
    case TruncatedMessage => (0, 2)
    case SequenceMismatch => (0, 3)
    case IncorrectSize => (0, 4)
    case BufferTooSmall => (0, 5)
    case IntegerOverflow => (0, 6)
    case IncompleteWrite => (0, 7)
    case AckTimeout => (0, 8)
    case NetlinkErrno(error) => (255, RawOsError(error))
    case InvalidError(code) => (254, code)
    case NetlinkSyscall(failure) =>
      if Discriminant(failure.syscall) < 255 then (Discriminant(failure.syscall) + 1, RawOsError(failure.error))
      else (0, 0x7fff_ffff)
  }

  function EncodeResult(r: GuestResult): Record {
    match r
    case Ok(_) => Record(255, 0, 0)
    case Err(GuestSyscall(failure)) => Record(254, Discriminant(failure.syscall), RawOsError(failure.error))
    case Err(GuestNetlink(netlink)) =>
      var (subtag, value) := EncodeNetlink(netlink);
      Record(253, subtag, value)
    case Err(GuestIncompleteWrite) => Record(252, 0, 0)
    case Err(CStrBufferTooSmall) => Record(251, 0, 0)
    case Err(FromBytesWithNulError) => Record(250, 0, 0)
    case Err(InvalidWireFormat) => Record(249, 0, 0)
    case Err(GuestOther(other)) => Record(OtherTag(other), 0, 0)
  }

  function DecodeNetlink(subtag: Byte, value: int): GuestResult
    requires IsI32(value)
  {
    if subtag == 0 then
      match value
      case 1 => Err(GuestNetlink(MalformedHeader))
      case 2 => Err(GuestNetlink(TruncatedMessage))
      case 3 => Err(GuestNetlink(SequenceMismatch))
      case 4 => Err(GuestNetlink(IncorrectSize))
      case 5 => Err(GuestNetlink(BufferTooSmall))
      case 6 => Err(GuestNetlink(IntegerOverflow))
      case 7 => Err(GuestNetlink(IncompleteWrite))
      case 8 => Err(GuestNetlink(AckTimeout))
      case _ => Err(InvalidWireFormat)
    else if subtag == 255 then
      match FromRawOsError(value)
      case Some(error) => Err(GuestNetlink(NetlinkErrno(error)))
      case None => Err(InvalidWireFormat)
    else if subtag == 254 then Err(GuestNetlink(InvalidError(value)))
    else
      match FromRawOsError(value)
      case Some(error) => Err(GuestNetlink(NetlinkSyscall(SyscallError(SyscallFromByte(subtag - 1), error))))
      case None => Err(InvalidWireFormat)
  }

  function DecodeResult(record: Record): GuestResult
    requires WellTyped(record)
  {
    if record.tag == 255 then Ok(())
    else if record.tag == 254 then
      match FromRawOsError(record.value)
      case Some(error) => Err(GuestSyscall(SyscallError(SyscallFromByte(record.subtag), error)))
      case None => Err(InvalidWireFormat)
    else if record.tag == 253 then DecodeNetlink(record.subtag, record.value)
    else if record.tag == 252 then Err(GuestIncompleteWrite)
    else if record.tag == 251 then Err(CStrBufferTooSmall)
    else if record.tag == 250 then Err(FromBytesWithNulError)
    else Err(ErrorFromTag(record.tag))
  }

  /** What survives the codec: everything, except a netlink failure of an unrecognised system call. */
  function Canonical(r: GuestResult): GuestResult {
    if r.Err? && r.error.GuestNetlink? && r.error.netlink.NetlinkSyscall? &&
       r.error.netlink.failure.syscall == Unknown
    then Err(InvalidWireFormat)
    else r
  }

  /** Decoding an encoded result gives its canonical form, so success and errors never mix. */
  lemma DecodeEncodeResult(r: GuestResult)
    requires Representable(r)
    ensures WellTyped(EncodeResult(r))
    ensures DecodeResult(EncodeResult(r)) == Canonical(r)
    ensures DecodeResult(EncodeResult(r)).Ok? <==> r.Ok?
  {
    match r
    case Ok(unit) =>
      assert unit == ();
    case Err(GuestSyscall(failure)) =>
      ErrnoRoundTrip(failure.error, 0);
      SyscallRoundTrip(failure.syscall);
    case Err(GuestNetlink(netlink)) =>
      DecodeEncodeNetlink(netlink);
    case Err(GuestOther(other)) =>
      OtherRoundTrip(other);
    case _ =>
  }

  /** The shifted system call tags never meet the reserved subtags. */
  lemma DecodeEncodeNetlink(netlink: Netlink)
    requires netlink.InvalidError? ==> IsI32(netlink.code)
    ensures IsI32(EncodeNetlink(netlink).1)
    ensures DecodeNetlink(EncodeNetlink(netlink).0, EncodeNetlink(netlink).1) ==
      Canonical(Err(GuestNetlink(netlink)))
  {
    match netlink
    case NetlinkErrno(error) =>
      ErrnoRoundTrip(error, 0);
    case NetlinkSyscall(failure) =>
      ErrnoRoundTrip(failure.error, 0);
      SyscallRoundTrip(failure.syscall);
    case _ =>
  }

  lemma OtherRoundTrip(other: Other)
    ensures ErrorFromTag(OtherTag(other)) == GuestOther(other)
  {
  }

  /** The round trip is exact precisely outside that one family. */
  lemma RoundTripExactlyWhen(r: GuestResult)
    requires Representable(r)
    ensures WellTyped(EncodeResult(r))
    ensures DecodeResult(EncodeResult(r)) == r <==>
      !(r.Err? && r.error.GuestNetlink? && r.error.netlink.NetlinkSyscall? &&
        r.error.netlink.failure.syscall == Unknown)
  {
    DecodeEncodeResult(r);
  }

  // ----- bytes on the pipe -----

  const RECORD_SIZE := 6

  function ToBytes(record: Record): (bytes: seq<Byte>)
    requires WellTyped(record)
    ensures |bytes| == RECORD_SIZE
  {
    [record.tag, record.subtag] + Encode32(FromI32(record.value))
  }

  function FromBytes(bytes: seq<Byte>): (record: Record)
    requires |bytes| == RECORD_SIZE
    ensures WellTyped(record)
  {
    Record(bytes[0], bytes[1], ToI32(Word32At(bytes, 2)))
  }

  function Send(r: GuestResult): (bytes: seq<Byte>)
    requires Representable(r)
    ensures |bytes| == RECORD_SIZE
  {
    DecodeEncodeResult(r);
    ToBytes(EncodeResult(r))
  }

  function Receive(bytes: seq<Byte>): GuestResult
    requires |bytes| == RECORD_SIZE
  {
    DecodeResult(FromBytes(bytes))
  }

  lemma ReceiveSend(r: GuestResult)
    requires Representable(r)
    ensures Receive(Send(r)) == Canonical(r)
  {
    DecodeEncodeResult(r);
    BytesRoundTrip(EncodeResult(r));
  }

  lemma BytesRoundTrip(record: Record)
    requires WellTyped(record)
    ensures FromBytes(ToBytes(record)) == record
  {
    var word := FromI32(record.value);
    var bytes := ToBytes(record);
    assert Word32At(bytes, 2) == Word32At(Encode32(word), 0);
    Word32(word);
    assert FromBytes(bytes) == Record(bytes[0], bytes[1], ToI32(word));
  }

  /** The last four of six bytes as a signed number, the least significant byte first. */
  ghost function Number(bytes: seq<Byte>): int
    requires |bytes| == 6
  {
    bytes[2] as int + 0x100 * (bytes[3] as int) + 0x1_0000 * (bytes[4] as int) + 0x100_0000 * (bytes[5] as int) -
    if bytes[5] < 128 then 0 else 0x1_0000_0000
  }

  /** Results without data are sent as fixed bytes. */
  lemma SentMarks()
    ensures Send(Ok(())) == [255, 0, 0, 0, 0, 0]
    ensures Send(Err(GuestIncompleteWrite)) == [252, 0, 0, 0, 0, 0]
    ensures Send(Err(CStrBufferTooSmall)) == [251, 0, 0, 0, 0, 0]
    ensures Send(Err(FromBytesWithNulError)) == [250, 0, 0, 0, 0, 0]
    ensures Send(Err(InvalidWireFormat)) == [249, 0, 0, 0, 0, 0]
  {
  }

  /** The other errors are numbered in the order of their declaration. */
  lemma SentOther(other: Other)
    ensures Send(Err(GuestOther(other))) == [
      match other
      case InvalidCgroupsState => 0
      case OtherBufferTooSmall => 1
      case OtherIntegerOverflow => 2
      case InvalidDirectoryMountPoint => 3
      case InvalidRegularFileMountPoint => 4
      case DestinationExists => 5
      case MappingsLengthMismatch => 6
      case NonzeroResolvedLen => 7
      case HostSourcedFileMismatch => 8,
      0, 0, 0, 0, 0]
  {
  }

  /** Netlink errors without data are numbered from one under the subtag zero. */
  lemma SentNetlink(netlink: Netlink)
    requires !netlink.NetlinkErrno? && !netlink.InvalidError? && !netlink.NetlinkSyscall?
    ensures Send(Err(GuestNetlink(netlink))) == [253, 0,
      match netlink
      case MalformedHeader => 1
      case TruncatedMessage => 2
      case SequenceMismatch => 3
      case IncorrectSize => 4
      case BufferTooSmall => 5
      case IntegerOverflow => 6
      case IncompleteWrite => 7
      case AckTimeout => 8,
      0, 0, 0]
  {
  }

  /** Failed system calls carry the tag of the call and the error number. */
  lemma SentSyscall(failure: SyscallError)
    ensures
      var bytes := Send(Err(GuestSyscall(failure)));
      bytes[0] == 254 && SyscallFromByte(bytes[1]) == failure.syscall && Number(bytes) == RawOsError(failure.error)
    ensures failure.syscall == Unknown ==> Send(Err(GuestSyscall(failure)))[1] == 255
    ensures
      var bytes := Send(Err(GuestNetlink(NetlinkSyscall(failure))));
      if failure.syscall == Unknown then bytes == [253, 0, 255, 255, 255, 127]
      else bytes[0] == 253 && 1 <= bytes[1] <= 59 && SyscallFromByte(bytes[1] - 1) == failure.syscall &&
           Number(bytes) == RawOsError(failure.error)
  {
    SyscallRoundTrip(failure.syscall);
    NumberSent(EncodeResult(Err(GuestSyscall(failure))));
    NumberSent(EncodeResult(Err(GuestNetlink(NetlinkSyscall(failure)))));
  }

  /** The kernel's own answers carry their number under one of the two reserved subtags. */
  lemma SentAnswer(error: Errno, code: int)
    requires IsI32(code)
    ensures
      var bytes := Send(Err(GuestNetlink(NetlinkErrno(error))));
      bytes[0] == 253 && bytes[1] == 255 && Number(bytes) == RawOsError(error)
    ensures
      var bytes := Send(Err(GuestNetlink(InvalidError(code))));
      bytes[0] == 253 && bytes[1] == 254 && Number(bytes) == code
  {
    NumberSent(EncodeResult(Err(GuestNetlink(NetlinkErrno(error)))));
    NumberSent(EncodeResult(Err(GuestNetlink(InvalidError(code)))));
  }

  lemma NumberSent(record: Record)
    requires WellTyped(record)
    ensures Number(ToBytes(record)) == record.value
  {
    BytesRoundTrip(record);
    NumberReceived(ToBytes(record));
  }

  lemma NumberReceived(bytes: seq<Byte>)
    requires |bytes| == 6
    ensures FromBytes(bytes) == Record(bytes[0], bytes[1], Number(bytes))
  {
  }

  /** What the host makes of any six bytes, foreign ones included. */
  lemma ReceivedExactly(bytes: seq<Byte>)
    requires |bytes| == 6
    ensures
      var kind, subkind, number, r := bytes[0], bytes[1], Number(bytes), Receive(bytes);
      && (r.Ok? <==> kind == 255)
      && (forall failure :: r == Err(GuestSyscall(failure)) <==>
            kind == 254 && SyscallFromByte(subkind) == failure.syscall && number == RawOsError(failure.error))
      && (forall failure :: r == Err(GuestNetlink(NetlinkSyscall(failure))) <==>
            kind == 253 && 1 <= subkind < 254 &&
            SyscallFromByte(subkind - 1) == failure.syscall && number == RawOsError(failure.error))
      && (forall error :: r == Err(GuestNetlink(NetlinkErrno(error))) <==>
            kind == 253 && subkind == 255 && number == RawOsError(error))
      && (forall code :: r == Err(GuestNetlink(InvalidError(code))) <==>
            kind == 253 && subkind == 254 && number == code)
      && (r == Err(InvalidWireFormat) <==>
            || 8 < kind < 250
            || (kind == 253 && subkind == 0 && !(1 <= number <= 8))
            || ((kind == 254 || (kind == 253 && subkind != 0 && subkind != 254)) && !(1 <= number <= 4095)))
  {
    NumberReceived(bytes);
    ErrnoNumbers(Number(bytes));
  }

  lemma ErrnoNumbers(raw: int)
    requires IsI32(raw)
    ensures forall error: Errno :: FromRawOsError(raw) == Some(error) <==> raw == RawOsError(error)
  {
    forall error: Errno ensures FromRawOsError(raw) == Some(error) <==> raw == RawOsError(error) {
      ErrnoRoundTrip(error, raw);
    }
  }

  /** The first byte alone decides success. */
  lemma ReceiveOk(bytes: seq<Byte>)
    requires |bytes| == RECORD_SIZE
    ensures Receive(bytes).Ok? <==> bytes[0] == 255
  {
  }
}
