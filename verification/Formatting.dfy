/** Fixed-buffer formatting: time offsets, id maps, tmpfs sizes (spawn/fmt.rs, spawn/namespace.rs, spawn/mounts.rs). */
module Formatting {
  import opened Bytes
  import opened Splitting
  import opened Wrappers
  import opened Digits

  datatype Error = BufferTooSmall | IncompleteWrite | Syscall

  const SPACE: Byte := 32
  const ONE: Byte := 49

  // ----- the primitives -----

  /** Appends at the offset; on failure neither the buffer nor the offset changes. */
  method WriteBytes(buffer: array<Byte>, offset: nat, bytes: seq<Byte>) returns (r: Result<nat, Error>)
    requires offset <= buffer.Length
    modifies buffer
    ensures r == if offset + |bytes| <= buffer.Length then Ok(offset + |bytes|) else Err(BufferTooSmall)
    ensures r.Ok? ==> buffer[..r.value] == old(buffer[..offset]) + bytes
    ensures r.Err? ==> buffer[..] == old(buffer[..])
  {
    var end := offset + |bytes|;
    if end > buffer.Length {
      return Err(BufferTooSmall);
    }
    forall i | 0 <= i < |bytes| {
      buffer[offset + i] := bytes[i];
    }
    return Ok(end);
  }

  method WriteInteger(buffer: array<Byte>, offset: nat, integer: int) returns (r: Result<nat, Error>)
    requires offset <= buffer.Length
    modifies buffer
    ensures r == if offset + |FormatSigned(integer)| <= buffer.Length then Ok(offset + |FormatSigned(integer)|)
                 else Err(BufferTooSmall)
    ensures r.Ok? ==> buffer[..r.value] == old(buffer[..offset]) + FormatSigned(integer)
    ensures r.Err? ==> buffer[..] == old(buffer[..])
  {
    r := WriteBytes(buffer, offset, FormatSigned(integer));
  }

  /** After a failure: some writes of the list are complete, and the next one is partial or missing. */
  ghost predicate CutShort(
    before: seq<(string, seq<Byte>)>, writes: seq<(string, seq<Byte>)>, after: seq<(string, seq<Byte>)>, error: Error)
  {
    exists k :: 0 <= k < |writes| && CutShortAt(before, writes, after, error, k)
  }

  ghost predicate CutShortAt(
    before: seq<(string, seq<Byte>)>, writes: seq<(string, seq<Byte>)>, after: seq<(string, seq<Byte>)>, error: Error,
    k: nat)
    requires k < |writes|
  {
    var last := |after| - 1;
    match error
    case Syscall => after == before + writes[..k]
    case IncompleteWrite =>
      last >= 0 && after == before + writes[..k] + [after[last]] &&
      after[last].0 == writes[k].0 && after[last].1 < writes[k].1
    case BufferTooSmall => false
  }

  /** Files under proc; a write is complete, short or refused. */
  class ProcFiles {
    const faultless: bool
    var written: seq<(string, seq<Byte>)>

    constructor (faultless: bool)
      ensures written == [] && this.faultless == faultless
    {
      this.faultless := faultless;
      written := [];
    }

    /** One `write(2)` whose count is compared with the length. */
    method WriteChecked(file: string, bytes: seq<Byte>) returns (r: Result<(), Error>)
      modifies this
      ensures r.Ok? ==> written == old(written) + [(file, bytes)]
      ensures r.Err? ==> !faultless && CutShort(old(written), [(file, bytes)], written, r.error)
    {
      var fails: bool := *;
      ghost var writes := [(file, bytes)];
      if fails && !faultless {
        assert CutShortAt(written, writes, written, Syscall, 0);
        return Err(Syscall);
      }
      var count: nat :| count <= |bytes| && (faultless ==> count == |bytes|);
      written := written + [(file, bytes[..count])];
      assert bytes[..|bytes|] == bytes;
      if count != |bytes| {
        assert CutShortAt(old(written), writes, written, IncompleteWrite, 0);
        return Err(IncompleteWrite);
      }
      return Ok(());
    }
  }

  // ----- time offsets -----

  datatype TimeOffset = TimeOffset(seconds: int, nanoseconds: nat)

  /** The raw widths: 64-bit signed seconds and 32-bit unsigned nanoseconds. */
  predicate RawOffset(offset: TimeOffset) {
    I64_MIN <= offset.seconds < -I64_MIN && offset.nanoseconds < U32
  }

  function OffsetBufferSize(): nat {
    SignedBound(64) + UnsignedBound(32, WIDEST) + 11
  }

  const MONOTONIC: seq<Byte> := [109, 111, 110, 111, 116, 111, 110, 105, 99]
  const BOOTTIME: seq<Byte> := [98, 111, 111, 116, 116, 105, 109, 101]

  function OffsetLine(clock: seq<Byte>, offset: TimeOffset): seq<Byte> {
    clock + [SPACE] + FormatSigned(offset.seconds) + [SPACE] + FormatSigned(offset.nanoseconds)
  }

  lemma OffsetBufferHolds(clock: seq<Byte>, offset: TimeOffset)
    requires RawOffset(offset) && |clock| <= 9
    ensures OffsetBufferSize() == 41 && |OffsetLine(clock, offset)| <= 41
  {
    SignedWidth64(offset.seconds);
    Width32(WIDEST, offset.nanoseconds);
  }

  /** The extreme monotonic offset of the raw widths needs the whole buffer. */
  lemma OffsetBufferTight()
    ensures RawOffset(TimeOffset(I64_MIN, U32 - 1)) && RawOffset(TimeOffset(-1 - I64_MIN, 0))
    ensures |OffsetLine(MONOTONIC, TimeOffset(I64_MIN, U32 - 1))| == OffsetBufferSize()
  {
    SignedWidth64(I64_MIN);
    Width32(WIDEST, U32 - 1);
  }

  /** A line of three fields, read back as a clock and two numbers. */
  function ParseOffsetLine(line: seq<Byte>): Option<(seq<Byte>, int, int)> {
    var fields := Fields(SPACE, line);
    if |fields| != 3 then None
    else
      match (ParseSigned(fields[1]), ParseSigned(fields[2]))
      case (Some(seconds), Some(nanoseconds)) => Some((fields[0], seconds, nanoseconds))
      case _ => None
  }

  lemma ThreeFields(a: seq<Byte>, b: seq<Byte>, c: seq<Byte>)
    requires SPACE !in a && SPACE !in b && SPACE !in c
    ensures Fields(SPACE, a + [SPACE] + b + [SPACE] + c) == [a, b, c]
  {
    FieldsConcat(SPACE, a + [SPACE] + b, c);
    FieldsConcat(SPACE, a, b);
    FieldsSingle(SPACE, a);
    FieldsSingle(SPACE, b);
    FieldsSingle(SPACE, c);
  }

  lemma NumberHasNoSpace(i: int)
    ensures SPACE !in FormatSigned(i)
  {
  }

  /** What the kernel reads from the line is what the policy asked for. */
  lemma OffsetLineRoundTrip(clock: seq<Byte>, offset: TimeOffset)
    requires SPACE !in clock
    ensures ParseOffsetLine(OffsetLine(clock, offset)) == Some((clock, offset.seconds, offset.nanoseconds))
  {
    NumberHasNoSpace(offset.seconds);
    NumberHasNoSpace(offset.nanoseconds);
    ThreeFields(clock, FormatSigned(offset.seconds), FormatSigned(offset.nanoseconds));
    ParseFormatSigned(offset.seconds);
    ParseFormatSigned(offset.nanoseconds);
  }

  function OffsetLog(clock: seq<Byte>, offset: Option<TimeOffset>): seq<(string, seq<Byte>)> {
    match offset
    case None => []
    case Some(value) => [("timens_offsets", OffsetLine(clock, value))]
  }

  /** The writes for both clocks: `monotonic` first, then `boottime`, each with its seconds and nanoseconds. */
  lemma OffsetTexts(monotonic: Option<TimeOffset>, boottime: Option<TimeOffset>)
    ensures OffsetLog(MONOTONIC, monotonic) + OffsetLog(BOOTTIME, boottime) ==
      (if monotonic.None? then [] else [("timens_offsets",
         [109, 111, 110, 111, 116, 111, 110, 105, 99] + [32] + FormatSigned(monotonic.value.seconds) +
         [32] + FormatSigned(monotonic.value.nanoseconds))]) +
      (if boottime.None? then [] else [("timens_offsets",
         [98, 111, 111, 116, 116, 105, 109, 101] + [32] + FormatSigned(boottime.value.seconds) +
         [32] + FormatSigned(boottime.value.nanoseconds))])
  {
  }

  // a failure of one list of writes is a failure of any longer list

  lemma CutShortFirst(
    before: seq<(string, seq<Byte>)>, writes: seq<(string, seq<Byte>)>, rest: seq<(string, seq<Byte>)>,
    after: seq<(string, seq<Byte>)>, error: Error)
    requires CutShort(before, writes, after, error)
    ensures CutShort(before, writes + rest, after, error)
  {
    var k :| 0 <= k < |writes| && CutShortAt(before, writes, after, error, k);
    assert (writes + rest)[..k] == writes[..k];
    assert CutShortAt(before, writes + rest, after, error, k);
  }

  lemma CutShortLater(
    before: seq<(string, seq<Byte>)>, first: seq<(string, seq<Byte>)>, writes: seq<(string, seq<Byte>)>,
    after: seq<(string, seq<Byte>)>, error: Error)
    requires CutShort(before + first, writes, after, error)
    ensures CutShort(before, first + writes, after, error)
  {
    var k :| 0 <= k < |writes| && CutShortAt(before + first, writes, after, error, k);
    assert before + first + writes[..k] == before + (first + writes)[..|first| + k];
    assert CutShortAt(before, first + writes, after, error, |first| + k);
  }

  /** Formats one line into the buffer from its start. */
  method FormatOffset(buffer: array<Byte>, clock: seq<Byte>, offset: TimeOffset) returns (r: Result<nat, Error>)
    modifies buffer
    ensures r == if |OffsetLine(clock, offset)| <= buffer.Length then Ok(|OffsetLine(clock, offset)|)
                 else Err(BufferTooSmall)
    ensures r.Ok? ==> buffer[..r.value] == OffsetLine(clock, offset)
  {
    var at :- WriteBytes(buffer, 0, clock + [SPACE]);
    at :- WriteInteger(buffer, at, offset.seconds);
    at :- WriteBytes(buffer, at, [SPACE]);
    at :- WriteInteger(buffer, at, offset.nanoseconds);
    return Ok(at);
  }

  /** Writes the offsets of both clocks, one write each; the buffer is never too small. */
  method WriteTimensOffsets(proc: ProcFiles, monotonic: Option<TimeOffset>, boottime: Option<TimeOffset>)
    returns (r: Result<(), Error>)
    requires monotonic.Some? ==> RawOffset(monotonic.value)
    requires boottime.Some? ==> RawOffset(boottime.value)
    modifies proc
    ensures
      var writes := OffsetLog(MONOTONIC, monotonic) + OffsetLog(BOOTTIME, boottime);
      if r.Ok? then proc.written == old(proc.written) + writes
      else CutShort(old(proc.written), writes, proc.written, r.error)
    ensures proc.faultless ==> r.Ok?
  {
    var buffer := new Byte[OffsetBufferSize()](_ => 0);
    ghost var before := proc.written;
    ghost var first, second := OffsetLog(MONOTONIC, monotonic), OffsetLog(BOOTTIME, boottime);
    r := WriteOffset(proc, buffer, MONOTONIC, monotonic);
    if r.Err? {
      CutShortFirst(before, first, second, proc.written, r.error);
      return;
    }
    r := WriteOffset(proc, buffer, BOOTTIME, boottime);
    if r.Err? {
      CutShortLater(before, first, second, proc.written, r.error);
    } else {
      assert proc.written == before + (first + second);
    }
  }

  /** One clock's line, if there is an offset for it. */
  method WriteOffset(proc: ProcFiles, buffer: array<Byte>, clock: seq<Byte>, offset: Option<TimeOffset>)
    returns (r: Result<(), Error>)
    requires buffer.Length == OffsetBufferSize() && |clock| <= 9
    requires offset.Some? ==> RawOffset(offset.value)
    modifies proc, buffer
    ensures
      if r.Ok? then proc.written == old(proc.written) + OffsetLog(clock, offset)
      else CutShort(old(proc.written), OffsetLog(clock, offset), proc.written, r.error)
    ensures proc.faultless ==> r.Ok?
  {
    if offset.None? {
      return Ok(());
    }
    var end := FormatOffset(buffer, clock, offset.value);
    if end.Err? {
      OffsetBufferHolds(clock, offset.value);
      assert false;
    }
    r := proc.WriteChecked("timens_offsets", buffer[..end.value]);
  }

  // ----- id maps -----

  function MapBufferSize(): nat {
    2 * UnsignedBound(32, WIDEST) + 3
  }

  function MapLine(inside: nat, outside: nat): seq<Byte> {
    FormatSigned(inside) + [SPACE] + FormatSigned(outside) + [SPACE, ONE]
  }

  lemma MapBufferHolds(inside: nat, outside: nat)
    requires inside < U32 && outside < U32
    ensures MapBufferSize() == 23 && |MapLine(inside, outside)| <= 23
  {
    Width32(WIDEST, inside);
    Width32(WIDEST, outside);
  }

  lemma MapBufferTight()
    ensures |MapLine(U32 - 1, U32 - 1)| == MapBufferSize()
  {
    Width32(WIDEST, U32 - 1);
  }

  function ParseMapLine(line: seq<Byte>): Option<(int, int, int)> {
    var fields := Fields(SPACE, line);
    if |fields| != 3 then None
    else
      match (ParseSigned(fields[0]), ParseSigned(fields[1]), ParseSigned(fields[2]))
      case (Some(inside), Some(outside), Some(count)) => Some((inside, outside, count))
      case _ => None
  }

  lemma MapLineRoundTrip(inside: nat, outside: nat)
    ensures ParseMapLine(MapLine(inside, outside)) == Some((inside, outside, 1))
  {
    NumberHasNoSpace(inside);
    NumberHasNoSpace(outside);
    NumberHasNoSpace(1);
    ParseFormatSigned(inside);
    ParseFormatSigned(outside);
    ParseFormatSigned(1);
    var one := FormatSigned(1);
    assert one == [ONE];
    ThreeFields(FormatSigned(inside), FormatSigned(outside), one);
    assert MapLine(inside, outside) == FormatSigned(inside) + [SPACE] + FormatSigned(outside) + [SPACE] + one;
  }

  method FormatMap(buffer: array<Byte>, inside: nat, outside: nat) returns (r: Result<nat, Error>)
    modifies buffer
    ensures r == if |MapLine(inside, outside)| <= buffer.Length then Ok(|MapLine(inside, outside)|)
                 else Err(BufferTooSmall)
    ensures r.Ok? ==> buffer[..r.value] == MapLine(inside, outside)
  {
    var at :- WriteInteger(buffer, 0, inside);
    at :- WriteBytes(buffer, at, [SPACE]);
    at :- WriteInteger(buffer, at, outside);
    at :- WriteBytes(buffer, at, [SPACE, ONE]);
    return Ok(at);
  }

  const DENY: seq<Byte> := [100, 101, 110, 121]

  function MapLog(
    sourceUid: nat, sourceGid: nat, destUid: nat, destGid: nat, denySetgroups: bool): seq<(string, seq<Byte>)>
  {
    [("uid_map", MapLine(destUid, sourceUid))] +
    (if denySetgroups then [("setgroups", DENY)] else []) +
    [("gid_map", MapLine(destGid, sourceGid))]
  }

  /** The user map, `deny` for setgroups if wanted, and the group map; each map has the number inside first. */
  lemma MapTexts(sourceUid: nat, sourceGid: nat, destUid: nat, destGid: nat)
    ensures MapLog(sourceUid, sourceGid, destUid, destGid, false) == [
      ("uid_map", FormatUnsigned(destUid) + [32] + FormatUnsigned(sourceUid) + [32, 49]),
      ("gid_map", FormatUnsigned(destGid) + [32] + FormatUnsigned(sourceGid) + [32, 49])]
    ensures MapLog(sourceUid, sourceGid, destUid, destGid, true) == [
      ("uid_map", FormatUnsigned(destUid) + [32] + FormatUnsigned(sourceUid) + [32, 49]),
      ("setgroups", [100, 101, 110, 121]),
      ("gid_map", FormatUnsigned(destGid) + [32] + FormatUnsigned(sourceGid) + [32, 49])]
  {
  }

  /** Writes the user map, then denies setgroups, then writes the group map. */
  method WriteSimpleUidGidMap(
    proc: ProcFiles, sourceUid: nat, sourceGid: nat, destUid: nat, destGid: nat, denySetgroups: bool)
    returns (r: Result<(), Error>)
    requires sourceUid < U32 && sourceGid < U32 && destUid < U32 && destGid < U32
    modifies proc
    ensures
      var writes := MapLog(sourceUid, sourceGid, destUid, destGid, denySetgroups);
      if r.Ok? then proc.written == old(proc.written) + writes
      else CutShort(old(proc.written), writes, proc.written, r.error)
    ensures proc.faultless ==> r.Ok?
  {
    var buffer := new Byte[MapBufferSize()](_ => 0);
    ghost var before := proc.written;
    ghost var user, group := [("uid_map", MapLine(destUid, sourceUid))], [("gid_map", MapLine(destGid, sourceGid))];
    ghost var groups := if denySetgroups then [("setgroups", DENY)] else [];
    r := WriteMap(proc, buffer, "uid_map", destUid, sourceUid);
    if r.Err? {
      CutShortFirst(before, user, groups, proc.written, r.error);
      CutShortFirst(before, user + groups, group, proc.written, r.error);
      return;
    }
    if denySetgroups {
      r := proc.WriteChecked("setgroups", DENY);
      if r.Err? {
        CutShortLater(before, user, groups, proc.written, r.error);
        CutShortFirst(before, user + groups, group, proc.written, r.error);
        return;
      }
    }
    assert proc.written == before + (user + groups);
    r := WriteMap(proc, buffer, "gid_map", destGid, sourceGid);
    if r.Err? {
      CutShortLater(before, user + groups, group, proc.written, r.error);
    } else {
      assert proc.written == before + (user + groups + group);
    }
  }

  /** One map file. */
  method WriteMap(proc: ProcFiles, buffer: array<Byte>, file: string, inside: nat, outside: nat)
    returns (r: Result<(), Error>)
    requires buffer.Length == MapBufferSize() && inside < U32 && outside < U32
    modifies proc, buffer
    ensures
      var writes := [(file, MapLine(inside, outside))];
      if r.Ok? then proc.written == old(proc.written) + writes
      else CutShort(old(proc.written), writes, proc.written, r.error)
    ensures proc.faultless ==> r.Ok?
  {
    var end := FormatMap(buffer, inside, outside);
    if end.Err? {
      MapBufferHolds(inside, outside);
      assert false;
    }
    r := proc.WriteChecked(file, buffer[..end.value]);
  }

  // ----- tmpfs sizes -----

  datatype TmpfsSize = Unlimited | InBytes(count: Unsigned64) | Percent(share: Unsigned64)

  const PERCENT_SIGN: Byte := 37

  function PercentBufferSize(): nat {
    UnsignedBound(64, WIDEST) + 2
  }

  /** Copying text and a terminator into an `N`-byte buffer. */
  method WithCStr(text: seq<Byte>, N: nat) returns (r: Result<seq<Byte>, Error>)
    requires 0 !in text
    ensures r == if |text| < N then Ok(text + [0]) else Err(BufferTooSmall)
  {
    var buffer := new Byte[N](_ => 0);
    if !(|text| < buffer.Length) {
      return Err(BufferTooSmall);
    }
    forall i | 0 <= i < |text| {
      buffer[i] := text[i];
    }
    assert buffer[..|text| + 1] == text + [0];
    return Ok(buffer[..|text| + 1]);
  }

  /** The value of the `size` parameter, terminator included. */
  function SizeText(size: TmpfsSize): seq<Byte> {
    match size
    case Unlimited => [ZERO, 0]
    case InBytes(count) => FormatUnsigned(count) + [0]
    case Percent(share) => FormatUnsigned(share) + [PERCENT_SIGN, 0]
  }

  method FormatPercent(buffer: array<Byte>, share: Unsigned64) returns (r: Result<nat, Error>)
    modifies buffer
    ensures r == if |FormatUnsigned(share)| + 2 <= buffer.Length then Ok(|FormatUnsigned(share)| + 2)
                 else Err(BufferTooSmall)
    ensures r.Ok? ==> buffer[..r.value] == SizeText(Percent(share))
  {
    var at :- WriteInteger(buffer, 0, share);
    at :- WriteBytes(buffer, at, [PERCENT_SIGN, 0]);
    return Ok(at);
  }

  /** Formats the size parameter; 64-bit values never exceed the buffers. */
  method FormatTmpfsSize(size: TmpfsSize) returns (r: Result<seq<Byte>, Error>)
    ensures r == Ok(SizeText(size))
  {
    match size {
      case Unlimited =>
        return Ok([ZERO, 0]);
      case InBytes(count) =>
        r := WithCStr(FormatUnsigned(count), UnsignedBound(64, WIDEST) + 1);
        Width64(WIDEST, count);
      case Percent(share) =>
        var buffer := new Byte[PercentBufferSize()](_ => 0);
        var end := FormatPercent(buffer, share);
        Width64(WIDEST, share);
        return Ok(buffer[..end.value]);
    }
  }

  /** The largest share needs the whole buffer. */
  lemma PercentBufferTight()
    ensures PercentBufferSize() == 22 && |SizeText(Percent(U64 - 1))| == 22
  {
    Width64(WIDEST, U64 - 1);
  }

  /** The texts of the three kinds of size. */
  lemma SizeTexts(count: Unsigned64)
    ensures SizeText(Unlimited) == [48, 0]
    ensures SizeText(InBytes(count)) == FormatUnsigned(count) + [0]
    ensures SizeText(Percent(count)) == FormatUnsigned(count) + [37, 0]
  {
  }

  /** The number in a formatted size reads back. */
  lemma SizeTextRoundTrip(size: TmpfsSize)
    requires !size.Unlimited?
    ensures
      var text := SizeText(size);
      if size.Percent? then ParseUnsigned(text[..|text| - 2]) == Some(size.share)
      else ParseUnsigned(text[..|text| - 1]) == Some(size.count)
  {
    var text := SizeText(size);
    if size.Percent? {
      assert text[..|text| - 2] == FormatUnsigned(size.share);
      ParseFormatUnsigned(size.share);
    } else {
      assert text[..|text| - 1] == FormatUnsigned(size.count);
      ParseFormatUnsigned(size.count);
    }
  }
}
