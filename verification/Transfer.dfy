/** Reads and writes that a kernel may cut short or interrupt (meowix, util.rs). */
module Transfer {
  import opened Bytes
  import opened Wrappers

  type Code = nat

  const EINTR: Code := 4

  /** How the kernel answers one call: interrupt it, fail it, or move at most so many bytes. */
  datatype Fate = Interrupted | Failed(code: Code) | Moved(count: nat)

  predicate Hard(fate: Fate) {
    fate.Failed? && fate.code != EINTR
  }

  /** No answer is worse than an interruption or a partial transfer of at least one byte. */
  ghost predicate Harmless(fates: seq<Fate>) {
    forall i :: 0 <= i < |fates| ==>
      fates[i] == Interrupted || fates[i] == Failed(4) || (fates[i].Moved? && fates[i].count > 0)
  }

  /** The kernel's answers were taken in turn, and none of them failed hard, except for the last one with `code`. */
  ghost predicate InTurn(earlier: seq<Fate>, fates: seq<Fate>, code: Option<Code>) {
    var taken := |earlier| - |fates|;
    && 0 <= taken && fates == earlier[taken..]
    && (forall i :: 0 <= i < taken && Hard(earlier[i]) ==> i == taken - 1 && code.Some?)
    && (code.Some? ==> 0 < taken && earlier[taken - 1] == Failed(code.value) && code.value != EINTR)
  }

  lemma TakeAnswer(earlier: seq<Fate>, fates: seq<Fate>)
    requires InTurn(earlier, fates, None) && fates != []
    ensures InTurn(earlier, fates[1..], if Hard(fates[0]) then Some(fates[0].code) else None)
  {
  }

  /** None of the answers taken was that nothing could be written, except perhaps for the last. */
  ghost predicate StalledLast(earlier: seq<Fate>, fates: seq<Fate>, stalled: bool) {
    var taken := |earlier| - |fates|;
    && (forall i :: 0 <= i < taken && earlier[i] == Moved(0) ==> stalled && i == taken - 1)
    && (stalled ==> 0 < taken && earlier[taken - 1] == Moved(0))
  }

  datatype PartialTransfer = PartialTransfer(transferred: nat, error: Option<Code>)

  function Least(a: nat, b: nat): nat {
    if a < b then a else b
  }

  lemma TakeMore(bytes: seq<Byte>, i: nat, count: nat)
    requires i + count <= |bytes|
    ensures bytes[..i + count] == bytes[..i] + bytes[i..][..count]
    ensures bytes[i..][count..] == bytes[i + count..]
  {
  }

  lemma Append(data: seq<Byte>, grown: seq<Byte>, more: seq<Byte>, rest: seq<Byte>)
    requires data <= grown
    ensures data <= grown + more
    ensures (grown + more)[|data|..] + rest == grown[|data|..] + (more + rest)
  {
    assert (grown + more)[|data|..] == grown[|data|..] + more;
  }

  /** The read end of a pipe whose other end will deliver `stream` and then close. */
  class Source {
    // bytes not yet read
    var stream: seq<Byte>
    // answers to the coming calls; afterwards the kernel serves whole requests
    var fates: seq<Fate>

    constructor (stream: seq<Byte>, fates: seq<Fate>)
      ensures this.stream == stream && this.fates == fates
    {
      this.stream, this.fates := stream, fates;
    }

    /** `read(2)` into `buffer[at..]`: a prefix of the stream, empty only at its end. */
    method Read(buffer: array<Byte>, at: nat) returns (r: Result<nat, Code>)
      requires at < buffer.Length
      modifies this, buffer
      ensures fates == if old(fates) == [] then [] else old(fates)[1..]
      ensures r.Ok? ==> r.value <= Least(|old(stream)|, buffer.Length - at) && (r.value == 0 <==> old(stream) == [])
      ensures r.Ok? ==> stream == old(stream)[r.value..] && (old(fates) == [] || old(fates)[0].Moved?)
      ensures r.Ok? ==> buffer[..at + r.value] == old(buffer[..at]) + old(stream)[..r.value]
      ensures r.Err? ==> stream == old(stream) && buffer[..] == old(buffer[..])
      ensures r.Err? ==> old(fates) != []
      ensures r.Err? ==> old(fates)[0] == Failed(r.error) || (old(fates)[0] == Interrupted && r.error == EINTR)
    {
      var limit := Least(|stream|, buffer.Length - at);
      if fates != [] {
        var fate := fates[0];
        fates := fates[1..];
        match fate {
          case Interrupted => return Err(EINTR);
          case Failed(code) => return Err(code);
          case Moved(count) => limit := if limit == 0 then 0 else Least(limit, if count == 0 then 1 else count);
        }
      }
      forall i | 0 <= i < limit {
        buffer[at + i] := stream[i];
      }
      stream := stream[limit..];
      return Ok(limit);
    }

    /** Reads until the array is full: all or nothing of the requested bytes reaches the caller. */
    method ReadArray(size: nat) returns (r: Result<seq<Byte>, PartialTransfer>)
      modifies this
      ensures r.Ok? ==> size <= |old(stream)| && r.value == old(stream)[..size] && stream == old(stream)[size..]
      ensures r.Err? ==> r.error.transferred < size && r.error.transferred <= |old(stream)|
      ensures r.Err? ==> stream == old(stream)[r.error.transferred..]
      ensures r.Err? && r.error.error.None? ==> stream == []
      ensures InTurn(old(fates), fates, if r.Ok? then None else r.error.error)
    {
      var buffer := new Byte[size](_ => 0);
      var i := 0;
      ghost var whole := stream;
      while i < buffer.Length
        invariant 0 <= i <= buffer.Length && i <= |whole|
        invariant buffer[..i] == whole[..i] && stream == whole[i..]
        invariant InTurn(old(fates), fates, None)
        decreases |fates|, buffer.Length - i
      {
        if fates != [] {
          TakeAnswer(old(fates), fates);
        }
        var read := Read(buffer, i);
        if read.Ok? {
          if read.value == 0 {
            return Err(PartialTransfer(i, None));
          }
          TakeMore(whole, i, read.value);
          i := i + read.value;
        } else if read.error != EINTR {
          return Err(PartialTransfer(i, Some(read.error)));
        }
      }
      return Ok(buffer[..]);
    }

    /** Reads until the buffer is full or the stream ends; used for both initialised and uninitialised buffers. */
    method ReadUntilFull(buffer: array<Byte>) returns (r: Result<nat, PartialTransfer>)
      modifies this, buffer
      ensures
        var count := if r.Ok? then r.value else r.error.transferred;
        && count <= buffer.Length && count <= |old(stream)|
        && buffer[..count] == old(stream)[..count]
        && stream == old(stream)[count..]
      ensures r.Ok? ==> r.value == Least(buffer.Length, |old(stream)|)
      ensures r.Err? ==> r.error.error.Some?
      ensures InTurn(old(fates), fates, if r.Ok? then None else r.error.error)
    {
      var i := 0;
      ghost var whole := stream;
      while i < buffer.Length
        invariant 0 <= i <= buffer.Length && i <= |whole|
        invariant buffer[..i] == whole[..i] && stream == whole[i..]
        invariant InTurn(old(fates), fates, None)
        decreases |fates|, buffer.Length - i
      {
        if fates != [] {
          TakeAnswer(old(fates), fates);
        }
        var read := Read(buffer, i);
        if read.Ok? {
          if read.value == 0 {
            break;
          }
          TakeMore(whole, i, read.value);
          i := i + read.value;
        } else if read.error != EINTR {
          return Err(PartialTransfer(i, Some(read.error)));
        }
      }
      return Ok(i);
    }

    /** One call of `read(2)` into unused capacity. */
    method ReadSpare(size: nat) returns (r: Result<seq<Byte>, Code>)
      requires size > 0
      modifies this
      ensures fates == if old(fates) == [] then [] else old(fates)[1..]
      ensures r.Ok? ==> |r.value| <= size && r.value + stream == old(stream) && (r.value == [] <==> old(stream) == [])
      ensures r.Ok? ==> old(fates) == [] || old(fates)[0].Moved?
      ensures r.Err? ==> stream == old(stream) && old(fates) != []
      ensures r.Err? ==> old(fates)[0] == Failed(r.error) || (old(fates)[0] == Interrupted && r.error == EINTR)
    {
      var segment := new Byte[size](_ => 0);
      var count :- Read(segment, 0);
      assert segment[..count] == segment[..0] + old(stream)[..count];
      return Ok(segment[..count]);
    }

    /** Appends everything up to the end of the stream, growing the vector when it is full. */
    method ReadToEnd(data: seq<Byte>, spare: nat) returns (r: Result<(), Code>, grown: seq<Byte>)
      modifies this
      ensures data <= grown && grown[|data|..] + stream == old(stream)
      ensures r.Ok? ==> stream == []
      ensures InTurn(old(fates), fates, if r.Ok? then None else Some(r.error))
    {
      grown := data;
      var capacity := |data| + spare;
      ghost var whole := stream;
      while true
        invariant data <= grown && |grown| <= capacity
        invariant grown[|data|..] + stream == whole
        invariant InTurn(old(fates), fates, None)
        decreases |fates|, |stream|
      {
        if capacity == |grown| {
          capacity := |grown| + if |grown| < 32 then 32 else |grown|;
        }
        if fates != [] {
          TakeAnswer(old(fates), fates);
        }
        var read := ReadSpare(capacity - |grown|);
        if read.Ok? {
          if read.value == [] {
            return Ok(()), grown;
          }
          Append(data, grown, read.value, stream);
          grown := grown + read.value;
        } else if read.error != EINTR {
          return Err(read.error), grown;
        }
      }
    }
  }

  /** The write end of a pipe, a file or a socket. */
  class Sink {
    // bytes the other side has been handed
    var received: seq<Byte>
    var fates: seq<Fate>

    constructor (fates: seq<Fate>)
      ensures received == [] && this.fates == fates
    {
      received, this.fates := [], fates;
    }

    /** `write(2)`: takes a prefix of the segment, possibly empty. */
    method Write(segment: seq<Byte>) returns (r: Result<nat, Code>)
      modifies this
      ensures fates == if old(fates) == [] then [] else old(fates)[1..]
      ensures r.Ok? ==> r.value <= |segment| && received == old(received) + segment[..r.value]
      ensures r.Ok? && old(fates) == [] ==> r.value == |segment|
      ensures r.Ok? && old(fates) != [] ==> old(fates)[0].Moved? && r.value == Least(old(fates)[0].count, |segment|)
      ensures r.Err? ==> received == old(received) && old(fates) != []
      ensures r.Err? ==> old(fates)[0] == Failed(r.error) || (old(fates)[0] == Interrupted && r.error == EINTR)
    {
      var count := |segment|;
      if fates != [] {
        var fate := fates[0];
        fates := fates[1..];
        match fate {
          case Interrupted => return Err(EINTR);
          case Failed(code) => return Err(code);
          case Moved(n) => count := Least(n, |segment|);
        }
      }
      received := received + segment[..count];
      return Ok(count);
    }

    /** Writes until everything is out or the kernel takes nothing. */
    method WriteUntilStalled(bytes: seq<Byte>) returns (r: Result<nat, PartialTransfer>)
      modifies this
      ensures
        var count := if r.Ok? then r.value else r.error.transferred;
        count <= |bytes| && received == old(received) + bytes[..count]
      ensures r.Err? ==> r.error.error.Some?
      ensures InTurn(old(fates), fates, if r.Ok? then None else r.error.error)
      ensures StalledLast(old(fates), fates, r.Ok? && r.value < |bytes|)
    {
      var i := 0;
      while i < |bytes|
        invariant 0 <= i <= |bytes| && received == old(received) + bytes[..i]
        invariant InTurn(old(fates), fates, None) && StalledLast(old(fates), fates, false)
        decreases |fates|, |bytes| - i
      {
        var written := Write(bytes[i..]);
        if written.Ok? {
          if written.value == 0 {
            break;
          }
          TakeMore(bytes, i, written.value);
          i := i + written.value;
        } else if written.error != EINTR {
          return Err(PartialTransfer(i, Some(written.error)));
        }
      }
      return Ok(i);
    }

    /** Writes everything or reports how far it came. */
    method WriteAll(bytes: seq<Byte>) returns (r: Result<(), PartialTransfer>)
      modifies this
      ensures r.Ok? ==> received == old(received) + bytes
      ensures r.Err? ==> r.error.transferred <= |bytes| && received == old(received) + bytes[..r.error.transferred]
      ensures r.Err? && r.error.error.None? ==> r.error.transferred < |bytes|
      ensures InTurn(old(fates), fates, if r.Ok? then None else r.error.error)
      ensures StalledLast(old(fates), fates, r.Err? && r.error.error.None?)
    {
      var transferred :- WriteUntilStalled(bytes);
      if transferred < |bytes| {
        return Err(PartialTransfer(transferred, None));
      }
      return Ok(());
    }
  }
}
