/** Allocation-free netlink messages: the builder and the acknowledgement walker (meowix, netlink.rs).

    Message and attribute layout follow section 2.3.2 of RFC 3549, acknowledgements section 2.3.2.2;
    words are little-endian. */
module NetlinkCodec {
  import opened Bytes
  import opened Wrappers
  import opened Errors

  const HEADER_SIZE := 16
  const ATTRIBUTE_HEADER_SIZE := 4
  const ERROR_SIZE := 20

  const NLMSG_ERROR := 2
  const RTM_NEWLINK := 16
  const RTM_NEWADDR := 20
  const NLM_F_REQUEST := 0x1
  const NLM_F_ACK := 0x4
  const NLM_F_EXCL := 0x200
  const NLM_F_CREATE := 0x400
  const IFA_ADDRESS := 1
  const IFA_LOCAL := 2

  function Align4(n: nat): (aligned: nat)
    ensures aligned % 4 == 0 && n <= aligned < n + 4
  {
    (n + 3) / 4 * 4
  }

  lemma AlignedDifference(low: nat, high: nat)
    requires low <= high && low % 4 == 0 && high % 4 == 0
    ensures (high - low) % 4 == 0
  {
    assert high - low == 4 * (high / 4 - low / 4);
  }

  lemma AlignedShift(offset: nat, n: nat)
    requires offset % 4 == 0
    ensures Align4(offset + n) == offset + Align4(n)
  {
  }

  // ----- reading messages -----

  datatype Header = Header(length: nat, kind: nat, flags: nat, sequence: nat, pid: nat)

  function HeaderAt(bytes: seq<Byte>, at: nat): Header
    requires at + HEADER_SIZE <= |bytes|
  {
    Header(Word32At(bytes, at), Word16At(bytes, at + 4), Word16At(bytes, at + 6),
           Word32At(bytes, at + 8), Word32At(bytes, at + 12))
  }

  function EncodeHeader(length: nat, kind: nat, flags: nat, sequence: nat, pid: nat): (bytes: seq<Byte>)
    ensures |bytes| == HEADER_SIZE
  {
    Encode32(length) + Encode16(kind) + Encode16(flags) + Encode32(sequence) + Encode32(pid)
  }

  /** A header written at the front of a buffer is read back. */
  lemma HeaderRoundTrip(bytes: seq<Byte>, length: nat, kind: nat, flags: nat, sequence: nat, pid: nat)
    requires length < U32 && kind < U16 && flags < U16 && sequence < U32 && pid < U32
    requires |bytes| >= HEADER_SIZE && bytes[..HEADER_SIZE] == EncodeHeader(length, kind, flags, sequence, pid)
    ensures HeaderAt(bytes, 0) == Header(length, kind, flags, sequence, pid)
  {
    var header := EncodeHeader(length, kind, flags, sequence, pid);
    assert forall i :: 0 <= i < HEADER_SIZE ==> bytes[i] == header[i];
    Word32(length);
    Word16(kind);
    Word16(flags);
    Word32(sequence);
    Word32(pid);
    assert Word32At(bytes, 0) == Word32At(Encode32(length), 0);
    assert Word16At(bytes, 4) == Word16At(Encode16(kind), 0);
    assert Word16At(bytes, 6) == Word16At(Encode16(flags), 0);
    assert Word32At(bytes, 8) == Word32At(Encode32(sequence), 0);
    assert Word32At(bytes, 12) == Word32At(Encode32(pid), 0);
  }

  datatype Attribute = Attribute(kind: nat, payload: seq<Byte>)

  /** The length field of an attribute is 16 bits wide. */
  predicate Fits(attribute: Attribute) {
    attribute.kind < U16 && ATTRIBUTE_HEADER_SIZE + |attribute.payload| < U16
  }

  /** The attribute at the front of aligned bytes, and what follows it. */
  function Head(bytes: seq<Byte>): (head: Option<(Attribute, seq<Byte>)>)
    ensures head.Some? ==> |head.value.1| < |bytes| && Fits(head.value.0)
  {
    if |bytes| < ATTRIBUTE_HEADER_SIZE then None
    else
      var length := Word16At(bytes, 0);
      if length < ATTRIBUTE_HEADER_SIZE || length > |bytes| then None
      else
        var rest := if Align4(length) < |bytes| then bytes[Align4(length)..] else [];
        Some((Attribute(Word16At(bytes, 2), bytes[4..length]), rest))
  }

  /** A generic walk over aligned attributes, as any receiver does it. */
  function Walk(bytes: seq<Byte>): (walked: Option<seq<Attribute>>)
    ensures walked.Some? ==> forall attribute :: attribute in walked.value ==> Fits(attribute)
    decreases |bytes|
  {
    if bytes == [] then Some([])
    else
      match Head(bytes)
      case None => None
      case Some((attribute, rest)) =>
        match Walk(rest)
        case None => None
        case Some(attributes) => Some([attribute] + attributes)
  }

  /** The bytes of one attribute, whatever its padding holds; header words are cut to 16 bits. */
  ghost predicate IsTlv(bytes: seq<Byte>, attribute: Attribute) {
    var length := ATTRIBUTE_HEADER_SIZE + |attribute.payload|;
    && |bytes| == Align4(length)
    && Word16At(bytes, 0) == length % U16 && Word16At(bytes, 2) == attribute.kind % U16
    && bytes[4..length] == attribute.payload
  }

  /** The head of one attribute followed by anything is that attribute. */
  lemma HeadOfTlv(bytes: seq<Byte>, attribute: Attribute, rest: seq<Byte>)
    requires IsTlv(bytes, attribute) && Fits(attribute)
    ensures Head(bytes + rest) == Some((attribute, rest))
  {
    SliceAppend(bytes, rest, 4, ATTRIBUTE_HEADER_SIZE + |attribute.payload|);
    assert (bytes + rest)[|bytes|..] == rest;
    HeadFromSlices(bytes + rest, attribute, rest);
  }

  lemma HeadFromSlices(all: seq<Byte>, attribute: Attribute, rest: seq<Byte>)
    requires Fits(attribute)
    requires
      var length := ATTRIBUTE_HEADER_SIZE + |attribute.payload|;
      && |all| == Align4(length) + |rest|
      && Word16At(all, 0) == length && Word16At(all, 2) == attribute.kind
      && all[4..length] == attribute.payload && all[Align4(length)..] == rest
    ensures Head(all) == Some((attribute, rest))
  {
  }

  /** In aligned bytes the padding of the front attribute is there as well. */
  lemma HeadFront(bytes: seq<Byte>)
    requires |bytes| % 4 == 0 && Head(bytes).Some?
    ensures
      var length := Word16At(bytes, 0);
      && ATTRIBUTE_HEADER_SIZE <= length && Align4(length) <= |bytes| && (|bytes| - Align4(length)) % 4 == 0
      && Head(bytes).value == (Attribute(Word16At(bytes, 2), bytes[4..length]), bytes[Align4(length)..])
  {
    var end := Align4(Word16At(bytes, 0));
    assert end < |bytes| + 4 && end / 4 <= |bytes| / 4;
    AlignedDifference(end, |bytes|);
    assert end == |bytes| ==> bytes[end..] == [];
  }

  /** Appending to aligned bytes does not disturb the attribute at their front. */
  lemma HeadOfAppend(bytes: seq<Byte>, more: seq<Byte>)
    requires |bytes| % 4 == 0 && Head(bytes).Some?
    ensures Head(bytes + more) == Some((Head(bytes).value.0, Head(bytes).value.1 + more))
    ensures |Head(bytes).value.1| % 4 == 0
  {
    var length := Word16At(bytes, 0);
    HeadFront(bytes);
    var rest := bytes[Align4(length)..];
    assert Head(bytes).value.1 == rest && |rest| == |bytes| - Align4(length);
    SliceAppend(bytes, more, 4, length);
    DropAppend(bytes, more, Align4(length));
    assert Word16At(bytes + more, 0) == length && Word16At(bytes + more, 2) == Word16At(bytes, 2);
    assert |bytes + more| == Align4(length) + |rest + more|;
    HeadFromSlices(bytes + more, Head(bytes).value.0, rest + more);
  }

  function Flatten(parts: seq<seq<Byte>>): seq<Byte> {
    if parts == [] then [] else parts[0] + Flatten(parts[1..])
  }

  lemma WalkTlv(bytes: seq<Byte>, attribute: Attribute, rest: seq<Byte>)
    requires IsTlv(bytes, attribute) && Fits(attribute) && Walk(rest).Some?
    ensures Walk(bytes + rest) == Some([attribute] + Walk(rest).value)
  {
    HeadOfTlv(bytes, attribute, rest);
  }

  /** Lists whose lengths all fit are read back unchanged, whatever the padding holds. */
  lemma {:induction false} WalkReturnsFittingList(parts: seq<seq<Byte>>, attributes: seq<Attribute>)
    requires |parts| == |attributes| && forall i :: 0 <= i < |parts| ==> IsTlv(parts[i], attributes[i])
    requires forall i :: 0 <= i < |attributes| ==> Fits(attributes[i])
    ensures Walk(Flatten(parts)) == Some(attributes)
  {
    if parts == [] {
      assert Flatten(parts) == [] && attributes == [];
    } else {
      var rest := Flatten(parts[1..]);
      WalkReturnsFittingList(parts[1..], attributes[1..]);
      assert Flatten(parts) == parts[0] + rest;
      WalkTlv(parts[0], attributes[0], rest);
      assert attributes == [attributes[0]] + attributes[1..];
    }
  }

  /** A list of attributes is read back exactly when each length fits its field. */
  lemma WalkReturnsList(parts: seq<seq<Byte>>, attributes: seq<Attribute>)
    requires |parts| == |attributes| && forall i :: 0 <= i < |parts| ==> IsTlv(parts[i], attributes[i])
    ensures Walk(Flatten(parts)) == Some(attributes) <==> forall i :: 0 <= i < |attributes| ==> Fits(attributes[i])
  {
    if forall i :: 0 <= i < |attributes| ==> Fits(attributes[i]) {
      WalkReturnsFittingList(parts, attributes);
    }
  }

  /** Appending an attribute to walked bytes appends it to the walk, exactly when its length fits its field. */
  lemma WalkAppend(bytes: seq<Byte>, tlv: seq<Byte>, attribute: Attribute)
    requires |bytes| % 4 == 0 && Walk(bytes).Some? && IsTlv(tlv, attribute)
    ensures Walk(bytes + tlv) == Some(Walk(bytes).value + [attribute]) <==> Fits(attribute)
  {
    if Fits(attribute) {
      WalkAppendFits(bytes, tlv, attribute);
    } else {
      assert attribute in Walk(bytes).value + [attribute];
    }
  }

  lemma {:induction false} WalkAppendFits(bytes: seq<Byte>, tlv: seq<Byte>, attribute: Attribute)
    requires |bytes| % 4 == 0 && Walk(bytes).Some? && IsTlv(tlv, attribute) && Fits(attribute)
    ensures Walk(bytes + tlv) == Some(Walk(bytes).value + [attribute])
    decreases |bytes|
  {
    if bytes == [] {
      WalkTlv(tlv, attribute, []);
      assert bytes + tlv == tlv + [];
      assert Walk(bytes).value + [attribute] == [attribute] + [];
    } else {
      var (first, rest) := Head(bytes).value;
      HeadOfAppend(bytes, tlv);
      WalkAppendFits(rest, tlv, attribute);
      WalkBehindHead(bytes, tlv, attribute, first, rest);
    }
  }

  lemma WalkBehindHead(
    bytes: seq<Byte>, tlv: seq<Byte>, attribute: Attribute, first: Attribute, rest: seq<Byte>)
    requires bytes != [] && Head(bytes) == Some((first, rest)) && Head(bytes + tlv) == Some((first, rest + tlv))
    requires Walk(rest).Some? && Walk(rest + tlv) == Some(Walk(rest).value + [attribute])
    ensures Walk(bytes).Some? && Walk(bytes + tlv) == Some(Walk(bytes).value + [attribute])
  {
    var attributes := Walk(rest).value;
    WalkFromHead(bytes, first, rest);
    WalkFromHead(bytes + tlv, first, rest + tlv);
    assert ([first] + attributes) + [attribute] == [first] + (attributes + [attribute]);
  }

  lemma WalkFromHead(bytes: seq<Byte>, first: Attribute, rest: seq<Byte>)
    requires bytes != [] && Head(bytes) == Some((first, rest)) && Walk(rest).Some?
    ensures Walk(bytes) == Some([first] + Walk(rest).value)
  {
  }

  // ----- the builder -----

  /** `write` and `write_bytes`: copies into the buffer and advances the offset, or leaves both alone. */
  method WriteBytes(buffer: array<Byte>, offset: nat, bytes: seq<Byte>) returns (r: Result<nat, Netlink>)
    modifies buffer
    ensures r == if offset + |bytes| <= buffer.Length then Ok(offset + |bytes|) else Err(BufferTooSmall)
    ensures buffer[..] == if r.Ok? then Patch(old(buffer[..]), offset, bytes) else old(buffer[..])
  {
    var end := offset + |bytes|;
    if end > buffer.Length {
      return Err(BufferTooSmall);
    }
    forall i | 0 <= i < |bytes| {
      buffer[offset + i] := bytes[i];
    }
    return Ok(end);
  }

  /** Where the next attribute starts, or that there is no room for this one. */
  function AttributeEnd(capacity: nat, offset: nat, payload: seq<Byte>): Result<nat, Netlink> {
    var end := Align4(offset + ATTRIBUTE_HEADER_SIZE + |payload|);
    if end <= capacity then Ok(end) else Err(BufferTooSmall)
  }

  function AttributeHeader(attribute: Attribute): (bytes: seq<Byte>)
    ensures |bytes| == ATTRIBUTE_HEADER_SIZE
  {
    Encode16(ATTRIBUTE_HEADER_SIZE + |attribute.payload|) + Encode16(attribute.kind)
  }

  /** The buffer after writing an attribute; padding keeps what was there. */
  function WithAttribute(bytes: seq<Byte>, offset: nat, attribute: Attribute): (written: seq<Byte>)
    requires offset + ATTRIBUTE_HEADER_SIZE + |attribute.payload| <= |bytes|
    ensures |written| == |bytes|
  {
    Patch(Patch(bytes, offset, AttributeHeader(attribute)), offset + ATTRIBUTE_HEADER_SIZE, attribute.payload)
  }

  /** Header, payload, and a jump to the next multiple of four. */
  method WriteAttribute(buffer: array<Byte>, offset: nat, kind: nat, payload: seq<Byte>)
    returns (r: Result<nat, Netlink>)
    requires offset <= buffer.Length && kind < U16
    modifies buffer
    ensures r == AttributeEnd(buffer.Length, offset, payload)
    ensures r.Ok? ==> buffer[..] == WithAttribute(old(buffer[..]), offset, Attribute(kind, payload))
  {
    var length := ATTRIBUTE_HEADER_SIZE + |payload|;
    var afterHeader :- WriteBytes(buffer, offset, Encode16(length) + Encode16(kind));
    var afterPayload :- WriteBytes(buffer, afterHeader, payload);
    var end := Align4(afterPayload);
    if end > buffer.Length {
      return Err(BufferTooSmall);
    }
    return Ok(end);
  }

  /** The bytes of a written attribute: length, kind and payload. */
  lemma AttributeBytes(bytes: seq<Byte>, offset: nat, attribute: Attribute)
    requires offset + 4 + |attribute.payload| <= |bytes|
    ensures
      var written, size := WithAttribute(bytes, offset, attribute), 4 + |attribute.payload|;
      && written[offset] == size % 256 && written[offset + 1] == size / 256 % 256
      && written[offset + 2] == attribute.kind % 256 && written[offset + 3] == attribute.kind / 256 % 256
      && (forall i :: 0 <= i < |attribute.payload| ==> written[offset + 4 + i] == attribute.payload[i])
      && (forall i :: 0 <= i < |bytes| && !(offset <= i < offset + size) ==> written[i] == bytes[i])
  {
  }

  /** The end is the next multiple of four, if the buffer reaches that far. */
  lemma AttributeEnds(capacity: nat, offset: nat, payload: seq<Byte>)
    ensures
      var end := offset + 4 + |payload|;
      AttributeEnd(capacity, offset, payload) ==
      if (end + 3) / 4 * 4 <= capacity then Ok((end + 3) / 4 * 4) else Err(BufferTooSmall)
  {
  }

  lemma AttributeHeaderWords(attribute: Attribute)
    ensures Word16At(AttributeHeader(attribute), 0) == (ATTRIBUTE_HEADER_SIZE + |attribute.payload|) % U16
    ensures Word16At(AttributeHeader(attribute), 2) == attribute.kind % U16
  {
    var length := ATTRIBUTE_HEADER_SIZE + |attribute.payload|;
    Word16(length);
    Word16(attribute.kind);
    assert Word16At(AttributeHeader(attribute), 0) == Word16At(Encode16(length), 0);
    assert Word16At(AttributeHeader(attribute), 2) == Word16At(Encode16(attribute.kind), 0);
  }

  /** What was written at an aligned offset is that attribute, whatever the buffer held before. */
  lemma WrittenAttributeIsTlv(bytes: seq<Byte>, offset: nat, attribute: Attribute)
    requires offset % 4 == 0 && AttributeEnd(|bytes|, offset, attribute.payload).Ok?
    ensures
      var end := AttributeEnd(|bytes|, offset, attribute.payload).value;
      IsTlv(WithAttribute(bytes, offset, attribute)[offset..end], attribute)
  {
    AlignedShift(offset, ATTRIBUTE_HEADER_SIZE + |attribute.payload|);
    AttributeHeaderWords(attribute);
    var header := AttributeHeader(attribute);
    var end := AttributeEnd(|bytes|, offset, attribute.payload).value;
    var tlv := WithAttribute(bytes, offset, attribute)[offset..end];
    assert forall i :: 0 <= i < ATTRIBUTE_HEADER_SIZE ==> tlv[i] == header[i];
    assert Word16At(tlv, 0) == Word16At(header, 0) && Word16At(tlv, 2) == Word16At(header, 2);
    var payload := tlv[4..ATTRIBUTE_HEADER_SIZE + |attribute.payload|];
    assert forall i :: 0 <= i < |attribute.payload| ==> payload[i] == tlv[4 + i] == attribute.payload[i];
  }

  lemma WithAttributeBelow(bytes: seq<Byte>, offset: nat, attribute: Attribute, i: nat, j: nat)
    requires offset + ATTRIBUTE_HEADER_SIZE + |attribute.payload| <= |bytes| && i <= j <= offset
    ensures WithAttribute(bytes, offset, attribute)[i..j] == bytes[i..j]
  {
    var header := AttributeHeader(attribute);
    PatchOutside(bytes, offset, header, i, j);
    PatchOutside(Patch(bytes, offset, header), offset + ATTRIBUTE_HEADER_SIZE, attribute.payload, i, j);
  }

  /** The attributes read back from `base` grow by exactly the one written, precisely when its length fits. */
  lemma WrittenAttributeWalks(bytes: seq<Byte>, base: nat, offset: nat, attribute: Attribute)
    requires base <= offset <= |bytes| && base % 4 == 0 && offset % 4 == 0
    requires AttributeEnd(|bytes|, offset, attribute.payload).Ok?
    requires Walk(bytes[base..offset]).Some?
    ensures
      var end := AttributeEnd(|bytes|, offset, attribute.payload).value;
      Walk(WithAttribute(bytes, offset, attribute)[base..end]) == Some(Walk(bytes[base..offset]).value + [attribute])
      <==> Fits(attribute)
  {
    AlignedDifference(base, offset);
    WithAttributeBelow(bytes, offset, attribute, base, offset);
    WrittenAttributeIsTlv(bytes, offset, attribute);
    var end := AttributeEnd(|bytes|, offset, attribute.payload).value;
    WalkExtends(bytes[base..offset], WithAttribute(bytes, offset, attribute), base, offset, end, attribute);
  }

  lemma WalkExtends(before: seq<Byte>, written: seq<Byte>, base: nat, offset: nat, end: nat, attribute: Attribute)
    requires base <= offset <= end <= |written| && (offset - base) % 4 == 0
    requires written[base..offset] == before && IsTlv(written[offset..end], attribute) && Walk(before).Some?
    ensures Walk(written[base..end]) == Some(Walk(before).value + [attribute]) <==> Fits(attribute)
  {
    SplitSlice(written, base, offset, end);
    WalkAppend(before, written[offset..end], attribute);
  }

  /** Writes the header in front of a finished body and cuts the message out of the buffer. */
  method FinishMessage(buffer: array<Byte>, length: nat, kind: nat, flags: nat, sequence: nat)
    returns (r: Result<(nat, seq<Byte>), Netlink>, nextSequence: nat)
    requires sequence < U32 && kind < U16 && flags < U16
    modifies buffer
    ensures r.Ok? <==> HEADER_SIZE <= buffer.Length && length <= buffer.Length && sequence + 1 < U32
    ensures r.Err? ==>
      r.error == if HEADER_SIZE <= buffer.Length && sequence + 1 == U32 then IntegerOverflow else BufferTooSmall
    ensures nextSequence == if HEADER_SIZE <= buffer.Length && sequence + 1 < U32 then sequence + 1 else sequence
    ensures r.Ok? ==> r.value == (sequence, buffer[..length])
    ensures r.Ok? ==> buffer[..] == Patch(old(buffer[..]), 0, EncodeHeader(length, kind, flags, sequence, 0))
  {
    nextSequence := sequence;
    var written := WriteBytes(buffer, 0, EncodeHeader(length, kind, flags, sequence, 0));
    if written.Err? {
      return Err(written.error), nextSequence;
    }
    if sequence + 1 >= U32 {
      return Err(IntegerOverflow), nextSequence;
    }
    nextSequence := sequence + 1;
    if length > buffer.Length {
      return Err(BufferTooSmall), nextSequence;
    }
    return Ok((sequence, buffer[..length])), nextSequence;
  }

  const LOOPBACK: seq<Byte> := [127, 0, 0, 1]

  function AddressBody(index: nat): (bytes: seq<Byte>)
    ensures |bytes| == 8
  {
    [2, 8, 0x80, 254] + Encode32(index)
  }

  function LinkBody(index: nat): (bytes: seq<Byte>)
    ensures |bytes| == 16
  {
    [0, 0] + Encode16(0) + Encode32(index) + Encode32(1) + Encode32(1)
  }

  /** What a receiver makes of a message: its header, its fixed body and its attributes. */
  ghost predicate Reads(message: seq<Byte>, header: Header, body: seq<Byte>, attributes: seq<Attribute>) {
    && |message| >= HEADER_SIZE + |body|
    && HeaderAt(message, 0) == header
    && header.length == |message|
    && message[HEADER_SIZE..HEADER_SIZE + |body|] == body
    && Walk(message[HEADER_SIZE + |body|..]) == Some(attributes)
  }

  /** A finished message: its header reads back, and everything after the header is as it was. */
  lemma FinishedMessage(bytes: seq<Byte>, length: nat, kind: nat, flags: nat, sequence: nat)
    requires HEADER_SIZE <= length <= |bytes|
    requires length < U32 && kind < U16 && flags < U16 && sequence < U32
    ensures
      var message := Patch(bytes, 0, EncodeHeader(length, kind, flags, sequence, 0))[..length];
      && HeaderAt(message, 0) == Header(length, kind, flags, sequence, 0)
      && message[HEADER_SIZE..] == bytes[HEADER_SIZE..length]
  {
    var header := EncodeHeader(length, kind, flags, sequence, 0);
    CutMessage(bytes, length, header);
    HeaderRoundTrip(Patch(bytes, 0, header)[..length], length, kind, flags, sequence, 0);
  }

  lemma CutMessage(bytes: seq<Byte>, length: nat, header: seq<Byte>)
    requires HEADER_SIZE <= length <= |bytes| && |header| == HEADER_SIZE
    ensures Patch(bytes, 0, header)[..length][..HEADER_SIZE] == header
    ensures Patch(bytes, 0, header)[..length][HEADER_SIZE..] == bytes[HEADER_SIZE..length]
  {
  }

  // ----- a message with any list of attributes -----

  /** The room a list of attributes takes, padding included. */
  function AttributesSize(attributes: seq<Attribute>): nat {
    if attributes == [] then 0
    else
      var n := |attributes| - 1;
      AttributesSize(attributes[..n]) + Align4(ATTRIBUTE_HEADER_SIZE + |attributes[n].payload|)
  }

  /** The fields of the source's attribute header hold this kind; lengths are cut. */
  predicate Writable(attributes: seq<Attribute>) {
    forall attribute :: attribute in attributes ==> attribute.kind < U16
  }

  predicate AllFit(attributes: seq<Attribute>) {
    forall attribute :: attribute in attributes ==> Fits(attribute)
  }

  lemma {:induction false} AttributesSizeMonotone(attributes: seq<Attribute>, n: nat)
    requires n <= |attributes|
    ensures AttributesSize(attributes[..n]) <= AttributesSize(attributes)
    decreases |attributes|
  {
    if n < |attributes| {
      var front := attributes[..|attributes| - 1];
      AttributesSizeMonotone(front, n);
      assert front[..n] == attributes[..n];
    } else {
      assert attributes[..n] == attributes;
    }
  }

  lemma EndOfAligned(capacity: nat, offset: nat, payload: seq<Byte>)
    requires offset % 4 == 0
    ensures
      var end := offset + Align4(ATTRIBUTE_HEADER_SIZE + |payload|);
      AttributeEnd(capacity, offset, payload) == if end <= capacity then Ok(end) else Err(BufferTooSmall)
  {
    AlignedShift(offset, ATTRIBUTE_HEADER_SIZE + |payload|);
  }

  lemma SizeStep(attributes: seq<Attribute>, n: nat)
    requires n < |attributes|
    ensures AttributesSize(attributes[..n + 1]) ==
      AttributesSize(attributes[..n]) + Align4(ATTRIBUTE_HEADER_SIZE + |attributes[n].payload|)
  {
    assert attributes[..n + 1][..n] == attributes[..n];
  }

  /** One more attribute of a list: where it ends, and whether there is room for it. */
  lemma AttributeStep(attributes: seq<Attribute>, n: nat, base: nat, offset: nat, capacity: nat)
    requires n < |attributes| && offset % 4 == 0 && offset == base + AttributesSize(attributes[..n])
    ensures
      var end := base + AttributesSize(attributes[..n + 1]);
      AttributeEnd(capacity, offset, attributes[n].payload) == if end <= capacity then Ok(end) else Err(BufferTooSmall)
  {
    var size, next := AttributesSize(attributes[..n]), AttributesSize(attributes[..n + 1]);
    var room := Align4(ATTRIBUTE_HEADER_SIZE + |attributes[n].payload|);
    assert next == size + room by {
      SizeStep(attributes, n);
    }
    EndOfAligned(capacity, offset, attributes[n].payload);
    assert offset + room == base + next;
  }

  /** What a reader of `bytes[base..offset]` finds after the first `n` attributes have been written. */
  ghost predicate WalksTo(bytes: seq<Byte>, base: nat, offset: nat, attributes: seq<Attribute>) {
    base <= offset <= |bytes| && (AllFit(attributes) ==> Walk(bytes[base..offset]) == Some(attributes))
  }

  lemma WalksStep(bytes: seq<Byte>, base: nat, offset: nat, attributes: seq<Attribute>, n: nat)
    requires n < |attributes| && base % 4 == 0 && offset % 4 == 0 && WalksTo(bytes, base, offset, attributes[..n])
    requires AttributeEnd(|bytes|, offset, attributes[n].payload).Ok?
    ensures
      var end := AttributeEnd(|bytes|, offset, attributes[n].payload).value;
      WalksTo(WithAttribute(bytes, offset, attributes[n]), base, end, attributes[..n + 1])
  {
    assert attributes[..n + 1] == attributes[..n] + [attributes[n]];
    if AllFit(attributes[..n + 1]) {
      assert attributes[n] in attributes[..n + 1];
      WrittenAttributeWalks(bytes, base, offset, attributes[n]);
    }
  }

  /** Writes a list of attributes one after the other. */
  method WriteAttributes(buffer: array<Byte>, base: nat, attributes: seq<Attribute>) returns (r: Result<nat, Netlink>)
    requires base <= buffer.Length && base % 4 == 0 && Writable(attributes)
    modifies buffer
    ensures
      var end := base + AttributesSize(attributes);
      r == if end <= buffer.Length then Ok(end) else Err(BufferTooSmall)
    ensures r.Ok? ==> r.value % 4 == 0
    ensures r.Ok? ==> buffer[..base] == old(buffer[..base])
    ensures r.Ok? ==> (Walk(buffer[base..r.value]) == Some(attributes) <==> AllFit(attributes))
  {
    var offset := base;
    for n := 0 to |attributes|
      invariant offset == base + AttributesSize(attributes[..n]) <= buffer.Length && offset % 4 == 0
      invariant buffer[..base] == old(buffer[..base])
      invariant WalksTo(buffer[..], base, offset, attributes[..n])
    {
      ghost var before := buffer[..];
      AttributeStep(attributes, n, base, offset, buffer.Length);
      AttributesSizeMonotone(attributes, n + 1);
      var end := WriteAttribute(buffer, offset, attributes[n].kind, attributes[n].payload);
      if end.Err? {
        return end;
      }
      WalksStep(before, base, offset, attributes, n);
      WithAttributeBelow(before, offset, attributes[n], 0, base);
      offset := end.value;
    }
    assert attributes[..|attributes|] == attributes;
    assert buffer[..][base..offset] == buffer[base..offset];
    return Ok(offset);
  }

  /** A message with a fixed body and any attributes: what the two message writers below do for their constant lists. */
  method WriteMessage(
    buffer: array<Byte>, body: seq<Byte>, attributes: seq<Attribute>, kind: nat, flags: nat, sequence: nat)
    returns (r: Result<(nat, seq<Byte>), Netlink>, nextSequence: nat)
    requires |body| % 4 == 0 && Writable(attributes) && sequence < U32 && kind < U16 && flags < U16
    modifies buffer
    ensures r.Ok? <==> MessageSize(body, attributes) <= buffer.Length && sequence + 1 < U32
    ensures r.Err? ==>
      r.error == if MessageSize(body, attributes) <= buffer.Length then IntegerOverflow else BufferTooSmall
    ensures nextSequence == if r.Ok? then sequence + 1 else sequence
    ensures r.Ok? ==> r.value.0 == sequence
    ensures r.Ok? ==>
      (Reads(r.value.1, Header(MessageSize(body, attributes), kind, flags, sequence, 0), body, attributes)
      <==> AllFit(attributes) && MessageSize(body, attributes) < U32)
  {
    nextSequence := sequence;
    var end := WriteContents(buffer, body, attributes);
    if end.Err? {
      return Err(end.error), nextSequence;
    }
    ghost var image := buffer[..];
    r, nextSequence := FinishMessage(buffer, end.value, kind, flags, sequence);
    if r.Ok? {
      assert buffer[..end.value] == buffer[..][..end.value];
      MessageReads(image, body, attributes, kind, flags, sequence);
    }
  }

  /** Everything behind the header. */
  method WriteContents(buffer: array<Byte>, body: seq<Byte>, attributes: seq<Attribute>)
    returns (r: Result<nat, Netlink>)
    requires |body| % 4 == 0 && Writable(attributes)
    modifies buffer
    ensures
      var end := MessageSize(body, attributes);
      r == if end <= buffer.Length then Ok(end) else Err(BufferTooSmall)
    ensures r.Ok? ==> buffer[..][HEADER_SIZE..HEADER_SIZE + |body|] == body
    ensures r.Ok? ==> (Walk(buffer[..][HEADER_SIZE + |body|..r.value]) == Some(attributes) <==> AllFit(attributes))
  {
    ghost var initial := buffer[..];
    var base :- WriteBytes(buffer, HEADER_SIZE, body);
    ghost var started := buffer[..];
    assert buffer[..base] == started[..base];
    r := WriteAttributes(buffer, base, attributes);
    if r.Ok? {
      assert buffer[..base] == buffer[..][..base];
      BodyKept(initial, body, started, buffer[..]);
      assert buffer[base..r.value] == buffer[..][base..r.value];
    }
  }

  function MessageSize(body: seq<Byte>, attributes: seq<Attribute>): nat {
    HEADER_SIZE + |body| + AttributesSize(attributes)
  }

  lemma BodyKept(initial: seq<Byte>, body: seq<Byte>, started: seq<Byte>, image: seq<Byte>)
    requires HEADER_SIZE + |body| <= |initial| && started == Patch(initial, HEADER_SIZE, body)
    requires |image| == |started| && image[..HEADER_SIZE + |body|] == started[..HEADER_SIZE + |body|]
    ensures image[HEADER_SIZE..HEADER_SIZE + |body|] == body
  {
    PatchInside(initial, HEADER_SIZE, body, 0, |body|);
    var base := HEADER_SIZE + |body|;
    assert image[HEADER_SIZE..base] == image[..base][HEADER_SIZE..base];
    assert started[HEADER_SIZE..base] == started[..base][HEADER_SIZE..base];
    assert started[HEADER_SIZE + 0..HEADER_SIZE + |body|] == body[0..|body|] == body;
  }

  /** The header in front of a finished body and attributes reads back exactly if nothing was cut. */
  lemma MessageReads(
    image: seq<Byte>, body: seq<Byte>, attributes: seq<Attribute>, kind: nat, flags: nat, sequence: nat)
    requires MessageSize(body, attributes) <= |image| && kind < U16 && flags < U16 && sequence < U32
    requires image[HEADER_SIZE..HEADER_SIZE + |body|] == body
    requires
      Walk(image[HEADER_SIZE + |body|..MessageSize(body, attributes)]) == Some(attributes) <==> AllFit(attributes)
    ensures
      var length := MessageSize(body, attributes);
      var message := Patch(image, 0, EncodeHeader(length, kind, flags, sequence, 0))[..length];
      Reads(message, Header(length, kind, flags, sequence, 0), body, attributes)
      <==> AllFit(attributes) && length < U32
  {
    var length := MessageSize(body, attributes);
    var header := EncodeHeader(length, kind, flags, sequence, 0);
    CutSlices(image, header, HEADER_SIZE + |body|, length);
    if length < U32 {
      FinishedMessage(image, length, kind, flags, sequence);
    }
  }

  /** Behind its header a message is what the buffer held. */
  lemma CutSlices(image: seq<Byte>, header: seq<Byte>, m: nat, length: nat)
    requires HEADER_SIZE <= m <= length <= |image| && |header| == HEADER_SIZE
    ensures Patch(image, 0, header)[..length][HEADER_SIZE..m] == image[HEADER_SIZE..m]
    ensures Patch(image, 0, header)[..length][m..] == image[m..length]
  {
    var patched := Patch(image, 0, header);
    PatchOutside(image, 0, header, HEADER_SIZE, m);
    PatchOutside(image, 0, header, m, length);
    SliceSlice(patched, 0, length, HEADER_SIZE, m);
    SliceSlice(patched, 0, length, m, length);
    var message := patched[..length];
    assert patched[0..length] == message && message[m..length] == message[m..];
  }

  // ----- the two messages -----

  const ADDRESS_SIZE := 40
  const ADDRESS_FLAGS := NLM_F_REQUEST + NLM_F_CREATE + NLM_F_EXCL + NLM_F_ACK
  const LOCAL := Attribute(IFA_LOCAL, LOOPBACK)
  const ADDRESS := Attribute(IFA_ADDRESS, LOOPBACK)

  /** The buffer with the body and both attributes of the address message in place. */
  function AddressImage(bytes: seq<Byte>, index: nat): (image: seq<Byte>)
    requires |bytes| >= ADDRESS_SIZE
    ensures |image| == |bytes|
  {
    WithAttribute(WithAttribute(Patch(bytes, HEADER_SIZE, AddressBody(index)), 24, LOCAL), 32, ADDRESS)
  }

  /** Whatever the buffer held, the body and exactly the two attributes are read back. */
  lemma AddressImageReads(bytes: seq<Byte>, index: nat)
    requires |bytes| >= ADDRESS_SIZE
    ensures AddressImage(bytes, index)[HEADER_SIZE..24] == AddressBody(index)
    ensures Walk(AddressImage(bytes, index)[24..ADDRESS_SIZE]) == Some([LOCAL, ADDRESS])
  {
    var body := AddressBody(index);
    var start := Patch(bytes, HEADER_SIZE, body);
    PatchInside(bytes, HEADER_SIZE, body, 0, 8);
    assert body[0..8] == body;
    WithAttributeBelow(start, 24, LOCAL, HEADER_SIZE, 24);
    WithAttributeBelow(WithAttribute(start, 24, LOCAL), 32, ADDRESS, HEADER_SIZE, 24);
    BothAttributesWalk(start);
  }

  lemma BothAttributesWalk(start: seq<Byte>)
    requires |start| >= ADDRESS_SIZE
    ensures
      Walk(WithAttribute(WithAttribute(start, 24, LOCAL), 32, ADDRESS)[24..ADDRESS_SIZE]) == Some([LOCAL, ADDRESS])
  {
    var first := WithAttribute(start, 24, LOCAL);
    assert AttributeEnd(|start|, 24, LOCAL.payload) == Ok(32) && AttributeEnd(|first|, 32, ADDRESS.payload) == Ok(40);
    assert start[24..24] == [] && Walk([]) == Some([]);
    WrittenAttributeWalks(start, 24, 24, LOCAL);
    assert [] + [LOCAL] == [LOCAL];
    assert Walk(first[24..32]) == Some([LOCAL]);
    WrittenAttributeWalks(first, 24, 32, ADDRESS);
    assert [LOCAL] + [ADDRESS] == [LOCAL, ADDRESS];
  }

  /** The part of the address message behind the header. */
  method WriteAddressBody(buffer: array<Byte>, index: nat) returns (r: Result<nat, Netlink>)
    requires index < U32
    modifies buffer
    ensures r == if ADDRESS_SIZE <= buffer.Length then Ok(ADDRESS_SIZE) else Err(BufferTooSmall)
    ensures r.Ok? ==> buffer[..] == AddressImage(old(buffer[..]), index)
  {
    var body :- WriteBytes(buffer, HEADER_SIZE, AddressBody(index));
    var local :- WriteAttribute(buffer, body, IFA_LOCAL, LOOPBACK);
    r := WriteAttribute(buffer, local, IFA_ADDRESS, LOOPBACK);
  }

  method WriteAddLoopbackAddress(buffer: array<Byte>, index: nat, sequence: nat)
    returns (r: Result<(nat, seq<Byte>), Netlink>, nextSequence: nat)
    requires sequence < U32 && index < U32
    modifies buffer
    ensures r.Ok? <==> ADDRESS_SIZE <= buffer.Length && sequence + 1 < U32
    ensures r.Err? ==> r.error == if ADDRESS_SIZE <= buffer.Length then IntegerOverflow else BufferTooSmall
    ensures nextSequence == if r.Ok? then sequence + 1 else sequence
    ensures r.Ok? ==> r.value.0 == sequence
    ensures r.Ok? ==>
      Reads(
        r.value.1, Header(ADDRESS_SIZE, RTM_NEWADDR, ADDRESS_FLAGS, sequence, 0), AddressBody(index),
        [LOCAL, ADDRESS])
    ensures r.Ok? ==>
      r.value.1 ==
      [40, 0, 0, 0, 20, 0, 5, 6] + Encode32(sequence) + [0, 0, 0, 0] + [2, 8, 128, 254] + Encode32(index) +
      [8, 0, 2, 0, 127, 0, 0, 1] + [8, 0, 1, 0, 127, 0, 0, 1]
  {
    nextSequence := sequence;
    ghost var initial := buffer[..];
    var body := WriteAddressBody(buffer, index);
    if body.Err? {
      return Err(body.error), nextSequence;
    }
    r, nextSequence := FinishMessage(buffer, body.value, RTM_NEWADDR, ADDRESS_FLAGS, sequence);
    if r.Ok? {
      AddressMessageReads(initial, index, sequence);
      AddressMessageBytes(initial, index, sequence);
      assert buffer[..ADDRESS_SIZE] == buffer[..][..ADDRESS_SIZE];
    }
  }

  /** The whole message, byte for byte. */
  lemma AddressMessageBytes(bytes: seq<Byte>, index: nat, sequence: nat)
    requires |bytes| >= 40
    ensures
      var header := EncodeHeader(ADDRESS_SIZE, RTM_NEWADDR, ADDRESS_FLAGS, sequence, 0);
      Patch(AddressImage(bytes, index), 0, header)[..40] ==
        [40, 0, 0, 0, 20, 0, 5, 6] + Encode32(sequence) + [0, 0, 0, 0] + [2, 8, 128, 254] + Encode32(index) +
        [8, 0, 2, 0, 127, 0, 0, 1] + [8, 0, 1, 0, 127, 0, 0, 1]
  {
  }

  lemma AddressMessageReads(bytes: seq<Byte>, index: nat, sequence: nat)
    requires |bytes| >= ADDRESS_SIZE && sequence < U32
    ensures
      var header := EncodeHeader(ADDRESS_SIZE, RTM_NEWADDR, ADDRESS_FLAGS, sequence, 0);
      Reads(Patch(AddressImage(bytes, index), 0, header)[..ADDRESS_SIZE],
        Header(ADDRESS_SIZE, RTM_NEWADDR, ADDRESS_FLAGS, sequence, 0), AddressBody(index), [LOCAL, ADDRESS])
  {
    var image := AddressImage(bytes, index);
    var header := EncodeHeader(ADDRESS_SIZE, RTM_NEWADDR, ADDRESS_FLAGS, sequence, 0);
    var message := Patch(image, 0, header)[..ADDRESS_SIZE];
    FinishedMessage(image, ADDRESS_SIZE, RTM_NEWADDR, ADDRESS_FLAGS, sequence);
    AddressImageReads(bytes, index);
    var tail := message[HEADER_SIZE..];
    assert message[HEADER_SIZE..24] == tail[0..8] && message[24..] == tail[8..];
    assert tail == image[HEADER_SIZE..ADDRESS_SIZE];
    SliceSlice(image, HEADER_SIZE, ADDRESS_SIZE, 0, 8);
    SliceSlice(image, HEADER_SIZE, ADDRESS_SIZE, 8, 24);
  }

  const LINK_SIZE := 32
  const LINK_FLAGS := NLM_F_REQUEST + NLM_F_ACK

  method WriteBringUpLoopbackDevice(buffer: array<Byte>, index: nat, sequence: nat)
    returns (r: Result<(nat, seq<Byte>), Netlink>, nextSequence: nat)
    requires sequence < U32 && index < U32
    modifies buffer
    ensures r.Ok? <==> LINK_SIZE <= buffer.Length && sequence + 1 < U32
    ensures r.Err? ==> r.error == if LINK_SIZE <= buffer.Length then IntegerOverflow else BufferTooSmall
    ensures nextSequence == if r.Ok? then sequence + 1 else sequence
    ensures r.Ok? ==> r.value.0 == sequence
    ensures r.Ok? ==>
      Reads(r.value.1, Header(LINK_SIZE, RTM_NEWLINK, LINK_FLAGS, sequence, 0), LinkBody(index), [])
    ensures r.Ok? ==>
      r.value.1 ==
      [32, 0, 0, 0, 16, 0, 5, 0] + Encode32(sequence) + [0, 0, 0, 0] + [0, 0, 0, 0] + Encode32(index) +
      [1, 0, 0, 0, 1, 0, 0, 0]
  {
    nextSequence := sequence;
    ghost var initial := buffer[..];
    var body := WriteBytes(buffer, HEADER_SIZE, LinkBody(index));
    if body.Err? {
      return Err(body.error), nextSequence;
    }
    r, nextSequence := FinishMessage(buffer, body.value, RTM_NEWLINK, LINK_FLAGS, sequence);
    if r.Ok? {
      LinkMessageReads(initial, index, sequence);
      LinkMessageBytes(initial, index, sequence);
      assert buffer[..LINK_SIZE] == buffer[..][..LINK_SIZE];
    }
  }

  lemma LinkMessageBytes(bytes: seq<Byte>, index: nat, sequence: nat)
    requires |bytes| >= 32
    ensures
      var header := EncodeHeader(LINK_SIZE, RTM_NEWLINK, LINK_FLAGS, sequence, 0);
      Patch(Patch(bytes, HEADER_SIZE, LinkBody(index)), 0, header)[..32] ==
        [32, 0, 0, 0, 16, 0, 5, 0] + Encode32(sequence) + [0, 0, 0, 0] + [0, 0, 0, 0] + Encode32(index) +
        [1, 0, 0, 0, 1, 0, 0, 0]
  {
  }

  lemma LinkMessageReads(bytes: seq<Byte>, index: nat, sequence: nat)
    requires |bytes| >= LINK_SIZE && sequence < U32
    ensures
      var header := EncodeHeader(LINK_SIZE, RTM_NEWLINK, LINK_FLAGS, sequence, 0);
      Reads(Patch(Patch(bytes, HEADER_SIZE, LinkBody(index)), 0, header)[..LINK_SIZE],
        Header(LINK_SIZE, RTM_NEWLINK, LINK_FLAGS, sequence, 0), LinkBody(index), [])
  {
    var body := LinkBody(index);
    var image := Patch(bytes, HEADER_SIZE, body);
    FinishedMessage(image, LINK_SIZE, RTM_NEWLINK, LINK_FLAGS, sequence);
    PatchInside(bytes, HEADER_SIZE, body, 0, 16);
    WholeSlice(body);
  }

  // ----- acknowledgements -----

  /** A header fits at the offset and its length is neither too short nor past the end. */
  predicate WellFormedAt(datagram: seq<Byte>, offset: nat) {
    && offset + HEADER_SIZE <= |datagram|
    && HEADER_SIZE <= HeaderAt(datagram, offset).length <= |datagram| - offset
  }

  function ErrorCode(datagram: seq<Byte>, offset: nat): int
    requires offset + HEADER_SIZE + ERROR_SIZE <= |datagram|
  {
    ToI32(Word32At(datagram, offset + HEADER_SIZE))
  }

  /** The outcome an error message stands for. */
  function Acknowledged(code: int): Result<(), Netlink> {
    if code == 0 then Ok(())
    else if -4095 <= code <= -1 then Err(NetlinkErrno(code + U16))
    else Err(InvalidError(code))
  }

  datatype Look = Answer(result: Result<(), Netlink>) | Skip(next: nat)

  /** What the walker does at one offset of a datagram. */
  function LookAt(datagram: seq<Byte>, offset: nat, sequence: nat): (look: Look)
    ensures look.Skip? ==> look.next >= offset + HEADER_SIZE
  {
    if !WellFormedAt(datagram, offset) then Answer(Err(MalformedHeader))
    else
      var header := HeaderAt(datagram, offset);
      if header.sequence != sequence then Answer(Err(SequenceMismatch))
      else if header.kind == NLMSG_ERROR then
        if HEADER_SIZE + ERROR_SIZE > header.length then Answer(Err(IncorrectSize))
        else Answer(Acknowledged(ErrorCode(datagram, offset)))
      else Skip(offset + Align4(header.length))
  }

  /** The answer found in a datagram, if any. */
  function Answered(datagram: seq<Byte>, offset: nat, sequence: nat): Option<Result<(), Netlink>>
    decreases |datagram| - offset
  {
    if offset >= |datagram| then None
    else
      match LookAt(datagram, offset, sequence)
      case Answer(result) => Some(result)
      case Skip(next) => Answered(datagram, next, sequence)
  }

  /** The inner loop over one received datagram; the buffer may hold older bytes beyond it. */
  method WalkDatagram(buffer: array<Byte>, received: nat, sequence: nat) returns (r: Option<Result<(), Netlink>>)
    requires received <= buffer.Length
    ensures r == Answered(buffer[..received], 0, sequence)
  {
    var datagram := buffer[..received];
    var offset := 0;
    while offset < received
      invariant Answered(datagram, 0, sequence) == Answered(datagram, offset, sequence)
      decreases received - offset
    {
      var remaining := received - offset;
      if remaining < HEADER_SIZE {
        return Some(Err(MalformedHeader));
      }
      var header := HeaderAt(datagram, offset);
      if header.length < HEADER_SIZE || header.length > remaining {
        return Some(Err(MalformedHeader));
      }
      if header.sequence != sequence {
        return Some(Err(SequenceMismatch));
      }
      if header.kind == NLMSG_ERROR {
        if HEADER_SIZE + ERROR_SIZE > header.length {
          return Some(Err(IncorrectSize));
        }
        var code := ErrorCode(datagram, offset);
        if code == 0 {
          return Some(Ok(()));
        } else if -4095 <= code <= -1 {
          return Some(Err(NetlinkErrno(code + U16)));
        } else {
          return Some(Err(InvalidError(code)));
        }
      }
      offset := offset + Align4(header.length);
    }
    return None;
  }

  // an independent reading of the same datagram: a chain of messages, and what it leads to

  ghost predicate Passed(datagram: seq<Byte>, offset: nat, sequence: nat) {
    && WellFormedAt(datagram, offset)
    && HeaderAt(datagram, offset).sequence == sequence
    && HeaderAt(datagram, offset).kind != 2
  }

  /** Offsets of consecutive messages, each but the last passed over. */
  ghost predicate Chain(datagram: seq<Byte>, sequence: nat, start: nat, offsets: seq<nat>) {
    && offsets != [] && offsets[0] == start
    && (forall i :: 0 <= i < |offsets| - 1 ==> Passed(datagram, offsets[i], sequence))
    && (forall i :: 0 <= i < |offsets| - 1 && WellFormedAt(datagram, offsets[i]) ==>
      offsets[i + 1] == offsets[i] + Align4(HeaderAt(datagram, offsets[i]).length))
  }

  datatype End = Exhausted | Malformed | Foreign | Short | Code(code: int)

  /** What is found at the end of a chain. */
  ghost predicate EndIs(datagram: seq<Byte>, offset: nat, sequence: nat, end: End) {
    match end
    case Exhausted => offset >= |datagram|
    case Malformed => offset < |datagram| && !WellFormedAt(datagram, offset)
    case Foreign => WellFormedAt(datagram, offset) && HeaderAt(datagram, offset).sequence != sequence
    case Short =>
      && WellFormedAt(datagram, offset) && HeaderAt(datagram, offset).sequence == sequence
      && HeaderAt(datagram, offset).kind == 2 && HeaderAt(datagram, offset).length < 36
    case Code(code) =>
      && WellFormedAt(datagram, offset) && HeaderAt(datagram, offset).sequence == sequence
      && HeaderAt(datagram, offset).kind == 2 && HeaderAt(datagram, offset).length >= 36
      && ErrorCode(datagram, offset) == code
  }

  /** The messages of the datagram lead to this end. */
  ghost predicate Leads(datagram: seq<Byte>, sequence: nat, end: End) {
    exists offsets :: Chain(datagram, sequence, 0, offsets) && EndIs(datagram, offsets[|offsets| - 1], sequence, end)
  }

  /** Byte for byte, least significant first: length, type, flags, sequence number and port of a message header. */
  lemma HeaderLayout(bytes: seq<Byte>, at: nat)
    requires at + 16 <= |bytes|
    ensures
      HeaderAt(bytes, at) == Header(
        LittleEndian(bytes[at..at + 4]),
        LittleEndian(bytes[at + 4..at + 6]),
        LittleEndian(bytes[at + 6..at + 8]),
        LittleEndian(bytes[at + 8..at + 12]),
        LittleEndian(bytes[at + 12..at + 16]))
    ensures WellFormedAt(bytes, at) <==> 16 <= HeaderAt(bytes, at).length <= |bytes| - at
  {
    FourBytes(bytes[at..at + 4]);
    TwoBytes(bytes[at + 4..at + 6]);
    TwoBytes(bytes[at + 6..at + 8]);
    FourBytes(bytes[at + 8..at + 12]);
    FourBytes(bytes[at + 12..at + 16]);
  }

  /** A number of any width, the least significant byte first. */
  function LittleEndian(bytes: seq<Byte>): nat {
    if bytes == [] then 0 else bytes[0] as int + 256 * LittleEndian(bytes[1..])
  }

  lemma TwoBytes(b: seq<Byte>)
    requires |b| == 2
    ensures LittleEndian(b) == b[0] as int + 256 * (b[1] as int)
  {
    var rest := b[1..];
    assert rest[1..] == [] && LittleEndian(rest) == rest[0] + 256 * LittleEndian(rest[1..]);
  }

  lemma FourBytes(b: seq<Byte>)
    requires |b| == 4
    ensures LittleEndian(b) == b[0] as int + 256 * (b[1] as int) + 65536 * (b[2] as int) + 16777216 * (b[3] as int)
  {
    TwoBytes(b[2..]);
    var rest := b[1..];
    assert rest[1..] == b[2..] && LittleEndian(rest) == rest[0] + 256 * LittleEndian(rest[1..]);
  }

  lemma NoRoomForHeader(bytes: seq<Byte>, at: nat)
    requires at + 16 > |bytes|
    ensures !WellFormedAt(bytes, at)
  {
  }

  /** The error code follows the header, as a signed word. */
  lemma CodeLayout(bytes: seq<Byte>, at: nat)
    requires at + 36 <= |bytes|
    ensures
      var word := LittleEndian(bytes[at + 16..at + 20]);
      ErrorCode(bytes, at) == if bytes[at + 19] >= 128 then word - 0x1_0000_0000 else word
  {
    FourBytes(bytes[at + 16..at + 20]);
  }

  /** Every datagram has its chain. */
  lemma {:induction false} ChainFound(datagram: seq<Byte>, start: nat, sequence: nat) returns (offsets: seq<nat>)
    ensures Chain(datagram, sequence, start, offsets) && !Passed(datagram, offsets[|offsets| - 1], sequence)
    decreases if start < |datagram| then |datagram| - start else 0
  {
    offsets := [start];
    if Passed(datagram, start, sequence) {
      var next := start + Align4(HeaderAt(datagram, start).length);
      var rest := ChainFound(datagram, next, sequence);
      offsets := [start] + rest;
      ChainCons(datagram, sequence, start, rest);
      assert offsets[|offsets| - 1] == rest[|rest| - 1];
    }
  }

  lemma ChainCons(datagram: seq<Byte>, sequence: nat, start: nat, rest: seq<nat>)
    requires Passed(datagram, start, sequence)
    requires Chain(datagram, sequence, start + Align4(HeaderAt(datagram, start).length), rest)
    ensures Chain(datagram, sequence, start, [start] + rest)
  {
    var offsets := [start] + rest;
    assert offsets[1] == rest[0];
    assert forall i :: 1 <= i < |offsets| ==> offsets[i] == rest[i - 1];
  }

  /** The walk goes along the chain. */
  lemma {:induction false} AnswerAlong(datagram: seq<Byte>, sequence: nat, start: nat, offsets: seq<nat>)
    requires Chain(datagram, sequence, start, offsets)
    ensures Answered(datagram, start, sequence) == Answered(datagram, offsets[|offsets| - 1], sequence)
    decreases |offsets|
  {
    if |offsets| > 1 {
      assert Passed(datagram, offsets[0], sequence);
      var rest := offsets[1..];
      assert forall i :: 0 <= i < |rest| ==> rest[i] == offsets[i + 1];
      AnswerAlong(datagram, sequence, offsets[1], rest);
    }
  }

  /** The answer each end stands for: the kernel's own error number, or the error of the walk. */
  predicate Means(answer: Option<Result<(), Netlink>>, end: End) {
    match end
    case Exhausted => answer == None
    case Malformed => answer == Some(Err(MalformedHeader))
    case Foreign => answer == Some(Err(SequenceMismatch))
    case Short => answer == Some(Err(IncorrectSize))
    case Code(code) =>
      answer.Some? &&
      if code == 0 then answer.value.Ok?
      else if -4095 <= code <= -1 then
        answer.value.Err? && answer.value.error.NetlinkErrno? && RawOsError(answer.value.error.error) == -code
      else answer == Some(Err(InvalidError(code)))
  }

  lemma AnswerAtEnd(datagram: seq<Byte>, sequence: nat, offset: nat, end: End)
    requires EndIs(datagram, offset, sequence, end)
    ensures Means(Answered(datagram, offset, sequence), end)
  {
  }

  /** Every datagram leads to an end, and the answer is what that end stands for. */
  lemma AnswerMeans(datagram: seq<Byte>, sequence: nat) returns (end: End)
    ensures Leads(datagram, sequence, end) && Means(Answered(datagram, 0, sequence), end)
  {
    var offsets := ChainFound(datagram, 0, sequence);
    var last := offsets[|offsets| - 1];
    if last >= |datagram| {
      end := Exhausted;
    } else if !WellFormedAt(datagram, last) {
      end := Malformed;
    } else if HeaderAt(datagram, last).sequence != sequence {
      end := Foreign;
    } else if HeaderAt(datagram, last).length < 36 {
      end := Short;
    } else {
      end := Code(ErrorCode(datagram, last));
    }
    AnswerAlong(datagram, sequence, 0, offsets);
    AnswerAtEnd(datagram, sequence, last, end);
  }

  lemma LeadsMeans(datagram: seq<Byte>, sequence: nat, end: End)
    requires Leads(datagram, sequence, end)
    ensures Means(Answered(datagram, 0, sequence), end)
  {
    var offsets :| Chain(datagram, sequence, 0, offsets) && EndIs(datagram, offsets[|offsets| - 1], sequence, end);
    AnswerAlong(datagram, sequence, 0, offsets);
    AnswerAtEnd(datagram, sequence, offsets[|offsets| - 1], end);
  }

  lemma MeansOnce(answer: Option<Result<(), Netlink>>, end: End, other: End)
    requires Means(answer, end) && Means(answer, other)
    ensures end == other
  {
  }

  /** For every datagram and every outcome, both ways: which answer is given is decided by what the chain leads to. */
  lemma AnswerExactly(datagram: seq<Byte>, sequence: nat, end: End)
    ensures Means(Answered(datagram, 0, sequence), end) <==> Leads(datagram, sequence, end)
  {
    var found := AnswerMeans(datagram, sequence);
    if Means(Answered(datagram, 0, sequence), end) {
      MeansOnce(Answered(datagram, 0, sequence), end, found);
    }
    if Leads(datagram, sequence, end) {
      LeadsMeans(datagram, sequence, end);
    }
  }

  /** What one turn of the outer loop meets. */
  datatype Event =
    | Timeout
    | PollFailed(failure: SyscallError)
    | TryAgain
    | ReceiveFailed(failure: SyscallError)
    | Truncated
    | Datagram(bytes: seq<Byte>)

  const RECEIVE_BUFFER := 1024

  predicate Receivable(events: seq<Event>) {
    forall i :: 0 <= i < |events| && events[i].Datagram? ==> |events[i].bytes| <= RECEIVE_BUFFER
  }

  /** The walker learns nothing from this event and waits for the next. */
  ghost predicate Skips(event: Event, sequence: nat) {
    event.TryAgain? || (event.Datagram? && Leads(event.bytes, sequence, Exhausted))
  }

  ghost predicate DecidesAt(events: seq<Event>, sequence: nat, i: int) {
    0 <= i < |events| && !Skips(events[i], sequence) && forall j :: 0 <= j < i ==> Skips(events[j], sequence)
  }

  lemma DecidesOnce(events: seq<Event>, sequence: nat, k: int)
    requires DecidesAt(events, sequence, k)
    ensures forall i :: DecidesAt(events, sequence, i) <==> i == k
  {
  }

  /** The first event that decides is a datagram whose messages lead to this end. */
  ghost predicate DecidedBy(events: seq<Event>, sequence: nat, end: End) {
    exists i :: DecidesAt(events, sequence, i) && events[i].Datagram? && Leads(events[i].bytes, sequence, end)
  }

  predicate FailsWith(event: Event, failure: SyscallError) {
    event == PollFailed(failure) || event == ReceiveFailed(failure)
  }

  /** What one deciding event makes of the call. */
  ghost predicate Concludes(event: Event, sequence: nat, r: Result<(), Netlink>) {
    match event
    case Timeout => r == Err(AckTimeout)
    case PollFailed(failure) => r == Err(NetlinkSyscall(failure))
    case TryAgain => false
    case ReceiveFailed(failure) => r == Err(NetlinkSyscall(failure))
    case Truncated => r == Err(TruncatedMessage)
    case Datagram(bytes) => Answered(bytes, 0, sequence) == Some(r)
  }

  /**
    * The outer loop. It succeeds exactly if the messages of the first datagram that decides lead to code 0, and reports
    * exactly the error number the kernel sends; it times out exactly if nothing else decides before the polling budget
    * is used up; every other error has one cause, too.
    */
  method CheckForAck(events: seq<Event>, sequence: nat) returns (r: Result<(), Netlink>)
    requires Receivable(events)
    ensures r.Ok? <==> DecidedBy(events, sequence, Code(0))
    ensures forall e: Errno :: r == Err(NetlinkErrno(e)) <==> DecidedBy(events, sequence, Code(-RawOsError(e)))
    ensures forall code ::
      r == Err(InvalidError(code)) <==> DecidedBy(events, sequence, Code(code)) && (code > 0 || code < -4095)
    ensures r == Err(MalformedHeader) <==> DecidedBy(events, sequence, Malformed)
    ensures r == Err(SequenceMismatch) <==> DecidedBy(events, sequence, Foreign)
    ensures r == Err(IncorrectSize) <==> DecidedBy(events, sequence, Short)
    ensures r == Err(AckTimeout) <==> forall i :: DecidesAt(events, sequence, i) ==> events[i].Timeout?
    ensures r == Err(TruncatedMessage) <==> exists i :: DecidesAt(events, sequence, i) && events[i].Truncated?
    ensures forall failure :: r == Err(NetlinkSyscall(failure)) <==>
      exists i :: DecidesAt(events, sequence, i) && FailsWith(events[i], failure)
  {
    ghost var k;
    r, k := WaitForAck(events, sequence);
    if k < |events| && events[k].Datagram? {
      DatagramDecides(events, sequence, k, r);
      DatagramConcludes(events, sequence, r);
      OtherCauses(events, sequence, k, r);
    } else {
      NoDatagramDecides(events, sequence, k);
      OtherCauses(events, sequence, k, r);
    }
  }

  /** Timeouts, truncation and failed calls are reported exactly for the events that stand for them. */
  lemma OtherCauses(events: seq<Event>, sequence: nat, k: nat, r: Result<(), Netlink>)
    requires k <= |events| && forall j :: 0 <= j < k ==> Skips(events[j], sequence)
    requires k < |events| ==> DecidesAt(events, sequence, k) && Concludes(events[k], sequence, r)
    requires k == |events| ==> r == Err(AckTimeout)
    requires k < |events| && events[k].Datagram? ==> r.Ok? || DatagramError(r.error)
    ensures r == Err(AckTimeout) <==> forall i :: DecidesAt(events, sequence, i) ==> events[i].Timeout?
    ensures r == Err(TruncatedMessage) <==> exists i :: DecidesAt(events, sequence, i) && events[i].Truncated?
    ensures forall failure :: r == Err(NetlinkSyscall(failure)) <==>
      exists i :: DecidesAt(events, sequence, i) && FailsWith(events[i], failure)
    ensures k == |events| || !events[k].Datagram? ==> r.Err? && !DatagramError(r.error)
  {
    if k < |events| {
      DecidesOnce(events, sequence, k);
    }
  }

  lemma DatagramConcludes(events: seq<Event>, sequence: nat, r: Result<(), Netlink>)
    requires forall end :: DecidedBy(events, sequence, end) <==> Means(Some(r), end)
    requires r.Err? && r.error.InvalidError? ==> r.error.code > 0 || r.error.code < -4095
    ensures r.Ok? <==> DecidedBy(events, sequence, Code(0))
    ensures forall e: Errno :: r == Err(NetlinkErrno(e)) <==> DecidedBy(events, sequence, Code(-RawOsError(e)))
    ensures forall code ::
      r == Err(InvalidError(code)) <==> DecidedBy(events, sequence, Code(code)) && (code > 0 || code < -4095)
    ensures r == Err(MalformedHeader) <==> DecidedBy(events, sequence, Malformed)
    ensures r == Err(SequenceMismatch) <==> DecidedBy(events, sequence, Foreign)
    ensures r == Err(IncorrectSize) <==> DecidedBy(events, sequence, Short)
  {
    CodesOf(r);
  }

  lemma NoDatagramDecides(events: seq<Event>, sequence: nat, k: nat)
    requires k <= |events| && forall j :: 0 <= j < k ==> Skips(events[j], sequence)
    requires k < |events| ==> DecidesAt(events, sequence, k) && !events[k].Datagram?
    ensures forall end :: !DecidedBy(events, sequence, end)
  {
    if k < |events| {
      DecidesOnce(events, sequence, k);
    }
  }

  /** The outcomes that codes stand for, code by code. */
  lemma CodesOf(r: Result<(), Netlink>)
    ensures r.Ok? <==> Means(Some(r), Code(0))
    ensures forall e: Errno :: r == Err(NetlinkErrno(e)) <==> Means(Some(r), Code(-RawOsError(e)))
    ensures forall code :: r == Err(InvalidError(code)) && (code > 0 || code < -4095) <==>
      Means(Some(r), Code(code)) && (code > 0 || code < -4095)
  {
    forall e: Errno ensures r == Err(NetlinkErrno(e)) <==> Means(Some(r), Code(-RawOsError(e))) {
      if Means(Some(r), Code(-RawOsError(e))) {
        assert r.error.error == e;
      }
    }
  }

  /** A deciding datagram: each of its possible ends is the one that decides, or not. */
  lemma DatagramDecides(events: seq<Event>, sequence: nat, k: nat, r: Result<(), Netlink>)
    requires k < |events| && events[k].Datagram? && DecidesAt(events, sequence, k)
    requires Answered(events[k].bytes, 0, sequence) == Some(r)
    ensures forall end :: DecidedBy(events, sequence, end) <==> Means(Some(r), end)
    ensures r.Ok? || DatagramError(r.error)
    ensures r.Err? && r.error.InvalidError? ==> r.error.code > 0 || r.error.code < -4095
  {
    DecidesOnce(events, sequence, k);
    forall end ensures DecidedBy(events, sequence, end) <==> Means(Some(r), end) {
      AnswerExactly(events[k].bytes, sequence, end);
    }
    var end := AnswerMeans(events[k].bytes, sequence);
  }

  /** The errors a walk over a datagram can report. */
  predicate DatagramError(error: Netlink) {
    || error.MalformedHeader?
    || error.SequenceMismatch?
    || error.IncorrectSize?
    || error.NetlinkErrno?
    || error.InvalidError?
  }

  /** The loop itself; `k` is the event that decides, or the number of events if none does. */
  method WaitForAck(events: seq<Event>, sequence: nat) returns (r: Result<(), Netlink>, ghost k: nat)
    requires Receivable(events)
    ensures k <= |events| && forall j :: 0 <= j < k ==> Skips(events[j], sequence)
    ensures k < |events| ==> DecidesAt(events, sequence, k) && Concludes(events[k], sequence, r)
    ensures k == |events| ==> r == Err(AckTimeout)
  {
    var buffer := new Byte[RECEIVE_BUFFER](_ => 0);
    for i := 0 to |events|
      invariant forall j :: 0 <= j < i ==> Skips(events[j], sequence)
    {
      match events[i] {
        case Timeout => return Err(AckTimeout), i;
        case PollFailed(failure) => return Err(NetlinkSyscall(failure)), i;
        case TryAgain =>
        case ReceiveFailed(failure) => return Err(NetlinkSyscall(failure)), i;
        case Truncated => return Err(TruncatedMessage), i;
        case Datagram(bytes) =>
          forall j | 0 <= j < |bytes| {
            buffer[j] := bytes[j];
          }
          assert buffer[..|bytes|] == bytes;
          var answer := WalkDatagram(buffer, |bytes|, sequence);
          AnswerExactly(bytes, sequence, Exhausted);
          if answer.Some? {
            return answer.value, i;
          }
      }
    }
    return Err(AckTimeout), |events|;
  }
}
