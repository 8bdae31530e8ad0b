/** The CoAP option sequence: the delta-coded, length-prefixed
    type-length-value records that follow the token (section 3.1 of
    RFC 7252), as the option iterator and the validator of coap/msg.h walk
    them. Positions are offsets into the message content (the bytes after the
    four-byte header, up to the message length). */
module CoapOptions {
  import opened Common

  /** `AVS_COAP_PAYLOAD_MARKER`. */
  const PAYLOAD_MARKER: byte := 0xFF

  /** Nibble values with a special meaning in an option header byte. */
  const NIBBLE_EXT8: nat := 13
  const NIBBLE_EXT16: nat := 14
  const NIBBLE_RESERVED: nat := 15

  /** Offsets added to an extended delta or length. */
  const EXT8_BASE: nat := 13
  const EXT16_BASE: nat := 269

  /** The largest delta or length the two-byte extension can carry. */
  const MAX_EXT_VALUE: nat := EXT16_BASE + 0xFFFF

  /** Why a message fails validation. */
  datatype Malformation =
    | MalformedHeader          // wrong version or a token length above 8
    | TruncatedBuffer          // the header, the token or an option value runs past the message length
    | MalformedOption          // a reserved (15) nibble, or extension bytes past the message length
    | EmptyPayloadAfterMarker  // the payload marker is the last byte

  function DeltaNibble(b: byte): (n: nat)
    ensures n < 16
  {
    (b / 16) as nat
  }

  function LengthNibble(b: byte): (n: nat)
    ensures n < 16
  {
    (b % 16) as nat
  }

  /** Both nibbles are 15 exactly when the byte is the payload marker. */
  lemma MarkerNibbles(b: byte)
    ensures (DeltaNibble(b) == NIBBLE_RESERVED && LengthNibble(b) == NIBBLE_RESERVED) <==> b == PAYLOAD_MARKER
  {
  }

  /** A decoded delta or length and the position just after its extension bytes. */
  datatype Extended = Extended(value: nat, next: nat)

  /** Decodes a delta or length nibble, reading its extension bytes from
      `pos`: 0-12 are literal, 13 adds one byte to 13, 14 adds a big-endian
      two-byte value to 269. `None` when the extension runs past the end. */
  function ReadExtended(b: seq<byte>, pos: nat, nibble: nat): (r: Option<Extended>)
    requires pos <= |b| && nibble < NIBBLE_RESERVED
    ensures r.Some? ==> pos <= r.value.next <= |b| && r.value.value <= MAX_EXT_VALUE
    ensures r.None? <==> (nibble == NIBBLE_EXT8 && pos + 1 > |b|) || (nibble == NIBBLE_EXT16 && pos + 2 > |b|)
    ensures r.Some? && nibble < NIBBLE_EXT8 ==> r.value == Extended(nibble, pos)
  {
    if nibble < NIBBLE_EXT8 then Some(Extended(nibble, pos))
    else if nibble == NIBBLE_EXT8 then
      if pos + 1 <= |b| then Some(Extended(EXT8_BASE + b[pos] as nat, pos + 1)) else None
    else
      if pos + 2 <= |b| then Some(Extended(EXT16_BASE + b[pos] as nat * 256 + b[pos + 1] as nat, pos + 2)) else None
  }

  /** One decoded option: its delta, and where its value lies. */
  datatype OptionField = OptionField(delta: nat, valueStart: nat, valueLength: nat) {
    function End(): nat { valueStart + valueLength }
  }

  /** Decodes the option whose header byte is at `pos`. Every field it reads
      lies within `b`, and a reserved nibble is rejected. */
  function ParseOption(b: seq<byte>, pos: nat): (r: Result<OptionField, Malformation>)
    requires pos < |b|
    ensures r.Ok? ==> pos < r.value.valueStart && r.value.End() <= |b|
    ensures r.Ok? ==> r.value.delta <= MAX_EXT_VALUE && r.value.valueLength <= MAX_EXT_VALUE
    ensures r.Ok? ==> DeltaNibble(b[pos]) < NIBBLE_RESERVED && LengthNibble(b[pos]) < NIBBLE_RESERVED
    ensures DeltaNibble(b[pos]) == NIBBLE_RESERVED || LengthNibble(b[pos]) == NIBBLE_RESERVED
            ==> r == Err(MalformedOption)
  {
    var dn := DeltaNibble(b[pos]);
    var ln := LengthNibble(b[pos]);
    if dn == NIBBLE_RESERVED || ln == NIBBLE_RESERVED then Err(MalformedOption)
    else
      match ReadExtended(b, pos + 1, dn)
      case None => Err(MalformedOption)
      case Some(d) =>
        match ReadExtended(b, d.next, ln)
        case None => Err(MalformedOption)
        case Some(l) =>
          if l.next + l.value > |b| then Err(TruncatedBuffer)
          else Ok(OptionField(d.value, l.next, l.value))
  }

  lemma OptionIsNotMarker(b: seq<byte>, pos: nat)
    requires pos < |b| && ParseOption(b, pos).Ok?
    ensures b[pos] != PAYLOAD_MARKER
  {
    MarkerNibbles(b[pos]);
  }

  /** An option as the iterator reports it: where its header byte is, its
      reconstructed number, and its decoded fields. */
  datatype OptionEntry = OptionEntry(offset: nat, number: nat, field: OptionField)

  /** The result of walking the option sequence: the options, where the
      sequence ends (the marker, or the end of the content) and whether a
      payload marker was found there. */
  datatype OptionScan = OptionScan(entries: seq<OptionEntry>, end: nat, marker: bool)

  /** Where the `i`-th step of a scan from `pos` stands: the offset of option
      `i`, or the end of the sequence once all options are consumed. */
  function OffsetAt(s: OptionScan, pos: nat, i: nat): nat
    requires i <= |s.entries|
  {
    if i == |s.entries| then s.end else s.entries[i].offset
  }

  /** The number of the option before step `i` (`prev_opt_number`). */
  function NumberBefore(s: OptionScan, prev: nat, i: nat): nat
    requires i <= |s.entries|
  {
    if i == 0 then prev else s.entries[i - 1].number
  }

  /** `s` is the option sequence of `b` read from `pos` with the running
      option number at `prev`: each option starts where the previous one
      ended, decodes at its offset, and carries the previous number plus its
      delta; the sequence ends at the end of `b`, or at a payload marker that
      has at least one payload byte after it. */
  ghost predicate Chained(b: seq<byte>, pos: nat, prev: nat, s: OptionScan)
  {
    && pos <= s.end <= |b|
    && (s.marker ==> s.end + 1 < |b| && b[s.end] == PAYLOAD_MARKER)
    && (!s.marker ==> s.end == |b|)
    && (forall i :: 0 <= i < |s.entries| ==> LinkedEntry(b, pos, prev, s.entries, i))
    && (if s.entries == [] then s.end == pos else s.entries[|s.entries| - 1].field.End() == s.end)
  }

  /** Option `i` of `es` starts where option `i - 1` (or the sequence) starts,
      decodes there, and adds its delta to the previous number. */
  ghost predicate LinkedEntry(b: seq<byte>, pos: nat, prev: nat, es: seq<OptionEntry>, i: nat)
    requires i < |es|
  {
    && es[i].offset == (if i == 0 then pos else es[i - 1].field.End())
    && es[i].offset < |b|
    && ParseOption(b, es[i].offset) == Ok(es[i].field)
    && es[i].number == (if i == 0 then prev else es[i - 1].number) + es[i].field.delta
  }

  /** Walks the options from `pos`, as `avs_coap_opt_next` does, until the
      content ends or the payload marker is reached. A marker with nothing
      after it, and any option that does not decode, is an error. */
  function ScanOptions(b: seq<byte>, pos: nat, prev: nat): (r: Result<OptionScan, Malformation>)
    requires pos <= |b|
    ensures r.Ok? ==> Chained(b, pos, prev, r.value)
    decreases |b| - pos
  {
    if pos == |b| then Ok(OptionScan([], pos, false))
    else if b[pos] == PAYLOAD_MARKER then
      if pos + 1 == |b| then Err(EmptyPayloadAfterMarker) else Ok(OptionScan([], pos, true))
    else
      match ParseOption(b, pos)
      case Err(e) => Err(e)
      case Ok(f) =>
        match ScanOptions(b, f.End(), prev + f.delta)
        case Err(e) => Err(e)
        case Ok(rest) =>
          ChainedCons(b, pos, prev, f, rest);
          Ok(Cons(pos, prev, f, rest))
  }

  /** The scan from `pos`: the option decoded there, followed by the scan
      from where it ends. */
  function Cons(pos: nat, prev: nat, f: OptionField, rest: OptionScan): OptionScan
  {
    OptionScan([OptionEntry(pos, prev + f.delta, f)] + rest.entries, rest.end, rest.marker)
  }

  lemma ChainedCons(b: seq<byte>, pos: nat, prev: nat, f: OptionField, rest: OptionScan)
    requires pos < |b| && ParseOption(b, pos) == Ok(f)
    requires Chained(b, f.End(), prev + f.delta, rest)
    ensures Chained(b, pos, prev, Cons(pos, prev, f, rest))
  {
    var s := Cons(pos, prev, f, rest);
    assert s.entries[0] == OptionEntry(pos, prev + f.delta, f);
    assert LinkedEntry(b, pos, prev, s.entries, 0);
    forall i | 1 <= i < |s.entries|
      ensures LinkedEntry(b, pos, prev, s.entries, i)
    {
      assert s.entries[i] == rest.entries[i - 1];
      assert LinkedEntry(b, f.End(), prev + f.delta, rest.entries, i - 1);
      if i > 1 {
        assert s.entries[i - 1] == rest.entries[i - 2];
      }
    }
    if rest.entries != [] {
      assert s.entries[|s.entries| - 1] == rest.entries[|rest.entries| - 1];
    }
  }

  /** Consecutive steps of a scan: option `i` decodes at step `i`'s offset and
      the next step starts where it ends, with its number as the new
      `prev_opt_number`. */
  lemma ChainedStep(b: seq<byte>, pos: nat, prev: nat, s: OptionScan, i: nat)
    requires Chained(b, pos, prev, s) && i < |s.entries|
    ensures OffsetAt(s, pos, i) < |b| && ParseOption(b, OffsetAt(s, pos, i)) == Ok(s.entries[i].field)
    ensures OffsetAt(s, pos, i + 1) == s.entries[i].field.End()
    ensures s.entries[i].number == NumberBefore(s, prev, i) + s.entries[i].field.delta
    ensures NumberBefore(s, prev, i + 1) == s.entries[i].number
  {
    assert LinkedEntry(b, pos, prev, s.entries, i);
    if i + 1 < |s.entries| {
      assert LinkedEntry(b, pos, prev, s.entries, i + 1);
    }
  }

  /** Where the walk stops: a step still holds an option exactly when it is
      inside the content and not at the payload marker. */
  lemma ChainedEnd(b: seq<byte>, pos: nat, prev: nat, s: OptionScan, i: nat)
    requires Chained(b, pos, prev, s) && i <= |s.entries|
    ensures OffsetAt(s, pos, i) <= |b|
    ensures (OffsetAt(s, pos, i) == |b| || b[OffsetAt(s, pos, i)] == PAYLOAD_MARKER) <==> i == |s.entries|
  {
    if i < |s.entries| {
      assert LinkedEntry(b, pos, prev, s.entries, i);
      OptionIsNotMarker(b, s.entries[i].offset);
    }
  }

  /** A scan starts at `pos` with the running number at `prev`. */
  lemma ChainedStart(b: seq<byte>, pos: nat, prev: nat, s: OptionScan)
    requires Chained(b, pos, prev, s)
    ensures OffsetAt(s, pos, 0) == pos && NumberBefore(s, prev, 0) == prev
  {
    if s.entries != [] {
      assert LinkedEntry(b, pos, prev, s.entries, 0);
    }
  }

  /** The walk only moves forward from `pos`: every step's offset lies
      between `pos` and the end of `b`. */
  lemma {:induction false} ChainedOffsetsForward(b: seq<byte>, pos: nat, prev: nat, s: OptionScan, i: nat)
    requires Chained(b, pos, prev, s) && i <= |s.entries|
    ensures pos <= OffsetAt(s, pos, i) <= |b|
    decreases i
  {
    ChainedEnd(b, pos, prev, s, i);
    if i == 0 {
      ChainedStart(b, pos, prev, s);
    } else {
      ChainedOffsetsForward(b, pos, prev, s, i - 1);
      ChainedStep(b, pos, prev, s, i - 1);
    }
  }

  /** Option numbers never decrease: each is its predecessor plus an unsigned
      delta, starting from `prev`. */
  lemma {:induction false} NumbersNondecreasing(b: seq<byte>, pos: nat, prev: nat, s: OptionScan, i: nat, j: nat)
    requires Chained(b, pos, prev, s) && i <= j < |s.entries|
    ensures prev <= s.entries[i].number <= s.entries[j].number
    decreases j
  {
    assert LinkedEntry(b, pos, prev, s.entries, j);
    if i < j {
      NumbersNondecreasing(b, pos, prev, s, i, j - 1);
    } else if j > 0 {
      NumbersNondecreasing(b, pos, prev, s, j - 1, j - 1);
    }
  }

  // A reference encoder for the option grammar, the inverse the decoder is
  // checked against.

  /** An option as a client sees it: its number and its value bytes. */
  datatype CoapOption = CoapOption(number: nat, value: seq<byte>)

  /** The nibble that encodes a delta or length `v`. */
  function ExtendedNibble(v: nat): (n: nat)
    requires v <= MAX_EXT_VALUE
    ensures n < NIBBLE_RESERVED
  {
    if v < EXT8_BASE then v else if v < EXT16_BASE then NIBBLE_EXT8 else NIBBLE_EXT16
  }

  /** How many extension bytes follow that nibble. */
  function ExtendedSize(v: nat): (n: nat)
    requires v <= MAX_EXT_VALUE
    ensures n <= 2
  {
    if v < EXT8_BASE then 0 else if v < EXT16_BASE then 1 else 2
  }

  /** Where the value of an encoded option starts, relative to its header byte. */
  function EncodedValueOffset(delta: nat, length: nat): nat
    requires delta <= MAX_EXT_VALUE && length <= MAX_EXT_VALUE
  {
    1 + ExtendedSize(delta) + ExtendedSize(length)
  }

  /** The extension bytes that follow that nibble. */
  function ExtendedBytes(v: nat): (s: seq<byte>)
    requires v <= MAX_EXT_VALUE
    ensures |s| == ExtendedSize(v)
  {
    if v < EXT8_BASE then []
    else if v < EXT16_BASE then [(v - EXT8_BASE) as byte]
    else [((v - EXT16_BASE) / 256) as byte, ((v - EXT16_BASE) % 256) as byte]
  }

  function OptionHeaderByte(dn: nat, ln: nat): byte
    requires dn < 16 && ln < 16
  {
    (dn * 16 + ln) as byte
  }

  lemma OptionHeaderByteNibbles(dn: nat, ln: nat)
    requires dn < 16 && ln < 16
    ensures DeltaNibble(OptionHeaderByte(dn, ln)) == dn && LengthNibble(OptionHeaderByte(dn, ln)) == ln
  {
  }

  /** One option on the wire: header byte, delta extension, length
      extension, value. */
  function EncodeOption(delta: nat, value: seq<byte>): (s: seq<byte>)
    requires delta <= MAX_EXT_VALUE && |value| <= MAX_EXT_VALUE
    ensures |s| == EncodedValueOffset(delta, |value|) + |value|
  {
    [OptionHeaderByte(ExtendedNibble(delta), ExtendedNibble(|value|))]
      + ExtendedBytes(delta) + ExtendedBytes(|value|) + value
  }

  /** Options that can be encoded after the number `prev`: numbers ascend
      (ties allowed) by steps and lengths no larger than the extension can carry. */
  ghost predicate Encodable(opts: seq<CoapOption>, prev: nat)
    decreases |opts|
  {
    opts == [] ||
    (&& prev <= opts[0].number <= prev + MAX_EXT_VALUE
     && |opts[0].value| <= MAX_EXT_VALUE
     && Encodable(opts[1..], opts[0].number))
  }

  ghost function EncodeOptions(opts: seq<CoapOption>, prev: nat): seq<byte>
    requires Encodable(opts, prev)
    decreases |opts|
  {
    if opts == [] then []
    else EncodeOption(opts[0].number - prev, opts[0].value) + EncodeOptions(opts[1..], opts[0].number)
  }

  /** What a scan hands back to a client: the number and value of each option. */
  ghost function DecodedOptions(b: seq<byte>, es: seq<OptionEntry>): seq<CoapOption>
  {
    if es == [] then []
    else
      var f := es[0].field;
      [CoapOption(es[0].number, if f.End() <= |b| then b[f.valueStart..f.End()] else [])]
        + DecodedOptions(b, es[1..])
  }

  lemma {:induction false} DecodedOptionsLength(b: seq<byte>, es: seq<OptionEntry>)
    ensures |DecodedOptions(b, es)| == |es|
    decreases |es|
  {
    if es != [] {
      DecodedOptionsLength(b, es[1..]);
    }
  }

  /** The `i`-th decoded option is the `i`-th entry's number and value bytes. */
  lemma {:induction false} DecodedOptionsAt(b: seq<byte>, es: seq<OptionEntry>, i: nat)
    requires i < |es| && es[i].field.End() <= |b|
    ensures |DecodedOptions(b, es)| == |es|
    ensures DecodedOptions(b, es)[i] == CoapOption(es[i].number, b[es[i].field.valueStart..es[i].field.End()])
    decreases i
  {
    DecodedOptionsLength(b, es);
    if i > 0 {
      DecodedOptionsAt(b, es[1..], i - 1);
    }
  }

  /** A one-byte extension decodes back to its value. */
  lemma ReadExtended8(b: seq<byte>, pos: nat, v: nat)
    requires EXT8_BASE <= v < EXT16_BASE && pos + 1 <= |b|
    requires b[pos] == (v - EXT8_BASE) as byte
    ensures ReadExtended(b, pos, NIBBLE_EXT8) == Some(Extended(v, pos + 1))
  {
  }

  /** A two-byte extension decodes back to its value. */
  lemma ReadExtended16(b: seq<byte>, pos: nat, v: nat)
    requires EXT16_BASE <= v <= MAX_EXT_VALUE && pos + 2 <= |b|
    requires b[pos] == ((v - EXT16_BASE) / 256) as byte && b[pos + 1] == ((v - EXT16_BASE) % 256) as byte
    ensures ReadExtended(b, pos, NIBBLE_EXT16) == Some(Extended(v, pos + 2))
  {
    var hi := (v - EXT16_BASE) / 256;
    var lo := (v - EXT16_BASE) % 256;
    assert b[pos] as nat == hi && b[pos + 1] as nat == lo;
  }

  lemma ReadEncodedExtended(b: seq<byte>, pos: nat, v: nat)
    requires v <= MAX_EXT_VALUE && pos + ExtendedSize(v) <= |b|
    requires b[pos..pos + ExtendedSize(v)] == ExtendedBytes(v)
    ensures ReadExtended(b, pos, ExtendedNibble(v)) == Some(Extended(v, pos + ExtendedSize(v)))
  {
    var e := ExtendedBytes(v);
    if EXT8_BASE <= v < EXT16_BASE {
      assert b[pos] == b[pos..pos + 1][0] == e[0];
      ReadExtended8(b, pos, v);
    } else if EXT16_BASE <= v {
      assert b[pos] == b[pos..pos + 2][0] == e[0];
      assert b[pos + 1] == b[pos..pos + 2][1] == e[1];
      ReadExtended16(b, pos, v);
    }
  }


  /** The four pieces of a window holding `[h] + dx + lx + value`, byte by byte. */
  lemma WindowPieces(b: seq<byte>, pos: nat, h: byte, dx: seq<byte>, lx: seq<byte>, value: seq<byte>)
    requires pos + 1 + |dx| + |lx| + |value| <= |b|
    requires b[pos..pos + 1 + |dx| + |lx| + |value|] == [h] + dx + lx + value
    ensures b[pos] == h
    ensures b[pos + 1..pos + 1 + |dx|] == dx
    ensures b[pos + 1 + |dx|..pos + 1 + |dx| + |lx|] == lx
    ensures b[pos + 1 + |dx| + |lx|..pos + 1 + |dx| + |lx| + |value|] == value
  {
    var w := [h] + dx + lx + value;
    var n := |w|;
    assert b[pos] == b[pos..pos + n][0];
    forall k | 0 <= k < |dx| ensures b[pos + 1..pos + 1 + |dx|][k] == dx[k] {
      assert b[pos + 1 + k] == b[pos..pos + n][1 + k];
    }
    var p2 := pos + 1 + |dx|;
    forall k | 0 <= k < |lx| ensures b[p2..p2 + |lx|][k] == lx[k] {
      assert b[p2 + k] == b[pos..pos + n][1 + |dx| + k];
    }
    var p3 := pos + 1 + |dx| + |lx|;
    forall k | 0 <= k < |value| ensures b[p3..p3 + |value|][k] == value[k] {
      assert b[p3 + k] == b[pos..pos + n][1 + |dx| + |lx| + k];
    }
  }

  /** `ParseOption` assembled from its header nibbles and its two extended fields. */
  lemma ParseOptionOfParts(b: seq<byte>, pos: nat, delta: Extended, length: Extended)
    requires pos < |b|
    requires DeltaNibble(b[pos]) < NIBBLE_RESERVED && LengthNibble(b[pos]) < NIBBLE_RESERVED
    requires ReadExtended(b, pos + 1, DeltaNibble(b[pos])) == Some(delta)
    requires ReadExtended(b, delta.next, LengthNibble(b[pos])) == Some(length)
    requires length.next + length.value <= |b|
    ensures ParseOption(b, pos) == Ok(OptionField(delta.value, length.next, length.value))
  {
  }

  /** Decoding an option laid out as a header byte with the right nibbles
      followed by the two extensions, the value lying within `b`. */
  lemma ParseOptionWindow(b: seq<byte>, pos: nat, delta: nat, length: nat)
    requires delta <= MAX_EXT_VALUE && length <= MAX_EXT_VALUE
    requires pos < |b|
    requires DeltaNibble(b[pos]) == ExtendedNibble(delta) && LengthNibble(b[pos]) == ExtendedNibble(length)
    requires pos + EncodedValueOffset(delta, length) + length <= |b|
    requires b[pos + 1..pos + 1 + ExtendedSize(delta)] == ExtendedBytes(delta)
    requires b[pos + 1 + ExtendedSize(delta)..pos + EncodedValueOffset(delta, length)] == ExtendedBytes(length)
    ensures ParseOption(b, pos) == Ok(OptionField(delta, pos + EncodedValueOffset(delta, length), length))
  {
    var p2 := pos + 1 + ExtendedSize(delta);
    var p3 := p2 + ExtendedSize(length);
    ReadEncodedExtended(b, pos + 1, delta);
    ReadEncodedExtended(b, p2, length);
    ParseOptionOfParts(b, pos, Extended(delta, p2), Extended(length, p3));
  }

  /** The header byte of an encoded option at `pos` carries its two nibbles. */
  lemma EncodedOptionHeader(b: seq<byte>, pos: nat, delta: nat, value: seq<byte>)
    requires delta <= MAX_EXT_VALUE && |value| <= MAX_EXT_VALUE
    requires pos + |EncodeOption(delta, value)| <= |b|
    requires b[pos..pos + |EncodeOption(delta, value)|] == EncodeOption(delta, value)
    ensures DeltaNibble(b[pos]) == ExtendedNibble(delta) && LengthNibble(b[pos]) == ExtendedNibble(|value|)
  {
    var dn, ln := ExtendedNibble(delta), ExtendedNibble(|value|);
    assert b[pos] == EncodeOption(delta, value)[0] == OptionHeaderByte(dn, ln);
    OptionHeaderByteNibbles(dn, ln);
  }

  /** The extensions and the value of an encoded option at `pos`. */
  lemma EncodedOptionPieces(b: seq<byte>, pos: nat, delta: nat, value: seq<byte>)
    requires delta <= MAX_EXT_VALUE && |value| <= MAX_EXT_VALUE
    requires pos + |EncodeOption(delta, value)| <= |b|
    requires b[pos..pos + |EncodeOption(delta, value)|] == EncodeOption(delta, value)
    ensures b[pos + 1..pos + 1 + ExtendedSize(delta)] == ExtendedBytes(delta)
    ensures b[pos + 1 + ExtendedSize(delta)..pos + EncodedValueOffset(delta, |value|)] == ExtendedBytes(|value|)
    ensures b[pos + EncodedValueOffset(delta, |value|)..pos + |EncodeOption(delta, value)|] == value
  {
    var h := OptionHeaderByte(ExtendedNibble(delta), ExtendedNibble(|value|));
    WindowPieces(b, pos, h, ExtendedBytes(delta), ExtendedBytes(|value|), value);
  }

  /** Decoding an encoded option at `pos` gives back its delta and value. */
  lemma ParseEncodedOption(b: seq<byte>, pos: nat, delta: nat, value: seq<byte>)
    requires delta <= MAX_EXT_VALUE && |value| <= MAX_EXT_VALUE
    requires pos + |EncodeOption(delta, value)| <= |b|
    requires b[pos..pos + |EncodeOption(delta, value)|] == EncodeOption(delta, value)
    ensures ParseOption(b, pos) == Ok(OptionField(delta, pos + EncodedValueOffset(delta, |value|), |value|))
    ensures b[pos + EncodedValueOffset(delta, |value|)..pos + |EncodeOption(delta, value)|] == value
  {
    EncodedOptionHeader(b, pos, delta, value);
    EncodedOptionPieces(b, pos, delta, value);
    ParseOptionWindow(b, pos, delta, |value|);
  }

  /** The scan the encoding of `opts` from `pos` is meant to produce: the
      fields follow from the deltas and value lengths alone. */
  function ExpectedScan(pos: nat, prev: nat, opts: seq<CoapOption>, marker: bool): OptionScan
    requires Encodable(opts, prev)
    decreases |opts|
  {
    if opts == [] then OptionScan([], pos, marker)
    else
      var f := FirstField(pos, prev, opts);
      Cons(pos, prev, f, ExpectedScan(f.End(), opts[0].number, opts[1..], marker))
  }

  /** The field the first of `opts` is meant to decode to. */
  function FirstField(pos: nat, prev: nat, opts: seq<CoapOption>): OptionField
    requires opts != [] && Encodable(opts, prev)
  {
    var delta := opts[0].number - prev;
    var length := |opts[0].value|;
    OptionField(delta, pos + EncodedValueOffset(delta, length), length)
  }

  /** The encoding of a non-empty option list is that of its first option
      followed by that of the rest. */
  lemma EncodeOptionsCons(opts: seq<CoapOption>, prev: nat)
    requires opts != [] && Encodable(opts, prev)
    ensures Encodable(opts[1..], opts[0].number)
    ensures EncodeOptions(opts, prev)
            == EncodeOption(opts[0].number - prev, opts[0].value) + EncodeOptions(opts[1..], opts[0].number)
    ensures |EncodeOption(opts[0].number - prev, opts[0].value)| == FirstField(0, prev, opts).End()
  {
  }

  lemma ExpectedScanEndStep(pos: nat, prev: nat, opts: seq<CoapOption>, marker: bool)
    requires opts != [] && Encodable(opts, prev) && Encodable(opts[1..], opts[0].number)
    requires |EncodeOptions(opts, prev)| == FirstField(0, prev, opts).End() + |EncodeOptions(opts[1..], opts[0].number)|
    requires var rest := ExpectedScan(FirstField(pos, prev, opts).End(), opts[0].number, opts[1..], marker);
      rest.end == FirstField(pos, prev, opts).End() + |EncodeOptions(opts[1..], opts[0].number)| && rest.marker == marker
    ensures ExpectedScan(pos, prev, opts, marker).end == pos + |EncodeOptions(opts, prev)|
    ensures ExpectedScan(pos, prev, opts, marker).marker == marker
  {
  }

  /** The expected scan ends just after the encoding. */
  lemma {:induction false} ExpectedScanEnd(pos: nat, prev: nat, opts: seq<CoapOption>, marker: bool)
    requires Encodable(opts, prev)
    ensures ExpectedScan(pos, prev, opts, marker).end == pos + |EncodeOptions(opts, prev)|
    ensures ExpectedScan(pos, prev, opts, marker).marker == marker
    decreases |opts|
  {
    if opts == [] {
      assert EncodeOptions(opts, prev) == [];
    } else {
      EncodeOptionsCons(opts, prev);
      ExpectedScanEnd(FirstField(pos, prev, opts).End(), opts[0].number, opts[1..], marker);
      ExpectedScanEndStep(pos, prev, opts, marker);
    }
  }

  /** A window holding `x + y` is a window holding `x` followed by one holding `y`. */
  lemma SplitWindow(b: seq<byte>, pos: nat, x: seq<byte>, y: seq<byte>)
    requires pos + |x| + |y| <= |b| && b[pos..pos + |x| + |y|] == x + y
    ensures b[pos..pos + |x|] == x && b[pos + |x|..pos + |x| + |y|] == y
  {
    var n := |x| + |y|;
    forall k | 0 <= k < |x| ensures b[pos..pos + |x|][k] == x[k] {
      assert b[pos + k] == b[pos..pos + n][k];
    }
    forall k | 0 <= k < |y| ensures b[pos + |x|..pos + n][k] == y[k] {
      assert b[pos + |x| + k] == b[pos..pos + n][|x| + k];
    }
  }

  /** The encoding of a non-empty option list, within `b`, split after its first option. */
  lemma EncodeOptionsWindows(b: seq<byte>, pos: nat, opts: seq<CoapOption>, prev: nat)
    requires opts != [] && Encodable(opts, prev)
    requires pos + |EncodeOptions(opts, prev)| <= |b|
    requires b[pos..pos + |EncodeOptions(opts, prev)|] == EncodeOptions(opts, prev)
    ensures Encodable(opts[1..], opts[0].number)
    ensures var first := FirstField(pos, prev, opts).End();
      && first + |EncodeOptions(opts[1..], opts[0].number)| == pos + |EncodeOptions(opts, prev)|
      && b[pos..first] == EncodeOption(opts[0].number - prev, opts[0].value)
      && b[first..pos + |EncodeOptions(opts, prev)|] == EncodeOptions(opts[1..], opts[0].number)
  {
    EncodeOptionsCons(opts, prev);
    SplitWindow(b, pos, EncodeOption(opts[0].number - prev, opts[0].value), EncodeOptions(opts[1..], opts[0].number));
  }

  lemma DecodedExpectedScanStep(b: seq<byte>, pos: nat, prev: nat, opts: seq<CoapOption>, marker: bool)
    requires opts != [] && Encodable(opts, prev) && Encodable(opts[1..], opts[0].number)
    requires FirstField(pos, prev, opts).End() <= |b|
    requires b[FirstField(pos, prev, opts).valueStart..FirstField(pos, prev, opts).End()] == opts[0].value
    requires DecodedOptions(b, ExpectedScan(FirstField(pos, prev, opts).End(), opts[0].number, opts[1..], marker).entries)
             == opts[1..]
    ensures DecodedOptions(b, ExpectedScan(pos, prev, opts, marker).entries) == opts
  {
    var f := FirstField(pos, prev, opts);
    var rest := ExpectedScan(f.End(), opts[0].number, opts[1..], marker);
    var es := Cons(pos, prev, f, rest).entries;
    assert es[0] == OptionEntry(pos, opts[0].number, f);
    assert es[1..] == rest.entries;
    assert opts == [opts[0]] + opts[1..];
  }

  /** Reading the values back out of the expected scan gives the options. */
  lemma {:induction false} DecodedExpectedScan(b: seq<byte>, pos: nat, prev: nat, opts: seq<CoapOption>, marker: bool)
    requires Encodable(opts, prev)
    requires pos + |EncodeOptions(opts, prev)| <= |b|
    requires b[pos..pos + |EncodeOptions(opts, prev)|] == EncodeOptions(opts, prev)
    ensures DecodedOptions(b, ExpectedScan(pos, prev, opts, marker).entries) == opts
    decreases |opts|
  {
    if opts != [] {
      EncodeOptionsWindows(b, pos, opts, prev);
      EncodedOptionPieces(b, pos, opts[0].number - prev, opts[0].value);
      DecodedExpectedScan(b, FirstField(pos, prev, opts).End(), opts[0].number, opts[1..], marker);
      DecodedExpectedScanStep(b, pos, prev, opts, marker);
    }
  }

  /** A scan that decodes an option at `pos` goes on from where it ends. */
  lemma ScanStep(b: seq<byte>, pos: nat, prev: nat, f: OptionField, rest: OptionScan)
    requires pos < |b| && b[pos] != PAYLOAD_MARKER && ParseOption(b, pos) == Ok(f)
    requires ScanOptions(b, f.End(), prev + f.delta) == Ok(rest)
    ensures ScanOptions(b, pos, prev) == Ok(Cons(pos, prev, f, rest))
  {
  }

  /** The first of `opts`, encoded at `pos`, decodes to its expected field. */
  lemma ParseFirstOption(b: seq<byte>, pos: nat, prev: nat, opts: seq<CoapOption>)
    requires opts != [] && Encodable(opts, prev)
    requires FirstField(pos, prev, opts).End() <= |b|
    requires b[pos..FirstField(pos, prev, opts).End()] == EncodeOption(opts[0].number - prev, opts[0].value)
    ensures pos < |b| && b[pos] != PAYLOAD_MARKER
    ensures ParseOption(b, pos) == Ok(FirstField(pos, prev, opts))
  {
    var delta, value := opts[0].number - prev, opts[0].value;
    var f := FirstField(pos, prev, opts);
    assert f == OptionField(delta, pos + EncodedValueOffset(delta, |value|), |value|);
    assert pos + |EncodeOption(delta, value)| == f.End();
    ParseEncodedOption(b, pos, delta, value);
    OptionIsNotMarker(b, pos);
  }

  lemma ScanShapeStep(b: seq<byte>, pos: nat, prev: nat, opts: seq<CoapOption>, marker: bool)
    requires opts != [] && Encodable(opts, prev) && Encodable(opts[1..], opts[0].number)
    requires pos < |b| && b[pos] != PAYLOAD_MARKER
    requires ParseOption(b, pos) == Ok(FirstField(pos, prev, opts))
    requires ScanOptions(b, FirstField(pos, prev, opts).End(), opts[0].number)
             == Ok(ExpectedScan(FirstField(pos, prev, opts).End(), opts[0].number, opts[1..], marker))
    ensures ScanOptions(b, pos, prev) == Ok(ExpectedScan(pos, prev, opts, marker))
  {
    var f := FirstField(pos, prev, opts);
    ScanStep(b, pos, prev, f, ExpectedScan(f.End(), opts[0].number, opts[1..], marker));
  }

  /** What follows the options at `e`: the end of the content, or (with
      `marker`) the payload marker and at least one payload byte. */
  predicate StopsAt(b: seq<byte>, e: nat, marker: bool)
  {
    if marker then e + 1 < |b| && b[e] == PAYLOAD_MARKER else e == |b|
  }

  /** Scanning the encoding of `opts` produces the expected scan. */
  lemma {:induction false} ScanEncodedOptionsShape(b: seq<byte>, pos: nat, opts: seq<CoapOption>, prev: nat, marker: bool)
    requires Encodable(opts, prev)
    requires pos + |EncodeOptions(opts, prev)| <= |b|
    requires b[pos..pos + |EncodeOptions(opts, prev)|] == EncodeOptions(opts, prev)
    requires StopsAt(b, pos + |EncodeOptions(opts, prev)|, marker)
    ensures ScanOptions(b, pos, prev) == Ok(ExpectedScan(pos, prev, opts, marker))
    decreases |opts|
  {
    if opts == [] {
      assert EncodeOptions(opts, prev) == [];
    } else {
      EncodeOptionsWindows(b, pos, opts, prev);
      ParseFirstOption(b, pos, prev, opts);
      ScanEncodedOptionsShape(b, FirstField(pos, prev, opts).End(), opts[1..], opts[0].number, marker);
      ScanShapeStep(b, pos, prev, opts, marker);
    }
  }

  /** Round trip: scanning the encoding of ascending options, followed by the
      end of the content or by a marker and a non-empty payload, yields exactly
      those options, in order, with their numbers rebuilt from the deltas. */
  lemma ScanEncodedOptions(b: seq<byte>, pos: nat, opts: seq<CoapOption>, prev: nat)
    requires Encodable(opts, prev)
    requires pos + |EncodeOptions(opts, prev)| <= |b|
    requires b[pos..pos + |EncodeOptions(opts, prev)|] == EncodeOptions(opts, prev)
    requires var e := pos + |EncodeOptions(opts, prev)|;
      e == |b| || (b[e] == PAYLOAD_MARKER && e + 1 < |b|)
    ensures ScanOptions(b, pos, prev).Ok?
    ensures DecodedOptions(b, ScanOptions(b, pos, prev).value.entries) == opts
    ensures ScanOptions(b, pos, prev).value.end == pos + |EncodeOptions(opts, prev)|
    ensures ScanOptions(b, pos, prev).value.marker == (pos + |EncodeOptions(opts, prev)| < |b|)
  {
    var marker := pos + |EncodeOptions(opts, prev)| < |b|;
    ScanEncodedOptionsShape(b, pos, opts, prev, marker);
    ExpectedScanEnd(pos, prev, opts, marker);
    DecodedExpectedScan(b, pos, prev, opts, marker);
  }
}
