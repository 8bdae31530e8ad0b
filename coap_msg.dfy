/** The CoAP message of coap/msg.h (`avs_coap_msg_t`): a length, the
    four-byte header and the content bytes (token, options, optional payload
    marker and payload); the validator, the option iterator, payload
    location, and the (message ID, token) identity. Offsets are into the
    content, so the end of the message is offset `length - 4`. */
module CoapMsg {
  import opened Common
  import opened CoapHeader
  import opened CoapCode
  import opened CoapOptions

  /** `sizeof(avs_coap_token_t)`: a token has at most eight bytes. */
  const TOKEN_MAX: nat := 8

  /** The option number is a `uint32_t` and wraps modulo 2^32. */
  const U32_MODULUS: nat := 0x1_0000_0000

  /** `avs_coap_msg_t`. `length` counts the header and the content;
      `content` is the storage behind the flexible array member. */
  datatype Msg = Msg(length: u32, header: Header, content: seq<byte>)

  /** What every accessor takes for granted of the caller's buffer: the
      storage behind `content` holds at least `length - 4` bytes. */
  predicate Backed(m: Msg)
  {
    m.length as int - HEADER_SIZE as int <= |m.content|
  }

  /** The content bytes the length covers: token, options and payload. */
  function Body(m: Msg): (b: seq<byte>)
    requires Backed(m)
    ensures |b| == if m.length < HEADER_SIZE then 0 else m.length - HEADER_SIZE
  {
    if m.length < HEADER_SIZE then [] else m.content[..m.length - HEADER_SIZE]
  }

  function TokenLength(m: Msg): nat
  {
    GetTokenLength(m.header)
  }

  /** The check `avs_coap_msg_is_valid` performs, with the reason it fails:
      the message holds a whole header; the version is 1; the token has at
      most eight bytes, all inside the message; and the options after the
      token decode up to the end of the message or up to a payload marker
      that has at least one payload byte after it. On success the result is
      the option sequence. */
  function Validate(m: Msg): (r: Result<OptionScan, Malformation>)
    requires Backed(m)
    ensures r.Ok? ==>
      && m.length >= HEADER_SIZE
      && GetVersion(m.header) == 1
      && TokenLength(m) <= TOKEN_MAX
      && TokenLength(m) <= |Body(m)|
      && Chained(Body(m), TokenLength(m), 0, r.value)
  {
    if m.length < HEADER_SIZE then Err(TruncatedBuffer)
    else if GetVersion(m.header) != 1 then Err(MalformedHeader)
    else if TokenLength(m) > TOKEN_MAX then Err(MalformedHeader)
    else if TokenLength(m) > |Body(m)| then Err(TruncatedBuffer)
    else ScanOptions(Body(m), TokenLength(m), 0)
  }

  /** `avs_coap_msg_is_valid`: a valid message holds a whole version 1
      header and a token of at most eight bytes inside the message; anything
      that fails `Validate` is invalid. */
  predicate IsValid(m: Msg): (r: bool)
    ensures r ==> m.length >= HEADER_SIZE && GetVersion(m.header) == 1
    ensures r ==> TokenLength(m) <= TOKEN_MAX && TokenLength(m) <= m.length - HEADER_SIZE
    ensures Backed(m) && Validate(m).Err? ==> !r
  {
    Backed(m) && Validate(m).Ok?
  }

  /** The option sequence of a valid message. */
  function OptionsScan(m: Msg): OptionScan
    requires IsValid(m)
  {
    Validate(m).value
  }

  /** The options of a valid message, as (number, value) pairs in wire order. */
  ghost function Options(m: Msg): (opts: seq<CoapOption>)
    requires IsValid(m)
    ensures |opts| == |OptionsScan(m).entries|
  {
    DecodedOptionsLength(Body(m), OptionsScan(m).entries);
    DecodedOptions(Body(m), OptionsScan(m).entries)
  }

  /** `avs_coap_msg_is_request`: the code is one of 1..31 (class 0 but not
      Empty). */
  predicate MsgIsRequest(m: Msg): (r: bool)
    ensures r <==> 1 <= m.header.code as int < 32
  {
    IsRequest(m.header.code)
  }

  /** `avs_coap_msg_is_response`: the code is 32 or above (class 1 to 7);
      no message is both a request and a response. */
  predicate MsgIsResponse(m: Msg): (r: bool)
    ensures r <==> 32 <= m.header.code as int
    ensures r ==> !MsgIsRequest(m)
  {
    IsResponse(m.header.code)
  }

  /** The options of a valid message lie inside it, between the end of the
      token and the end of the message, and their numbers never decrease. */
  lemma ValidOptionsWithinMessage(m: Msg, i: nat, j: nat)
    requires IsValid(m) && i <= j < |OptionsScan(m).entries|
    ensures var e := OptionsScan(m).entries[i];
      TokenLength(m) <= e.offset < e.field.valueStart <= e.field.End() <= m.length - HEADER_SIZE
    ensures OptionsScan(m).entries[i].number <= OptionsScan(m).entries[j].number
    ensures Options(m)[i].number <= Options(m)[j].number
  {
    var b, s := Body(m), OptionsScan(m);
    ChainedOffsetsForward(b, TokenLength(m), 0, s, i);
    ChainedStep(b, TokenLength(m), 0, s, i);
    ChainedStep(b, TokenLength(m), 0, s, j);
    NumbersNondecreasing(b, TokenLength(m), 0, s, i, j);
    DecodedOptionsAt(b, s.entries, i);
    DecodedOptionsAt(b, s.entries, j);
  }

  /** Option `i` of a valid message, as decoded from its entry. */
  lemma OptionAt(m: Msg, i: nat)
    requires IsValid(m) && i < |OptionsScan(m).entries|
    ensures var f := OptionsScan(m).entries[i].field;
      && f.End() <= |Body(m)|
      && Options(m)[i] == CoapOption(OptionsScan(m).entries[i].number, Body(m)[f.valueStart..f.End()])
  {
    var b, s := Body(m), OptionsScan(m);
    ChainedStep(b, TokenLength(m), 0, s, i);
    DecodedOptionsAt(b, s.entries, i);
  }

  // ---------------------------------------------------------------------
  // Payload

  /** Where the payload of a valid message starts: just after the payload
      marker, or at the end of the message when there is no marker. */
  function PayloadStart(m: Msg): nat
    requires IsValid(m)
  {
    var s := OptionsScan(m);
    if s.marker then s.end + 1 else s.end
  }

  /** The payload bytes of a valid message. */
  function Payload(m: Msg): seq<byte>
    requires IsValid(m)
  {
    PayloadLayoutHolds(m);
    Body(m)[PayloadStart(m)..]
  }

  /** The payload begins after the token and the options and runs to the end
      of the message, so start plus length is the end of the message. It is
      non-empty exactly when the options end at a payload marker, which is
      then the byte just before it. */
  lemma PayloadLayout(m: Msg)
    requires IsValid(m)
    ensures TokenLength(m) <= OptionsScan(m).end <= PayloadStart(m) <= m.length - HEADER_SIZE
    ensures PayloadStart(m) + |Payload(m)| == m.length - HEADER_SIZE
    ensures |Payload(m)| > 0 <==> OptionsScan(m).marker
    ensures OptionsScan(m).marker ==>
      PayloadStart(m) == OptionsScan(m).end + 1 && Body(m)[OptionsScan(m).end] == PAYLOAD_MARKER
    ensures !OptionsScan(m).marker ==> PayloadStart(m) == m.length - HEADER_SIZE
  {
    PayloadLayoutHolds(m);
  }

  lemma PayloadLayoutHolds(m: Msg)
    requires IsValid(m)
    ensures TokenLength(m) <= OptionsScan(m).end <= PayloadStart(m) <= |Body(m)|
    ensures OptionsScan(m).marker <==> PayloadStart(m) < |Body(m)|
  {
    var s := OptionsScan(m);
    ChainedOffsetsForward(Body(m), TokenLength(m), 0, s, |s.entries|);
  }

  /** `avs_coap_msg_payload`: walks the options with an iterator and skips
      the marker if the walk stopped at one. The message must be valid. */
  method MsgPayload(m: Msg) returns (p: nat)
    requires IsValid(m)
    ensures p == PayloadStart(m)
  {
    var it := new OptIterator.Begin(m);
    while !it.End()
      invariant it.Valid() && it.msg == m
      decreases |OptionsScan(m).entries| - it.index
    {
      it.Next();
    }
    var b := Body(m);
    if it.currOpt < |b| && b[it.currOpt] == PAYLOAD_MARKER {
      p := it.currOpt + 1;
    } else {
      p := it.currOpt;
    }
  }

  /** `avs_coap_msg_payload_length`: from the payload to the end of the message. */
  method MsgPayloadLength(m: Msg) returns (n: nat)
    requires IsValid(m)
    ensures n == |Payload(m)|
  {
    var p := MsgPayload(m);
    PayloadLayoutHolds(m);
    n := (m.length - HEADER_SIZE) as nat - p;
  }

  // ---------------------------------------------------------------------
  // Option iterator

  /** A number as a `uint32_t` holds it: modulo 2^32. */
  function Wrap(x: nat): u32
  {
    x % U32_MODULUS
  }

  lemma {:induction false} ModPlusMultiple(x: nat, q: nat)
    ensures (x + q * U32_MODULUS) % U32_MODULUS == x % U32_MODULUS
    decreases q
  {
    if q > 0 {
      ModPlusMultiple(x, q - 1);
      assert x + q * U32_MODULUS == (x + (q - 1) * U32_MODULUS) + U32_MODULUS;
    }
  }

  /** Adding a delta to a number kept modulo 2^32 keeps it modulo 2^32. */
  lemma WrapAdd(p: nat, before: nat, delta: nat, after: nat)
    requires p == Wrap(before) && after == before + delta
    ensures Wrap(p + delta) == Wrap(after)
  {
    var q := before / U32_MODULUS;
    assert before == q * U32_MODULUS + p;
    ModPlusMultiple(p + delta, q);
    assert after == p + delta + q * U32_MODULUS;
  }

  /** What the iterator finds at step `i` of a valid message, holding the
      running number modulo 2^32 in `prev`: the option decodes at its offset,
      `prev` plus its delta is its number modulo 2^32, its value bytes are
      the option's value, and the next step starts where it ends. */
  lemma IteratorStep(m: Msg, i: nat, curr: nat, prev: nat)
    requires IsValid(m) && i < |OptionsScan(m).entries|
    requires curr == OffsetAt(OptionsScan(m), TokenLength(m), i)
    requires prev == Wrap(NumberBefore(OptionsScan(m), 0, i))
    ensures curr < |Body(m)| && ParseOption(Body(m), curr).Ok?
    ensures var f := ParseOption(Body(m), curr).value;
      && f.End() == OffsetAt(OptionsScan(m), TokenLength(m), i + 1)
      && Wrap(prev + f.delta) == Wrap(NumberBefore(OptionsScan(m), 0, i + 1))
      && Wrap(prev + f.delta) == Wrap(Options(m)[i].number)
      && Body(m)[f.valueStart..f.End()] == Options(m)[i].value
  {
    var b, s := Body(m), OptionsScan(m);
    ChainedStep(b, TokenLength(m), 0, s, i);
    OptionAt(m, i);
    WrapAdd(prev, NumberBefore(s, 0, i), s.entries[i].field.delta, s.entries[i].number);
  }

  /** `avs_coap_opt_iterator_t` over a valid message: `currOpt` is the offset
      of the current option (or of where the options end) and
      `prevOptNumber` the `uint32_t` number of the option before it, which
      starts at 0. `index` counts the options already passed. */
  class OptIterator {
    const msg: Msg
    var currOpt: nat
    var prevOptNumber: u32
    ghost var index: nat

    ghost predicate Valid()
      reads this
    {
      && IsValid(msg)
      && index <= |OptionsScan(msg).entries|
      && currOpt == OffsetAt(OptionsScan(msg), TokenLength(msg), index)
      && prevOptNumber == Wrap(NumberBefore(OptionsScan(msg), 0, index))
    }

    /** `avs_coap_opt_begin`: the first option is right after the token and
        the previous number is 0. */
    constructor Begin(m: Msg)
      requires IsValid(m)
      ensures Valid() && msg == m && index == 0
    {
      msg := m;
      currOpt := TokenLength(m);
      prevOptNumber := 0;
      index := 0;
      new;
      ChainedStart(Body(m), TokenLength(m), 0, OptionsScan(m));
    }

    /** `avs_coap_opt_end`: the iterator is at the end of the message or at
        the payload marker, which happens exactly when every option has been
        passed. */
    function End(): (e: bool)
      reads this
      requires Valid()
      ensures e <==> index == |OptionsScan(msg).entries|
    {
      ChainedEnd(Body(msg), TokenLength(msg), 0, OptionsScan(msg), index);
      currOpt >= |Body(msg)| || Body(msg)[currOpt] == PAYLOAD_MARKER
    }

    /** `avs_coap_opt_number`: the previous number plus the current delta,
        as a `uint32_t`; that is the option's number modulo 2^32. */
    function Number(): (n: u32)
      reads this
      requires Valid() && !End()
      ensures n == Wrap(Options(msg)[index].number)
    {
      IteratorStep(msg, index, currOpt, prevOptNumber);
      Wrap(prevOptNumber + ParseOption(Body(msg), currOpt).value.delta)
    }

    /** The value bytes of the current option, all inside the message. */
    function Value(): (v: seq<byte>)
      reads this
      requires Valid() && !End()
      ensures v == Options(msg)[index].value
    {
      IteratorStep(msg, index, currOpt, prevOptNumber);
      var f := ParseOption(Body(msg), currOpt).value;
      Body(msg)[f.valueStart..f.End()]
    }

    /** `avs_coap_opt_next`: adds the current delta to the previous number
        and moves past the current option. */
    method Next()
      requires Valid() && !End()
      modifies this
      ensures Valid() && index == old(index) + 1
    {
      IteratorStep(msg, index, currOpt, prevOptNumber);
      var f := ParseOption(Body(msg), currOpt).value;
      prevOptNumber := Wrap(prevOptNumber + f.delta);
      currOpt := f.End();
      index := index + 1;
    }
  }

  // ---------------------------------------------------------------------
  // Message ID, token and identity

  /** `avs_coap_msg_get_id`: the network-order message ID in host order. */
  function GetId(m: Msg): (id: u16)
    ensures IdBytes(id) == m.header.messageId
  {
    m.header.messageId[0] as int * 256 + m.header.messageId[1] as int
  }

  /** The two message ID bytes, most significant first, of `id`. */
  function IdBytes(id: u16): MessageIdBytes
  {
    [(id / 256) as byte, (id % 256) as byte]
  }

  /** The message ID reads back whatever ID was stored, and every pair of ID
      bytes is the encoding of the ID read from it. */
  lemma IdRoundTrip(m: Msg, id: u16)
    ensures GetId(m.(header := m.header.(messageId := IdBytes(id)))) == id
    ensures IdBytes(GetId(m)) == m.header.messageId
  {
  }

  /** What the model of `avs_coap_msg_get_token` takes for granted: the
      token-length field is at most eight, matching the documented result
      bound `0 <= length <= sizeof(avs_coap_token_t)`, and the token lies
      inside the message. Validity implies both. */
  predicate TokenReadable(m: Msg)
  {
    Backed(m) && TokenLength(m) <= TOKEN_MAX && TokenLength(m) <= |Body(m)|
  }

  lemma ValidTokenReadable(m: Msg)
    requires IsValid(m)
    ensures TokenReadable(m)
  {
  }

  /** The token: the bytes right after the header. */
  function Token(m: Msg): seq<byte>
    requires TokenReadable(m)
  {
    Body(m)[..TokenLength(m)]
  }

  /** `avs_coap_msg_get_token`: copies the token into `out` and returns its
      length; the rest of `out` is left as it was. */
  method GetToken(m: Msg, out: array<byte>) returns (n: nat)
    requires TokenReadable(m) && out.Length == TOKEN_MAX
    modifies out
    ensures n == TokenLength(m) <= TOKEN_MAX
    ensures out[..n] == Token(m) && out[n..] == old(out[n..])
  {
    n := TokenLength(m);
    var b := Body(m);
    var i := 0;
    while i < n
      invariant 0 <= i <= n
      invariant out[..i] == b[..i]
      invariant out[n..] == old(out[n..])
    {
      out[i] := b[i];
      i := i + 1;
    }
  }

  /** `avs_coap_msg_identity_t`: the message ID, the eight-byte token buffer
      and how many of its bytes are the token. */
  datatype Identity = Identity(msgId: u16, token: seq<byte>, tokenSize: nat)

  predicate ValidIdentity(id: Identity)
  {
    |id.token| == TOKEN_MAX && id.tokenSize <= TOKEN_MAX
  }

  function IdentityToken(id: Identity): seq<byte>
    requires ValidIdentity(id)
  {
    id.token[..id.tokenSize]
  }

  function Zeros(n: nat): (z: seq<byte>)
    ensures |z| == n && forall i :: 0 <= i < n ==> z[i] == 0
  {
    seq(n, _ => 0)
  }

  /** The identity of a message: its ID and its token, the token buffer
      zero-filled past the token. */
  function IdentityOf(m: Msg): Identity
    requires TokenReadable(m)
  {
    Identity(GetId(m), Token(m) + Zeros(TOKEN_MAX - TokenLength(m)), TokenLength(m))
  }

  /** Identities are well formed, carry the message's token, and two
      messages have the same identity exactly when their IDs and their
      tokens (length included) are equal. */
  lemma IdentityOfMeaning(m1: Msg, m2: Msg)
    requires TokenReadable(m1) && TokenReadable(m2)
    ensures ValidIdentity(IdentityOf(m1)) && IdentityToken(IdentityOf(m1)) == Token(m1)
    ensures IdentityOf(m1) == IdentityOf(m2) <==> GetId(m1) == GetId(m2) && Token(m1) == Token(m2)
  {
    var t1, t2 := IdentityOf(m1).token, IdentityOf(m2).token;
    assert t1[..TokenLength(m1)] == Token(m1);
    if IdentityOf(m1) == IdentityOf(m2) {
      assert Token(m1) == t1[..TokenLength(m1)] == t2[..TokenLength(m2)] == Token(m2);
    }
  }

  /** `avs_coap_msg_get_identity`: zero-fills an identity, then stores the
      message ID and copies the token into it. */
  method GetIdentity(m: Msg) returns (id: Identity)
    requires TokenReadable(m)
    ensures id == IdentityOf(m)
  {
    var buf := new byte[TOKEN_MAX](_ => 0);
    var n := GetToken(m, buf);
    assert buf[..] == buf[..n] + buf[n..];
    id := Identity(GetId(m), buf[..], n);
  }

  /** `avs_coap_token_equal`: equal lengths and equal bytes. */
  predicate TokenEqual(a: seq<byte>, aSize: nat, b: seq<byte>, bSize: nat)
    requires aSize <= |a| && bSize <= |b|
  {
    aSize == bSize && a[..aSize] == b[..bSize]
  }

  /** `avs_coap_msg_token_matches`: the message's token equals the token an
      identity captured, byte for byte and in length. */
  method TokenMatches(m: Msg, id: Identity) returns (r: bool)
    requires TokenReadable(m) && ValidIdentity(id)
    ensures r <==> Token(m) == IdentityToken(id)
  {
    var buf := new byte[TOKEN_MAX];
    var n := GetToken(m, buf);
    r := TokenEqual(buf[..], n, id.token, id.tokenSize);
    assert buf[..][..n] == Token(m);
  }

  // ---------------------------------------------------------------------
  // Reference encoder: the inverse the validator and accessors are
  // checked against.

  /** What follows the options: nothing, or the marker and a non-empty payload. */
  function PayloadBytes(payload: seq<byte>): seq<byte>
  {
    if payload == [] then [] else [PAYLOAD_MARKER] + payload
  }

  ghost predicate EncodableMsg(token: seq<byte>, opts: seq<CoapOption>, payload: seq<byte>)
  {
    && |token| <= TOKEN_MAX
    && Encodable(opts, 0)
    && HEADER_SIZE + |token| + |EncodeOptions(opts, 0)| + |PayloadBytes(payload)| < U32_MODULUS
  }

  /** The version 1 message with the given type, code, ID, token, options and payload. */
  ghost function EncodeMsg(t: MsgType, code: byte, id: u16, token: seq<byte>,
                           opts: seq<CoapOption>, payload: seq<byte>): Msg
    requires EncodableMsg(token, opts, payload)
  {
    var content := token + EncodeOptions(opts, 0) + PayloadBytes(payload);
    Msg((HEADER_SIZE + |content|) as u32, Header(FirstByte(1, t, |token|), code, IdBytes(id)), content)
  }

  lemma ThreeWindows(x: seq<byte>, y: seq<byte>, z: seq<byte>)
    ensures (x + y + z)[..|x|] == x
    ensures (x + y + z)[|x|..|x| + |y|] == y
    ensures (x + y + z)[|x| + |y|..] == z
  {
  }

  /** The content of an encoded message scans back to its options, ending
      at the payload marker exactly when there is a payload. */
  lemma ScanEncodedContent(token: seq<byte>, opts: seq<CoapOption>, payload: seq<byte>)
    requires Encodable(opts, 0)
    ensures var b := token + EncodeOptions(opts, 0) + PayloadBytes(payload);
      var e := |token| + |EncodeOptions(opts, 0)|;
      && ScanOptions(b, |token|, 0).Ok?
      && DecodedOptions(b, ScanOptions(b, |token|, 0).value.entries) == opts
      && ScanOptions(b, |token|, 0).value.end == e
      && ScanOptions(b, |token|, 0).value.marker == (payload != [])
      && b[..|token|] == token
      && b[e..] == PayloadBytes(payload)
  {
    var enc := EncodeOptions(opts, 0);
    var b := token + enc + PayloadBytes(payload);
    ThreeWindows(token, enc, PayloadBytes(payload));
    assert b[|token|..|token| + |enc|] == enc;
    ScanEncodedOptions(b, |token|, opts, 0);
  }

  /** The header and the length of an encoded message. */
  lemma EncodedHeader(t: MsgType, code: byte, id: u16, token: seq<byte>,
                      opts: seq<CoapOption>, payload: seq<byte>)
    requires EncodableMsg(token, opts, payload)
    ensures var m := EncodeMsg(t, code, id, token, opts, payload);
      && Backed(m) && m.length >= HEADER_SIZE
      && Body(m) == token + EncodeOptions(opts, 0) + PayloadBytes(payload)
      && GetVersion(m.header) == 1 && GetType(m.header) == t && TokenLength(m) == |token|
      && m.header.code == code && GetId(m) == id
  {
    FirstByteFields(1, t, |token|);
  }

  /** Round trip: an encoded message is valid, and reading it back gives the
      type, code, ID, token, options and payload it was built from. */
  lemma EncodeMsgRoundTrip(t: MsgType, code: byte, id: u16, token: seq<byte>,
                           opts: seq<CoapOption>, payload: seq<byte>)
    requires EncodableMsg(token, opts, payload)
    ensures var m := EncodeMsg(t, code, id, token, opts, payload);
      && IsValid(m)
      && GetType(m.header) == t && m.header.code == code && GetId(m) == id
      && Token(m) == token && Options(m) == opts && Payload(m) == payload
  {
    var m := EncodeMsg(t, code, id, token, opts, payload);
    EncodedHeader(t, code, id, token, opts, payload);
    ScanEncodedContent(token, opts, payload);
    ValidateAfterHeader(m);
    PayloadAfterOptions(m, payload);
  }

  /** Once the header and the token check out, validation is the option scan. */
  lemma ValidateAfterHeader(m: Msg)
    requires Backed(m) && m.length >= HEADER_SIZE && GetVersion(m.header) == 1
    requires TokenLength(m) <= TOKEN_MAX && TokenLength(m) <= |Body(m)|
    ensures Validate(m) == ScanOptions(Body(m), TokenLength(m), 0)
  {
  }

  /** A valid message whose options are followed by the bytes `PayloadBytes(p)`
      has the payload `p`. */
  lemma PayloadAfterOptions(m: Msg, p: seq<byte>)
    requires IsValid(m)
    requires OptionsScan(m).end <= |Body(m)| && Body(m)[OptionsScan(m).end..] == PayloadBytes(p)
    requires OptionsScan(m).marker == (p != [])
    ensures Payload(m) == p
  {
    var b, e := Body(m), OptionsScan(m).end;
    if p != [] {
      assert b[e + 1..] == b[e..][1..];
    }
  }

  // ---------------------------------------------------------------------
  // Examples

  /** A header-only GET (`40 01 00 01`): valid, a request, message ID 1, no
      options and an empty payload, so the iterator starts at its end. */
  lemma ExampleHeaderOnlyGet()
    ensures var m := Msg(4, Header(0x40, 0x01, [0x00, 0x01]), []);
      && IsValid(m) && MsgIsRequest(m) && !MsgIsResponse(m) && GetType(m.header) == Confirmable
      && GetId(m) == 1 && OptionsScan(m).entries == [] && |Payload(m)| == 0
  {
    var m := Msg(4, Header(0x40, 0x01, [0x00, 0x01]), []);
    assert Body(m) == [];
  }

  /** A token-length field of 9 is a malformed header. */
  lemma ExampleTokenTooLong()
    ensures Validate(Msg(13, Header(0x49, 0x01, [0, 1]), Zeros(9))) == Err(MalformedHeader)
  {
  }

  /** A payload marker that is the last byte is rejected. */
  lemma ExampleLoneMarker()
    ensures Validate(Msg(5, Header(0x40, 0x45, [0, 1]), [PAYLOAD_MARKER])) == Err(EmptyPayloadAfterMarker)
  {
    var m := Msg(5, Header(0x40, 0x45, [0, 1]), [PAYLOAD_MARKER]);
    assert Body(m) == [PAYLOAD_MARKER];
  }

  /** An option whose one-byte value would lie past the end is rejected. */
  lemma ExampleOptionOverrun()
    ensures Validate(Msg(5, Header(0x40, 0x01, [0, 1]), [0x11, 0x61])) == Err(TruncatedBuffer)
  {
    var m := Msg(5, Header(0x40, 0x01, [0, 1]), [0x11, 0x61]);
    assert Body(m) == [0x11];
  }

  /** A reserved length nibble is a malformed option. */
  lemma ExampleReservedNibble()
    ensures Validate(Msg(6, Header(0x40, 0x01, [0, 1]), [0x1F, 0x00])) == Err(MalformedOption)
  {
    var m := Msg(6, Header(0x40, 0x01, [0, 1]), [0x1F, 0x00]);
    assert Body(m) == [0x1F, 0x00];
  }
}
