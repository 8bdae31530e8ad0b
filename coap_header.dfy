/** The fixed four-byte CoAP header of section 3 of RFC 7252 as coap/msg.h
    lays it out (`avs_coap_msg_header_t`): the version/type/token-length
    byte, the code byte and the two message ID bytes in wire order. */
module CoapHeader {
  import opened Common

  /** `sizeof(avs_coap_msg_header_t)`, with no padding. */
  const HEADER_SIZE: nat := 4

  /** `AVS_COAP_MSG_MIN_SIZE`. */
  const MSG_MIN_SIZE: nat := HEADER_SIZE

  /** The first byte holds the version in bits 7-6 (shift 6), the type in
      bits 5-4 (mask 0x30, shift 4) and the token length in bits 3-0 (mask
      0x0F); a unit of each field is the power of two of its shift. */
  const VERSION_UNIT: byte := 64
  const TYPE_UNIT: byte := 16
  const TYPE_VALUES: byte := 4
  const TOKEN_LENGTH_VALUES: byte := 16

  /** `avs_coap_msg_type_t`: four types, numbered 0 to 3 in this order. */
  datatype MsgType = Confirmable | NonConfirmable | Acknowledgement | Reset

  function TypeCode(t: MsgType): (b: byte)
    ensures b < 4
  {
    match t
    case Confirmable => 0
    case NonConfirmable => 1
    case Acknowledgement => 2
    case Reset => 3
  }

  function TypeOfCode(b: byte): MsgType
    requires b < 4
  {
    if b == 0 then Confirmable
    else if b == 1 then NonConfirmable
    else if b == 2 then Acknowledgement
    else Reset
  }

  /** The two-bit field covers exactly the four types. */
  lemma TypeCodeBijective(t: MsgType, b: byte)
    requires b < 4
    ensures TypeOfCode(TypeCode(t)) == t
    ensures TypeCode(TypeOfCode(b)) == b
  {
  }

  type MessageIdBytes = s: seq<byte> | |s| == 2 witness [0, 0]

  datatype Header = Header(versionTypeTokenLength: byte, code: byte, messageId: MessageIdBytes)

  /** The header as the four bytes it occupies in memory and on the wire. */
  function HeaderBytes(h: Header): (s: seq<byte>)
    ensures |s| == HEADER_SIZE
    ensures s[0] == h.versionTypeTokenLength && s[1] == h.code && s[2..] == h.messageId
  {
    [h.versionTypeTokenLength, h.code] + h.messageId
  }

  function HeaderOf(s: seq<byte>): (h: Header)
    requires |s| == HEADER_SIZE
    ensures HeaderBytes(h) == s
  {
    Header(s[0], s[1], s[2..])
  }

  /** The version field: the two top bits of the first byte. */
  function GetVersion(h: Header): (v: nat)
    ensures v < 4
  {
    (h.versionTypeTokenLength / VERSION_UNIT) as nat
  }

  /** `avs_coap_msg_header_get_type`: bits 5-4 of the first byte. */
  function GetType(h: Header): (t: MsgType)
    ensures TypeCode(t) == h.versionTypeTokenLength / TYPE_UNIT % TYPE_VALUES
  {
    TypeOfCode(h.versionTypeTokenLength / TYPE_UNIT % TYPE_VALUES)
  }

  /** `avs_coap_msg_header_get_token_length`: the raw, unchecked low nibble
      of the first byte (values 9 to 15 are rejected by validation only). */
  function GetTokenLength(h: Header): (n: nat)
    ensures n < 16
  {
    (h.versionTypeTokenLength % TOKEN_LENGTH_VALUES) as nat
  }

  /** The first header byte after `avs_coap_msg_header_set_type`:
      `(vttl & ~0x30) | ((type << 4) & 0x30)`, the version and token-length
      bits kept and the type bits replaced. */
  function WithType(vttl: byte, t: MsgType): (r: byte)
    ensures r / TYPE_UNIT % TYPE_VALUES == TypeCode(t)
    ensures r / VERSION_UNIT == vttl / VERSION_UNIT
    ensures r % TOKEN_LENGTH_VALUES == vttl % TOKEN_LENGTH_VALUES
  {
    vttl / VERSION_UNIT * VERSION_UNIT + TypeCode(t) * TYPE_UNIT + vttl % TOKEN_LENGTH_VALUES
  }

  /** Setting the type makes it read back, and keeps the version and the
      token length of the byte. */
  lemma WithTypeRoundTrip(h: Header, t: MsgType)
    ensures var h' := h.(versionTypeTokenLength := WithType(h.versionTypeTokenLength, t));
      && GetType(h') == t
      && GetVersion(h') == GetVersion(h)
      && GetTokenLength(h') == GetTokenLength(h)
  {
  }

  /** `avs_coap_msg_header_set_type`: the header is the four bytes of `hdr`;
      only the type bits of the first byte change. */
  method SetType(hdr: array<byte>, t: MsgType)
    requires hdr.Length == HEADER_SIZE
    modifies hdr
    ensures hdr[..] == old(hdr[..])[0 := WithType(old(hdr[0]), t)]
    ensures GetType(HeaderOf(hdr[..])) == t
    ensures GetVersion(HeaderOf(hdr[..])) == GetVersion(HeaderOf(old(hdr[..])))
    ensures GetTokenLength(HeaderOf(hdr[..])) == GetTokenLength(HeaderOf(old(hdr[..])))
    ensures hdr[1..] == old(hdr[1..])
  {
    ghost var h := HeaderOf(hdr[..]);
    hdr[0] := WithType(hdr[0], t);
    WithTypeRoundTrip(h, t);
    assert HeaderOf(hdr[..]) == h.(versionTypeTokenLength := WithType(h.versionTypeTokenLength, t));
  }

  /** The first header byte holding the given version, type and token length. */
  function FirstByte(version: nat, t: MsgType, tokenLength: nat): (b: byte)
    requires version < 4 && tokenLength < 16
  {
    (version * VERSION_UNIT as nat + TypeCode(t) as nat * TYPE_UNIT as nat + tokenLength) as byte
  }

  lemma FirstByteFields(version: nat, t: MsgType, tokenLength: nat)
    requires version < 4 && tokenLength < 16
    ensures var h := Header(FirstByte(version, t, tokenLength), 0, [0, 0]);
      && GetVersion(h) == version && GetType(h) == t && GetTokenLength(h) == tokenLength
  {
  }
}
