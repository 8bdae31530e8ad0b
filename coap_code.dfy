/** CoAP code byte: the 3-bit class and 5-bit detail packing of
    `AVS_COAP_CODE`, the class/detail accessors and the request, response and
    error predicates of coap/msg.h. */
module CoapCode {
  import opened Common

  /** The class occupies bits 7-5 (mask 0xE0, shift 5): a class unit is
      `1 << 5`. The detail occupies bits 4-0 (mask 0x1F): 32 values. */
  const CLASS_UNIT: byte := 32
  const CLASS_COUNT: byte := 8
  const DETAIL_COUNT: byte := 32

  /** `AVS_COAP_CODE(cls, detail)`: `((cls << 5) & 0xE0) | (detail & 0x1F)`,
      the class and the detail each masked to its field. */
  function MakeCode(cls: byte, detail: byte): (code: byte)
    ensures GetClass(code) == cls % 8 && GetDetail(code) == detail % 32
  {
    (cls % CLASS_COUNT) * CLASS_UNIT + detail % DETAIL_COUNT
  }

  /** `avs_coap_msg_code_get_class`: `(code & 0xE0) >> 5`. */
  function GetClass(code: byte): (cls: byte)
    ensures cls < 8
  {
    code / CLASS_UNIT
  }

  /** `avs_coap_msg_code_get_detail`: `code & 0x1F`. */
  function GetDetail(code: byte): (detail: byte)
    ensures detail < 32
  {
    code % DETAIL_COUNT
  }

  /** Packing recovers both fields whenever they fit, and the arithmetic
      meaning of the packing is `class * 32 + detail`. */
  lemma MakeCodeRoundTrip(cls: byte, detail: byte)
    requires cls < 8 && detail < 32
    ensures GetClass(MakeCode(cls, detail)) == cls
    ensures GetDetail(MakeCode(cls, detail)) == detail
    ensures MakeCode(cls, detail) as int == cls as int * 32 + detail as int
  {
  }

  /** Every code byte is the packing of its own class and detail. */
  lemma CodeIsItsFields(code: byte)
    ensures MakeCode(GetClass(code), GetDetail(code)) == code
  {
  }

  /** The value `avs_coap_msg_code_set_class` stores: the class is replaced
      (masked to three bits) and the detail is kept. */
  function WithClass(code: byte, cls: byte): (r: byte)
    ensures GetClass(r) == cls % 8
    ensures GetDetail(r) == GetDetail(code)
  {
    MakeCode(cls, GetDetail(code))
  }

  /** The value `avs_coap_msg_code_set_detail` stores: the detail is replaced
      (masked to five bits) and the class is kept. */
  function WithDetail(code: byte, detail: byte): (r: byte)
    ensures GetDetail(r) == detail % 32
    ensures GetClass(r) == GetClass(code)
  {
    MakeCode(GetClass(code), detail)
  }

  /** `avs_coap_msg_code_set_class(code, cls)`, where the `uint8_t *code`
      pointer is the byte `buf[at]`. */
  method SetClass(buf: array<byte>, at: nat, cls: byte)
    requires at < buf.Length
    modifies buf
    ensures buf[..] == old(buf[..])[at := WithClass(old(buf[at]), cls)]
    ensures GetClass(buf[at]) == cls % 8 && GetDetail(buf[at]) == GetDetail(old(buf[at]))
  {
    buf[at] := MakeCode(cls, GetDetail(buf[at]));
  }

  /** `avs_coap_msg_code_set_detail(code, detail)` on the byte `buf[at]`. */
  method SetDetail(buf: array<byte>, at: nat, detail: byte)
    requires at < buf.Length
    modifies buf
    ensures buf[..] == old(buf[..])[at := WithDetail(old(buf[at]), detail)]
    ensures GetDetail(buf[at]) == detail % 32 && GetClass(buf[at]) == GetClass(old(buf[at]))
  {
    buf[at] := MakeCode(GetClass(buf[at]), detail);
  }

  /** `avs_coap_msg_code_is_client_error`: class 4, which is exactly the
      codes 128..159. */
  predicate IsClientError(code: byte): (r: bool)
    ensures r <==> 128 <= code as int < 160
  {
    GetClass(code) == 4
  }

  /** `avs_coap_msg_code_is_server_error`: class 5, which is exactly the
      codes 160..191. */
  predicate IsServerError(code: byte): (r: bool)
    ensures r <==> 160 <= code as int < 192
  {
    GetClass(code) == 5
  }

  /** `avs_coap_msg_code_is_request`: class 0 with a non-zero detail, so Empty
      (0.00) is not a request; these are exactly the codes 1..31. */
  predicate IsRequest(code: byte): (r: bool)
    ensures r <==> 1 <= code as int < 32
  {
    GetClass(code) == 0 && GetDetail(code) > 0
  }

  /** `avs_coap_msg_code_is_response`: any class above 0, which is exactly
      the codes from 32 up. */
  predicate IsResponse(code: byte): (r: bool)
    ensures r <==> 32 <= code as int
  {
    GetClass(code) > 0
  }

  /** No code is both a request and a response, Empty is neither, and every
      client or server error is a response. */
  lemma ClassifiersAgree(code: byte)
    ensures !(IsRequest(code) && IsResponse(code))
    ensures code == CODE_EMPTY ==> !IsRequest(code) && !IsResponse(code)
    ensures IsClientError(code) || IsServerError(code) ==> IsResponse(code)
    ensures !(IsClientError(code) && IsServerError(code))
  {
  }

  // A few of the code constants, as `AVS_COAP_CODE(class, detail)`.
  const CODE_EMPTY: byte := MakeCode(0, 0)
  const CODE_GET: byte := MakeCode(0, 1)
  const CODE_CONTENT: byte := MakeCode(2, 5)
  const CODE_CONTINUE: byte := MakeCode(2, 31)
  const CODE_NOT_FOUND: byte := MakeCode(4, 4)
  const CODE_INTERNAL_SERVER_ERROR: byte := MakeCode(5, 0)

  /** The constants have their registered wire values (section 12.1 of
      RFC 7252, and RFC 7959 for 2.31 Continue) and are classified
      accordingly. */
  lemma CodeConstants()
    ensures CODE_EMPTY == 0x00 && CODE_GET == 0x01 && CODE_CONTENT == 0x45
    ensures CODE_CONTINUE == 0x5F && CODE_NOT_FOUND == 0x84 && CODE_INTERNAL_SERVER_ERROR == 0xA0
    ensures IsRequest(CODE_GET) && !IsRequest(CODE_EMPTY) && IsResponse(CODE_CONTENT)
    ensures IsClientError(CODE_NOT_FOUND) && IsServerError(CODE_INTERNAL_SERVER_ERROR)
  {
  }
}
