/** The values every layer of the client works on: bytes, options, messages and
    host addresses. */
module CoapTypes {

  datatype Option<+T> = None | Some(value: T)

  type byte = x: int | 0 <= x < 0x100
  type uint16 = x: int | 0 <= x < 0x1_0000
  type Bytes = seq<byte>
  type Token = Bytes

  /** Unsigned 32-bit wrap-around. */
  function Wrap32(x: nat): (r: nat) {
    x % 0x1_0000_0000
  }

  /** A conversion from `uint` to `int`, as the 32-bit targets of the library perform it. */
  function ToInt32(x: nat): int {
    if Wrap32(x) < 0x8000_0000 then Wrap32(x) else Wrap32(x) - 0x1_0000_0000
  }

  datatype MessageType = Confirmable | NonConfirmable | Acknowledgment | Reset {
    function Code(): (c: nat)
      ensures c < 4
    {
      match this
      case Confirmable => 0
      case NonConfirmable => 1
      case Acknowledgment => 2
      case Reset => 3
    }
  }

  function TypeOfCode(c: nat): (t: MessageType)
    requires c < 4
    ensures t.Code() == c
  {
    if c == 0 then Confirmable else if c == 1 then NonConfirmable else if c == 2 then Acknowledgment else Reset
  }

  /** An option: its number and its opaque value. */
  datatype CoapOption = CoapOption(number: uint16, value: Bytes)

  const OBSERVE: uint16 := 6
  const BLOCK2: uint16 := 23
  const BLOCK1: uint16 := 27

  datatype Message = Message(version: byte, mtype: MessageType, id: uint16, token: Token,
                             options: seq<CoapOption>, payload: Bytes)

  /** What a reply shows before there is any content. */
  const NO_MESSAGE := Message(1, NonConfirmable, 0, [], [], [])
  const INVALID_CODE: byte := 0xFF

  /** Host addresses; the only structure the engine looks at is whether a target is multicast. */
  datatype Address = Unicast(host: nat) | Multicast(group: nat)

  const EMPTY_MESSAGE: byte := 0x00

  /** Codes of the error classes 4.xx and 5.xx (and everything above them). */
  predicate IsError(code: byte) {
    code >= 0x80
  }

  const KNOWN_ERROR_CODES: set<byte> :=
    {0x80, 0x81, 0x82, 0x83, 0x84, 0x85, 0x86, 0x88, 0x8C, 0x8D, 0x8E, 0xA0, 0xA1, 0xA2, 0xA3, 0xA4, 0xA5}

  /** The errors a user sees. Every error code without a name of its own is `Unknown`. */
  datatype Error = Ok | TimeOut | Response(code: byte) | Unknown

  function ErrorForResponseCode(code: byte): (e: Error)
    ensures e == Ok <==> !IsError(code)
    ensures e != TimeOut
  {
    if !IsError(code) then Ok
    else if code in KNOWN_ERROR_CODES then Response(code)
    else Unknown
  }

  /** `QByteArray::mid`: at most `len` bytes from `pos`, clipped to the array. */
  function Mid(b: Bytes, pos: nat, len: nat): (r: Bytes)
    ensures |r| <= len
    ensures pos + len <= |b| ==> r == b[pos..pos + len]
  {
    if pos >= |b| then []
    else if pos + len <= |b| then b[pos..pos + len]
    else b[pos..]
  }
}
