/**
 * The values the binary object codec carries. The codec itself is not
 * modelled: each side receives its encoder and decoder as functions, and
 * the agreement of the two sides is only ever a precondition.
 */
module Codec {
  import opened Basics
  import opened Wire

  /** A decoded message; maps are keyed by strings, as the request envelope is. */
  datatype Value =
    | Nil
    | Bool(b: bool)
    | Int(i: int)
    | Float(bits: bv64)          // an IEEE 754 binary64, by its bit pattern
    | Str(s: string)
    | Bin(bytes: seq<byte>)
    | Array(items: seq<Value>)
    | Map(fields: map<string, Value>)
    | Ext(code: int, data: seq<byte>)   // an extension type: its type code and its bytes

  /** The discriminator key that names a request's logical type. */
  const TypeKey: string := "$type"

  /** An encoder fails (None) on a value it cannot pack; msgpack raises there. */
  type Encoder = Value -> Option<seq<byte>>

  /** A decoder fails (None) on bytes that are not one well-formed value. */
  type Decoder = seq<byte> -> Option<Value>
}
