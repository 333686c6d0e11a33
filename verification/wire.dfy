/**
 * The values the generated codecs exchange with the `redis` crate: the
 * arguments a `ToRedisArgs` implementation writes (byte strings) and the
 * `redis::Value` a `FromRedisValue` implementation reads.
 */
module Wire {
  import opened Wrappers
  import opened Utf8

  /** `redis::Value`. */
  datatype Value =
    | Nil
    | Int(n: int)
    | Data(bytes: Bytes)
    | Bulk(items: seq<Value>)
    | Status(text: string)
    | Okay

  /** The `redis::ErrorKind` the generated code raises. */
  datatype ErrorKind = TypeError

  /**
   * `RedisError::from((kind, description, detail))`. A detail that is the
   * `Debug` rendering of a value is not modelled and left out.
   */
  datatype RedisError = RedisError(kind: ErrorKind, description: string, detail: Option<string>)

  /**
   * The description of the `redis` crate's `invalid_type_error!`; the text
   * naming the expected type goes into the detail, beside the value's
   * `Debug` rendering.
   */
  const IncompatibleTypeMessage: string := "Response was of incompatible type"
  /** The `redis` crate turns a failed UTF-8 conversion into this type error. */
  const InvalidUtf8Message: string := "Invalid UTF-8"

  const Utf8Failure: RedisError := RedisError(TypeError, InvalidUtf8Message, None)

  /**
   * `String::from_redis_value`, as the `redis` crate defines it: data must be
   * UTF-8, a status line is its text, `OK` is `"OK"`, and nothing else is a
   * string.
   */
  function StringOf(v: Value): (r: Result<string, RedisError>)
    ensures v.Data? && Decode(v.bytes).Some? ==> r == Ok(Decode(v.bytes).value)
    ensures v.Status? ==> r == Ok(v.text)
    ensures (v.Nil? || v.Int? || v.Bulk?) ==> r.Err? && r.error.description == IncompatibleTypeMessage
    ensures r.Err? ==> r.error.kind == TypeError
  {
    match v
    case Data(b) =>
      (match Decode(b)
       case Some(s) => Ok(s)
       case None => Err(Utf8Failure))
    case Status(s) => Ok(s)
    case Okay => Ok("OK")
    case _ => Err(RedisError(TypeError, IncompatibleTypeMessage, None))
  }

  /** Every argument as a data value: what reading the written arguments back gives. */
  function DataItems(args: seq<Bytes>): (r: seq<Value>)
    ensures |r| == |args|
    ensures forall i :: 0 <= i < |args| ==> r[i] == Data(args[i])
  {
    seq(|args|, i requires 0 <= i < |args| => Data(args[i]))
  }

  /** `Value::Bulk(args.into_iter().map(Value::Data).collect())`. */
  function Reply(args: seq<Bytes>): Value {
    Bulk(DataItems(args))
  }

  /** A text written as an argument reads back as the same text. */
  lemma StringOfWritten(s: string)
    ensures StringOf(Data(Encode(s))) == Ok(s)
  {
    DecodeEncode(s);
  }

  lemma DataItemsAppend(a: seq<Bytes>, b: seq<Bytes>)
    ensures DataItems(a + b) == DataItems(a) + DataItems(b)
  {
  }
}
