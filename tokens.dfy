/**
 * Field-level view of the record stream. A record is written as a sequence of
 * tokens, one per field: a string field (`writeString`) or a 32-bit unsigned
 * number (`writeNumber` of a `uint`). Reading a string takes the field's
 * length limit in bytes and fails when the stored string is longer.
 */
module Tokens {
  import opened Wrappers
  import opened Utf8

  /** The program's `uint`. */
  newtype uint32 = x: int | 0 <= x < 0x1_0000_0000

  /** Storing an `unsigned long` into a `uint` field keeps its low 32 bits. */
  function Narrow(n: nat): (r: uint32)
    ensures n < 0x1_0000_0000 ==> r as int == n
    ensures (n - r as int) % 0x1_0000_0000 == 0
  {
    (n % 0x1_0000_0000) as uint32
  }

  datatype Token = Str(text: string) | Num(value: uint32)

  /** A value read from the front of a stream, with what is left after it. */
  datatype Field<T> = Field(value: T, rest: seq<Token>)

  /**
   * What reading one record yields: the record and the rest of the stream, a
   * stream that does not hold a well-formed record, or the abort raised when
   * the decoded fields violate the record's invariant.
   */
  datatype Decoding<T> = Decoded(item: T, rest: seq<Token>) | Malformed | AssertFailed

  /** readString(is, maxLen) */
  function ReadString(ts: seq<Token>, maxLen: nat): (r: Option<Field<string>>)
    ensures r.Some? <==> ts != [] && ts[0].Str? && ByteSize(ts[0].text) <= maxLen
    ensures r.Some? ==> r.value.value == ts[0].text && r.value.rest == ts[1..]
    ensures r.Some? ==> |r.value.value| <= ByteSize(r.value.value) <= maxLen
  {
    if ts != [] && ts[0].Str? && ByteSize(ts[0].text) <= maxLen then Some(Field(ts[0].text, ts[1..])) else None
  }

  /** readNumber<uint>(is) */
  function ReadNumber(ts: seq<Token>): (r: Option<Field<uint32>>)
    ensures r.Some? <==> ts != [] && ts[0].Num?
    ensures r.Some? ==> r.value.value == ts[0].value && r.value.rest == ts[1..]
  {
    if ts != [] && ts[0].Num? then Some(Field(ts[0].value, ts[1..])) else None
  }

  /** The kind of one field of a record layout. */
  datatype FieldKind = Text(maxLen: nat) | Number

  predicate FitsKind(t: Token, k: FieldKind) {
    match k
    case Text(maxLen) => t.Str? && ByteSize(t.text) <= maxLen
    case Number => t.Num?
  }

  /** The tokens are, one for one, fields of the given kinds. */
  predicate Fits(ts: seq<Token>, layout: seq<FieldKind>) {
    |ts| == |layout| && forall k :: 0 <= k < |ts| ==> FitsKind(ts[k], layout[k])
  }
}
