/** src/document/value.rs: the values a document holds. Floats are their 64-bit patterns, strings their UTF-8 bytes. */
module Values {
  import opened Bytes

  const TWO63: int := 0x8000_0000_0000_0000
  const TWO64: int := 0x1_0000_0000_0000_0000

  type i64 = x: int | -0x8000_0000_0000_0000 <= x < 0x8000_0000_0000_0000
  type u64 = x: int | 0 <= x < 0x1_0000_0000_0000_0000

  /** The bits of a signed number read as unsigned, and back. */
  function ToU64(n: i64): u64 { if n < 0 then n + TWO64 else n }

  function FromU64(u: u64): i64 { if u >= TWO63 then u - TWO64 else u }

  predicate Tail(b: byte) { 0x80 <= b <= 0xBF }

  /** Bytes of the first character of b, or 0 if it is not well formed: the table in section 4 of RFC 3629. */
  function CharLength(b: Bytes): (n: nat)
    requires |b| > 0
    ensures n <= |b|
  {
    if b[0] <= 0x7F then 1
    else if |b| >= 2 && 0xC2 <= b[0] <= 0xDF && Tail(b[1]) then 2
    else if |b| >= 3 && Tail(b[2])
         && ((b[0] == 0xE0 && 0xA0 <= b[1] <= 0xBF) || (0xE1 <= b[0] <= 0xEC && Tail(b[1]))
             || (b[0] == 0xED && 0x80 <= b[1] <= 0x9F) || (0xEE <= b[0] <= 0xEF && Tail(b[1]))) then 3
    else if |b| >= 4 && Tail(b[2]) && Tail(b[3])
         && ((b[0] == 0xF0 && 0x90 <= b[1] <= 0xBF) || (0xF1 <= b[0] <= 0xF3 && Tail(b[1]))
             || (b[0] == 0xF4 && 0x80 <= b[1] <= 0x8F)) then 4
    else 0
  }

  predicate Utf8(b: Bytes) {
    |b| == 0 || (CharLength(b) > 0 && Utf8(b[CharLength(b)..]))
  }

  type Text = b: Bytes | Utf8(b) witness []

  datatype Value =
    | Null
    | Bool(b: bool)
    | Int(n: i64)
    | Float(bits: u64)
    | Str(s: Text)
    | Array(items: seq<Value>)
    | Doc(fields: map<Text, Value>)

  type Document = map<Text, Value>
}
