/** Byte strings, the two result types and the integer encodings shared by every component. */
module Bytes {

  type byte = b: int | 0 <= b < 256
  type bytes = seq<byte>
  type u16 = n: int | 0 <= n < 0x1_0000
  type u32 = n: int | 0 <= n < 0x1_0000_0000
  type i32 = n: int | -0x8000_0000 <= n < 0x8000_0000

  datatype Option<+T> = None | Some(value: T)

  datatype Result<+T, +E> = Ok(value: T) | Err(error: E) {
    predicate IsFailure() { Err? }

    function PropagateFailure<U>(): Result<U, E>
      requires Err?
    {
      Err(error)
    }

    function Extract(): T
      requires Ok?
    {
      value
    }
  }

  /** Rust's `u16::to_le_bytes` and its inverse. */
  function Le16(n: u16): bytes { [n % 256, n / 256] }

  function FromLe16(b: bytes): u16
    requires |b| == 2
  {
    var lo: int, hi: int := b[0], b[1];
    lo + 256 * hi
  }

  /** Rust's `u32::to_le_bytes` and its inverse. */
  function Le32(n: u32): bytes { Le16(n % 0x1_0000) + Le16(n / 0x1_0000) }

  function FromLe32(b: bytes): u32
    requires |b| == 4
  {
    var lo: int, hi: int := FromLe16(b[..2]), FromLe16(b[2..]);
    lo + 0x1_0000 * hi
  }

  /** Rust's `i32::to_be_bytes`: two's complement, most significant byte first. */
  function Be32(n: i32): bytes {
    var le := Le32(if n < 0 then n + 0x1_0000_0000 else n);
    [le[3], le[2], le[1], le[0]]
  }

  lemma SmallMod(n: nat, m: nat)
    requires n < m
    ensures n % m == n
  {
  }

  lemma SplitOfJoin(x: bytes, y: bytes)
    ensures (x + y)[..|x|] == x && (x + y)[|x|..] == y
  {
  }

  lemma JoinOfSplit(s: bytes, n: nat)
    requires n <= |s|
    ensures s[..n] + s[n..] == s
  {
  }

  lemma JoinAssoc(a: bytes, b: bytes, c: bytes)
    ensures (a + b) + c == a + (b + c)
  {
  }

  lemma PrefixOfJoin(p: bytes, x: bytes, whole: bytes)
    requires p + x <= whole
    ensures whole == p + (x + whole[|p + x|..])
  {
    JoinOfSplit(whole, |p + x|);
  }

  lemma Le16RoundTrip(n: u16)
    ensures FromLe16(Le16(n)) == n
  {
  }

  lemma Le16OfBytes(b: bytes)
    requires |b| == 2
    ensures Le16(FromLe16(b)) == b
  {
  }

  lemma Le32RoundTrip(n: u32)
    ensures FromLe32(Le32(n)) == n
  {
    var lo, hi := Le16(n % 0x1_0000), Le16(n / 0x1_0000);
    assert (lo + hi)[..2] == lo && (lo + hi)[2..] == hi;
    Le16RoundTrip(n % 0x1_0000);
    Le16RoundTrip(n / 0x1_0000);
  }

  lemma HalvesOf(lo: int, hi: int)
    requires 0 <= lo < 0x1_0000
    ensures (lo + 0x1_0000 * hi) % 0x1_0000 == lo
    ensures (lo + 0x1_0000 * hi) / 0x1_0000 == hi
  {
  }

  lemma Le32OfBytes(b: bytes)
    requires |b| == 4
    ensures Le32(FromLe32(b)) == b
  {
    HalvesOf(FromLe16(b[..2]), FromLe16(b[2..]));
    Le16OfBytes(b[..2]);
    Le16OfBytes(b[2..]);
    assert b[..2] + b[2..] == b;
  }

  lemma Be32Injective(m: i32, n: i32)
    requires Be32(m) == Be32(n)
    ensures m == n
  {
    var u: u32 := if m < 0 then m + 0x1_0000_0000 else m;
    var v: u32 := if n < 0 then n + 0x1_0000_0000 else n;
    assert Be32(m)[3] == Be32(n)[3] && Be32(m)[2] == Be32(n)[2];
    assert Be32(m)[1] == Be32(n)[1] && Be32(m)[0] == Be32(n)[0];
    assert Le32(u) == Le32(v);
    Le32RoundTrip(u);
    Le32RoundTrip(v);
  }

  /** Text that `String::from_utf8` accepts: well-formed UTF-8, table 3-7 of the Unicode Standard. */
  predicate IsUtf8(s: bytes) {
    |s| == 0 || var n := ScalarLength(s); n > 0 && IsUtf8(s[n..])
  }

  predicate Continuation(b: byte) { 0x80 <= b <= 0xBF }

  /** Length of the scalar value that starts `s`, or 0 when there is none. */
  function ScalarLength(s: bytes): (n: nat)
    requires |s| > 0
    ensures n <= |s|
  {
    var b := s[0];
    if b <= 0x7F then 1
    else if 0xC2 <= b <= 0xDF then
      if |s| >= 2 && Continuation(s[1]) then 2 else 0
    else if 0xE0 <= b <= 0xEF then
      if |s| >= 3 && Continuation(s[2])
         && (if b == 0xE0 then 0xA0 else 0x80) <= s[1] <= (if b == 0xED then 0x9F else 0xBF)
      then 3 else 0
    else if 0xF0 <= b <= 0xF4 then
      if |s| >= 4 && Continuation(s[2]) && Continuation(s[3])
         && (if b == 0xF0 then 0x90 else 0x80) <= s[1] <= (if b == 0xF4 then 0x8F else 0xBF)
      then 4 else 0
    else 0
  }
}
