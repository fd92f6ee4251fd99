/** Bytes, fixed-width integers and the big-endian encodings every component shares.

    Rust's integers have a width, so each one is a bounded subset of `int` here.  A Rust `String`
    is modelled by its UTF-8 bytes, which makes `as_bytes` and `to_string` the identity. */
module Bytes {

  type byte = x: int | 0 <= x < 0x100
  type u16 = x: int | 0 <= x < 0x1_0000
  type u32 = x: int | 0 <= x < 0x1_0000_0000

  /** The text of a Rust `String`: its UTF-8 bytes. */
  type Text = seq<byte>

  datatype Option<+T> = None | Some(value: T)

  function U16Bytes(n: u16): (b: seq<byte>)
    ensures |b| == 2 && U16Of(b[0], b[1]) == n
  {
    [n / 0x100, n % 0x100]
  }

  function U16Of(hi: byte, lo: byte): u16 {
    var h: int := hi;
    h * 0x100 + lo
  }

  function U32Bytes(n: u32): (b: seq<byte>)
    ensures |b| == 4 && U32Of(b) == n
  {
    U16Bytes(n / 0x1_0000) + U16Bytes(n % 0x1_0000)
  }

  function U32Of(b: seq<byte>): u32
    requires |b| == 4
  {
    var hi: int, lo: int := U16Of(b[0], b[1]), U16Of(b[2], b[3]);
    hi * 0x1_0000 + lo
  }

  lemma U16Injective(hi: byte, lo: byte, hi': byte, lo': byte)
    requires U16Of(hi, lo) == U16Of(hi', lo')
    ensures hi == hi' && lo == lo'
  {
  }

  lemma U16Rebuilt(hi: byte, lo: byte)
    ensures U16Bytes(U16Of(hi, lo)) == [hi, lo]
  {
    var b := U16Bytes(U16Of(hi, lo));
    U16Injective(b[0], b[1], hi, lo);
  }

  lemma U32Injective(a: seq<byte>, b: seq<byte>)
    requires |a| == 4 && |b| == 4 && U32Of(a) == U32Of(b)
    ensures a == b
  {
    U16Injective(a[0], a[1], b[0], b[1]);
    U16Injective(a[2], a[3], b[2], b[3]);
  }

  lemma U32Rebuilt(b: seq<byte>)
    requires |b| == 4
    ensures U32Bytes(U32Of(b)) == b
  {
    U32Injective(U32Bytes(U32Of(b)), b);
  }

  /** Network byte order: the most significant byte comes first. */
  lemma BigEndian()
    ensures U16Bytes(258) == [1, 2] && U16Of(1, 2) == 258
    ensures U32Bytes(16909060) == [1, 2, 3, 4] && U32Of([1, 2, 3, 4]) == 16909060
  {
  }

  /** The bytes of a source-code literal. */
  function Ascii(s: string): (b: Text)
    requires forall i :: 0 <= i < |s| ==> s[i] < 128 as char
    ensures |b| == |s| && forall i :: 0 <= i < |s| ==> b[i] == s[i] as int
  {
    seq(|s|, i requires 0 <= i < |s| => s[i] as int)
  }

  function Zeros(n: nat): (b: seq<byte>)
    ensures |b| == n && forall i :: 0 <= i < n ==> b[i] == 0
  {
    seq(n, _ => 0)
  }

  function Min(a: int, b: int): int {
    if a <= b then a else b
  }

  /** `iter().position(|b| *b == x)`: the first index holding `x`, or the length when none does. */
  function Find(s: seq<byte>, x: byte): (i: nat)
    ensures i <= |s| && (i < |s| ==> s[i] == x)
    ensures forall j :: 0 <= j < i ==> s[j] != x
  {
    FindFrom(s, x, 0)
  }

  function FindFrom(s: seq<byte>, x: byte, from: nat): (i: nat)
    requires from <= |s|
    ensures from <= i <= |s| && (i < |s| ==> s[i] == x)
    ensures forall j :: from <= j < i ==> s[j] != x
    decreases |s| - from
  {
    if from == |s| || s[from] == x then from else FindFrom(s, x, from + 1)
  }

  /** `Find` stops at the first separator and nowhere else. */
  lemma FindAt(a: seq<byte>, x: byte, rest: seq<byte>)
    requires x !in a
    ensures Find(a + [x] + rest, x) == |a|
    ensures Find(a, x) == |a|
  {
    var s := a + [x] + rest;
    assert s[|a|] == x;
    assert forall j :: 0 <= j < |a| ==> s[j] == a[j];
  }
}
