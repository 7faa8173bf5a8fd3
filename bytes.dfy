// Failure-carrying results and the little-endian integer encodings that the
// Faros wire protocol uses for every numeric field.

module Results {

  datatype Option<+T> = None | Some(value: T)

  /** A value, or the exception the Python code would raise instead. */
  datatype Result<+T, +E> = Ok(value: T) | Err(error: E) {
    predicate IsFailure() { Err? }

    function PropagateFailure<U>(): Result<U, E>
      requires Err?
    {
      Err(error)
    }

    function Extract(): T
      requires Ok?
    {
      value
    }
  }
}

module Bytes {

  type byte = x: int | 0 <= x < 0x100
  type u16 = x: int | 0 <= x < 0x1_0000
  type u32 = x: int | 0 <= x < 0x1_0000_0000

  /** An unsigned little-endian 16-bit field (construct's ULInt16). */
  function U16(lo: byte, hi: byte): (r: u16)
  {
    lo + 0x100 * hi
  }

  /** A signed little-endian 16-bit field (construct's SLInt16 / Int16sl), two's complement. */
  function I16(lo: byte, hi: byte): (r: int)
    ensures -0x8000 <= r < 0x8000
    ensures r >= 0 <==> hi < 0x80
    ensures r % 0x1_0000 == U16(lo, hi)
  {
    var u := U16(lo, hi);
    if u >= 0x8000 then u - 0x1_0000 else u
  }

  /** The two bytes that store `v` as an unsigned little-endian 16-bit field. */
  function EncodeU16(v: u16): (b: seq<byte>)
  {
    [v % 0x100, v / 0x100]
  }

  /** The two bytes that store `v` as a signed little-endian 16-bit field. */
  function EncodeI16(v: int): (b: seq<byte>)
    requires -0x8000 <= v < 0x8000
  {
    EncodeU16(if v < 0 then v + 0x1_0000 else v)
  }

  lemma U16RoundTrip(v: u16, lo: byte, hi: byte)
    ensures |EncodeU16(v)| == 2 && U16(EncodeU16(v)[0], EncodeU16(v)[1]) == v
    ensures EncodeU16(U16(lo, hi)) == [lo, hi]
  {
  }

  lemma I16RoundTrip(v: int, lo: byte, hi: byte)
    requires -0x8000 <= v < 0x8000
    ensures |EncodeI16(v)| == 2 && I16(EncodeI16(v)[0], EncodeI16(v)[1]) == v
    ensures EncodeI16(I16(lo, hi)) == [lo, hi]
  {
    U16RoundTrip(if v < 0 then v + 0x1_0000 else v, lo, hi);
  }

  /** An unsigned little-endian 32-bit field (struct format "<L"). */
  function U32(b: seq<byte>): (r: u32)
    requires |b| == 4
  {
    b[0] as int + 0x100 * (b[1] as int + 0x100 * (b[2] as int + 0x100 * b[3] as int))
  }

  function EncodeU32(n: u32): (b: seq<byte>)
  {
    [n % 0x100, n / 0x100 % 0x100, n / 0x1_0000 % 0x100, n / 0x100_0000]
  }

  lemma U32RoundTrip(n: u32, b: seq<byte>)
    requires |b| == 4
    ensures |EncodeU32(n)| == 4 && U32(EncodeU32(n)) == n
    ensures EncodeU32(U32(b)) == b
  {
    var q1 := n / 0x100;
    var q2 := q1 / 0x100;
    assert n / 0x1_0000 == q2;
    assert n / 0x100_0000 == q2 / 0x100;
    var m := U32(b);
    var t := b[1] as int + 0x100 * (b[2] as int + 0x100 * b[3] as int);
    assert m / 0x100 == t && m % 0x100 == b[0];
    assert m / 0x1_0000 == t / 0x100 == b[2] as int + 0x100 * b[3] as int;
    assert m / 0x100_0000 == (b[2] as int + 0x100 * b[3] as int) / 0x100 == b[3];
  }

  /** `n` consecutive signed little-endian 16-bit values (construct's Array(n, SLInt16)). */
  function I16s(b: seq<byte>, n: nat): (r: seq<int>)
    requires |b| >= 2 * n
    ensures |r| == n
    ensures forall i :: 0 <= i < n ==> r[i] == I16(b[2 * i], b[2 * i + 1])
  {
    if n == 0 then [] else I16s(b, n - 1) + [I16(b[2 * n - 2], b[2 * n - 1])]
  }

  function EncodeI16s(vs: seq<int>): (b: seq<byte>)
    requires forall i :: 0 <= i < |vs| ==> -0x8000 <= vs[i] < 0x8000
    ensures |b| == 2 * |vs|
  {
    if vs == [] then [] else EncodeI16s(vs[..|vs| - 1]) + EncodeI16(vs[|vs| - 1])
  }

  lemma {:induction false} I16sRoundTrip(vs: seq<int>)
    requires forall i :: 0 <= i < |vs| ==> -0x8000 <= vs[i] < 0x8000
    ensures I16s(EncodeI16s(vs), |vs|) == vs
  {
    var b := EncodeI16s(vs);
    forall i | 0 <= i < |vs|
      ensures I16(b[2 * i], b[2 * i + 1]) == vs[i]
    {
      EncodedAt(vs, i);
      I16RoundTrip(vs[i], 0, 0);
    }
  }

  lemma {:induction false} EncodedAt(vs: seq<int>, i: nat)
    requires forall k :: 0 <= k < |vs| ==> -0x8000 <= vs[k] < 0x8000
    requires i < |vs|
    ensures EncodeI16s(vs)[2 * i] == EncodeI16(vs[i])[0]
    ensures EncodeI16s(vs)[2 * i + 1] == EncodeI16(vs[i])[1]
  {
    var init := vs[..|vs| - 1];
    if i < |vs| - 1 {
      EncodedAt(init, i);
    }
  }
}
