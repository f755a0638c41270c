/** Octets, big-endian integers and the two wrapper types the parsers use. */
module Wire {

  type byte = b: int | 0 <= b < 0x100
  type u16 = n: int | 0 <= n < 0x1_0000
  type u32 = n: int | 0 <= n < 0x1_0000_0000

  datatype Option<+T> = None | Some(value: T)

  datatype Result<+T, +E> = Ok(value: T) | Err(error: E)

  lemma Assoc<T>(a: seq<T>, b: seq<T>, c: seq<T>)
    ensures a + b + c == a + (b + c)
  {
  }

  function PutU16(n: u16): (s: seq<byte>)
    ensures |s| == 2
  {
    [n / 0x100, n % 0x100]
  }

  function GetU16(s: seq<byte>): u16
    requires |s| >= 2
  {
    var hi: int := s[0];
    hi * 0x100 + s[1]
  }

  function PutU32(n: u32): (s: seq<byte>)
    ensures |s| == 4
  {
    PutU16(n / 0x1_0000) + PutU16(n % 0x1_0000)
  }

  function GetU32(s: seq<byte>): u32
    requires |s| >= 4
  {
    GetU16(s) * 0x1_0000 + GetU16(s[2..])
  }

  lemma GetPutU16(n: u16, rest: seq<byte>)
    ensures GetU16(PutU16(n) + rest) == n
    ensures (PutU16(n) + rest)[2..] == rest
  {
  }

  lemma PutGetU16(s: seq<byte>)
    requires |s| >= 2
    ensures PutU16(GetU16(s)) == s[..2]
  {
  }

  lemma GetPutU32(n: u32, rest: seq<byte>)
    ensures GetU32(PutU32(n) + rest) == n
    ensures (PutU32(n) + rest)[4..] == rest
  {
    var hi, lo := n / 0x1_0000, n % 0x1_0000;
    assert PutU32(n) + rest == PutU16(hi) + (PutU16(lo) + rest);
    GetPutU16(hi, PutU16(lo) + rest);
    GetPutU16(lo, rest);
  }

  /** The big-endian encoding of a list of 32-bit words. */
  function PutU32s(xs: seq<u32>): (s: seq<byte>)
    ensures |s| == 4 * |xs|
  {
    if xs == [] then [] else PutU32(xs[0]) + PutU32s(xs[1..])
  }

  /** The first `n` 32-bit words of `s`. */
  function GetU32s(s: seq<byte>, n: nat): (xs: seq<u32>)
    requires |s| >= 4 * n
    ensures |xs| == n
  {
    if n == 0 then [] else [GetU32(s)] + GetU32s(s[4..], n - 1)
  }

  lemma {:induction false} GetPutU32s(xs: seq<u32>, rest: seq<byte>)
    ensures GetU32s(PutU32s(xs) + rest, |xs|) == xs
    ensures (PutU32s(xs) + rest)[4 * |xs|..] == rest
  {
    if xs != [] {
      var tail := PutU32s(xs[1..]) + rest;
      assert PutU32s(xs) + rest == PutU32(xs[0]) + tail;
      GetPutU32(xs[0], tail);
      GetPutU32s(xs[1..], rest);
    }
  }

  lemma PutU32sAppend(xs: seq<u32>, x: u32)
    ensures PutU32s(xs + [x]) == PutU32s(xs) + PutU32(x)
  {
    if xs == [] {
      assert [x][1..] == [];
      assert PutU32s([x]) == PutU32(x) + PutU32s([]);
    } else {
      assert (xs + [x])[1..] == xs[1..] + [x];
      PutU32sAppend(xs[1..], x);
    }
  }

  lemma GetU32sAppend(s: seq<byte>, n: nat)
    requires |s| >= 4 * (n + 1)
    ensures GetU32s(s, n + 1) == GetU32s(s, n) + [GetU32(s[4 * n..])]
  {
    hide GetU32;
    if n == 0 {
      assert s[0..] == s;
    } else {
      GetU32sAppend(s[4..], n - 1);
      assert s[4..][4 * (n - 1)..] == s[4 * n..];
    }
  }

  /** Concatenation of a list of byte strings. */
  function Concat(parts: seq<seq<byte>>): seq<byte> {
    if parts == [] then [] else parts[0] + Concat(parts[1..])
  }

  lemma ConcatAppend(parts: seq<seq<byte>>, last: seq<byte>)
    ensures Concat(parts + [last]) == Concat(parts) + last
  {
    if parts == [] {
      assert [last][1..] == [];
      assert Concat([last]) == last + Concat([]);
    } else {
      assert (parts + [last])[1..] == parts[1..] + [last];
      ConcatAppend(parts[1..], last);
    }
  }
}
