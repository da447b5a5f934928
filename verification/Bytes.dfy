/** Bytes, the two integer widths the wire format uses, and C strings.

    The source tests a byte for compression with `(b & 0xC0) == 0xC0` and takes the offset as
    `((b & 0x3F) << 8) | next`; on a byte held as a number these are `b >= 192` and
    `(b - 192) * 256 + next`, and that is how they are written here. */
module Bytes {

  newtype byte = b: int | 0 <= b < 0x100
  type word16 = w: int | 0 <= w < 0x1_0000
  type word32 = w: int | 0 <= w < 0x1_0000_0000

  /** A dotted name and a record's text, as C strings without their NUL. */
  type Name = seq<byte>
  type Value = seq<byte>

  const DOT: byte := 46

  /** A char promoted to int; char is signed on the platforms the source is built for. */
  function Signed(b: byte): int {
    if b < 128 then b as int else b as int - 256
  }

  datatype Option<+T> = None | Some(value: T)

  /** htons followed by memcpy: the big-endian bytes of a 16-bit number. */
  function Be16(w: word16): (bs: seq<byte>)
    ensures |bs| == 2
  {
    [(w / 0x100) as byte, (w % 0x100) as byte]
  }

  /** memcpy followed by ntohs. */
  function Word16At(data: seq<byte>, at: nat): word16
    requires at + 2 <= |data|
  {
    data[at] as int * 0x100 + data[at + 1] as int
  }

  function Word32At(data: seq<byte>, at: nat): word32
    requires at + 4 <= |data|
  {
    Word16At(data, at) as int * 0x1_0000 + Word16At(data, at + 2) as int
  }

  /** What strdup keeps of a buffer: everything before the first NUL. */
  function CString(s: seq<byte>): (c: seq<byte>)
    ensures |c| <= |s| && c == s[..|c|] && 0 !in c
    ensures |c| < |s| ==> s[|c|] == 0
  {
    if s == [] || s[0] == 0 then [] else [s[0]] + CString(s[1..])
  }

  lemma {:induction false} CStringOfText(s: seq<byte>)
    requires 0 !in s
    ensures CString(s) == s
  {
  }

  lemma Associate(a: seq<byte>, b: seq<byte>, c: seq<byte>, d: seq<byte>)
    ensures a + b + c + d == a + (b + c + d)
  {
  }

  /** The bytes stand in the buffer at the given place. */
  ghost predicate Holds(data: seq<byte>, at: nat, bytes: seq<byte>) {
    && at + |bytes| <= |data|
    && forall k | 0 <= k < |bytes| :: data[at + k] == bytes[k]
  }

  lemma HoldsAppend(data: seq<byte>, at: nat, a: seq<byte>, b: seq<byte>)
    ensures Holds(data, at, a + b) <==> Holds(data, at, a) && Holds(data, at + |a|, b)
  {
    if Holds(data, at, a + b) {
      forall k | 0 <= k < |a|
        ensures data[at + k] == a[k]
      {
        assert (a + b)[k] == a[k];
      }
      forall k | 0 <= k < |b|
        ensures data[at + |a| + k] == b[k]
      {
        assert (a + b)[|a| + k] == b[k];
      }
    }
    if Holds(data, at, a) && Holds(data, at + |a|, b) {
      forall k | 0 <= k < |a + b|
        ensures data[at + k] == (a + b)[k]
      {
        if k >= |a| {
          assert data[at + |a| + (k - |a|)] == b[k - |a|];
        }
      }
    }
  }

  lemma HoldsAt(data: seq<byte>, at: nat, bytes: seq<byte>, k: nat)
    requires Holds(data, at, bytes) && k < |bytes|
    ensures data[at + k] == bytes[k]
  {
  }

  lemma HoldsSlice(data: seq<byte>, at: nat, bytes: seq<byte>)
    requires Holds(data, at, bytes)
    ensures at + |bytes| <= |data| && data[at..at + |bytes|] == bytes
  {
  }

  lemma HoldsInConcat(a: seq<byte>, b: seq<byte>, c: seq<byte>)
    ensures Holds(a + b + c, |a|, b)
  {
  }

  /** One byte stored through a pointer. */
  method Store(buffer: array<byte>, at: nat, b: byte)
    requires at < buffer.Length
    modifies buffer
    ensures buffer[..] == old(buffer[..])[at := b]
  {
    buffer[at] := b;
  }
}
