/** Bytes as the little-endian ARM target sees them (`char` is unsigned there),
    and the numbers both ends of the wire make of them. */
module Bytes {
  newtype byte = b: int | 0 <= b < 256

  /** Two bytes put together most significant first. */
  function BigEndian16(hi: byte, lo: byte): (n: nat)
    ensures n < 0x1_0000
  {
    256 * hi as nat + lo as nat
  }

  /** Two bytes put together least significant first. */
  function LittleEndian16(lo: byte, hi: byte): (n: nat)
    ensures n < 0x1_0000
  {
    BigEndian16(hi, lo)
  }

  /** Four bytes put together most significant first. */
  function BigEndian32(a: byte, b: byte, c: byte, d: byte): (n: nat)
    ensures n < 0x1_0000_0000
  {
    0x100_0000 * a as nat + 0x1_0000 * b as nat + 256 * c as nat + d as nat
  }

  /** The upper byte of a 16-bit number. */
  function High(n: nat): byte
    requires n < 0x1_0000
  {
    (n / 256) as byte
  }

  /** The lower byte of a 16-bit number. */
  function Low(n: nat): byte
    requires n < 0x1_0000
  {
    (n % 256) as byte
  }

  /** Splitting a 16-bit number and joining the halves gives it back, in
      either byte order. */
  lemma {:induction false} SizeRoundTrip(n: nat)
    requires n < 0x1_0000
    ensures BigEndian16(High(n), Low(n)) == n
    ensures LittleEndian16(Low(n), High(n)) == n
  {}

  // ----- small facts about sequences -----

  lemma {:induction false} Assoc<T>(a: seq<T>, b: seq<T>, c: seq<T>)
    ensures (a + b) + c == a + (b + c)
  {}

  lemma {:induction false} Unit<T>(a: seq<T>)
    ensures [] + a == a && a + [] == a
  {}

  lemma {:induction false} DropPrefix<T>(a: seq<T>, b: seq<T>)
    ensures (a + b)[|a|..] == b && (a + b)[..|a|] == a
  {}

  lemma {:induction false} DropStep<T>(s: seq<T>, n: nat)
    requires n < |s|
    ensures s[n..] == [s[n]] + s[n + 1..]
    ensures s[n..][0] == s[n] && s[n..][1..] == s[n + 1..]
  {}

  lemma {:induction false} TakeStep<T>(s: seq<T>, n: nat)
    requires n < |s|
    ensures s[..n + 1] == s[..n] + [s[n]]
  {}

  lemma {:induction false} SplitAt<T>(s: seq<T>, n: nat)
    requires n <= |s|
    ensures s == s[..n] + s[n..]
  {}

  lemma {:induction false} InitLast<T>(s: seq<T>)
    requires s != []
    ensures s == s[..|s| - 1] + [s[|s| - 1]]
  {}

  lemma {:induction false} PrefixOfPrefix<T>(a: seq<T>, b: seq<T>, s: seq<T>)
    requires a + b <= s
    ensures a <= s
  {
    assert a == (a + b)[..|a|] == s[..|a|];
  }

  lemma {:induction false} TakeCons<T>(s: seq<T>, n: nat)
    requires 1 <= n <= |s|
    ensures s[..n] == [s[0]] + s[1..][..n - 1]
    ensures s[..n][0] == s[0] && s[..n][1..] == s[1..][..n - 1]
  {}
}
