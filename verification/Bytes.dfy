/** What every module uses: octets and big-endian words as `struct` has them, and a few helpers. */
module Bytes {
  type byte = b: int | 0 <= b < 256

  type bytes = seq<byte>

  /** Protocol numbers in the IP header. */
  const TCP := 6
  const UDP := 17

  datatype Option<+T> = None | Some(value: T)

  /** `struct.unpack_from('!H', data, at)`. */
  function Word(data: bytes, at: nat): nat
    requires at + 2 <= |data|
  {
    256 * (data[at] as int) + data[at + 1] as int
  }

  /** `struct.unpack_from('!I', data, at)`. */
  function Long(data: bytes, at: nat): nat
    requires at + 4 <= |data|
  {
    65536 * Word(data, at) + Word(data, at + 2)
  }

  /** `struct.pack('!H', word)`. */
  function Packed(word: nat): (two: bytes)
    requires word < 65536
    ensures |two| == 2
  {
    [word / 256, word % 256]
  }

  /** `struct.pack('!I', long)`. */
  function PackedLong(long: nat): (four: bytes)
    requires long < 0x1_0000_0000
    ensures |four| == 4
  {
    Packed(long / 65536) + Packed(long % 65536)
  }

  lemma PackedWord(data: bytes, at: nat)
    requires at + 2 <= |data|
    ensures Word(data, at) < 65536 && Packed(Word(data, at)) == data[at..at + 2]
  {
  }

  lemma LongPacked(data: bytes, at: nat)
    requires at + 4 <= |data|
    ensures Long(data, at) < 0x1_0000_0000 && PackedLong(Long(data, at)) == data[at..at + 4]
  {
    PackedWord(data, at);
    PackedWord(data, at + 2);
  }

  /** `flags & mask != 0` for a mask that is a single bit. */
  predicate Bit(flags: nat, mask: nat)
    requires 0 < mask
  {
    flags / mask % 2 == 1
  }

  function Min(a: nat, b: nat): (m: nat)
    ensures m <= a && m <= b && (m == a || m == b)
  {
    if a < b then a else b
  }

  function MaxR(a: real, b: real): (m: real)
    ensures a <= m && b <= m && (m == a || m == b)
  {
    if a < b then b else a
  }

  /** Items read so far before those still to be read, if the rest can be read. */
  function Onto<T, R>(front: seq<T>, more: Option<(seq<T>, R)>): Option<(seq<T>, R)> {
    match more
    case None => None
    case Some((later, rest)) => Some((front + later, rest))
  }

  lemma OntoNext<T, R>(front: seq<T>, item: T, more: Option<(seq<T>, R)>)
    ensures Onto(front + [item], more) == Onto(front, Onto([item], more))
  {
    if more.Some? {
      assert front + [item] + more.value.0 == front + ([item] + more.value.0);
    }
  }

  lemma Quotient(n: nat, k: nat, q: nat, r: nat)
    requires k in {2, 4, 16, 512, 2048} && n == k * q + r && r < k
    ensures n / k == q && n % k == r
  {
  }
}
