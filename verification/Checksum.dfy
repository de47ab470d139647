/** The Internet checksum of RFC 1071, by arithmetic modulo 65535. */
module Checksum {
  import opened Bytes

  /** The sum of the big-endian words, with an odd last octet padded by zero. */
  function Sum(data: bytes): nat {
    if |data| == 0 then 0
    else if |data| == 1 then 256 * (data[0] as int)
    else Word(data, 0) + Sum(data[2..])
  }

  /** An odd last octet counts as if a zero followed it. */
  lemma {:induction false} SumPads(data: bytes)
    requires |data| % 2 == 1
    ensures Sum(data) == Sum(data + [0])
  {
    if |data| == 1 {
      assert (data + [0])[2..] == [];
    } else {
      assert (data + [0])[2..] == data[2..] + [0];
      SumPads(data[2..]);
    }
  }

  /** End-around carry until the sum fits into one word. */
  function Fold(total: nat): nat {
    if total < 65536 then total else Fold(total % 65536 + total / 65536)
  }

  /** What a receiver checks: the data sum to all ones. */
  predicate Verifies(data: bytes) {
    Fold(Sum(data)) == 65535
  }

  lemma {:induction false} FoldIsResidue(total: nat)
    ensures Fold(total) < 65536
    ensures Fold(total) % 65535 == total % 65535
    ensures Fold(total) == 0 <==> total == 0
  {
    if total >= 65536 {
      var carried := total % 65536 + total / 65536;
      FoldIsResidue(carried);
      assert total == carried + 65535 * (total / 65536);
      Residue(carried, total / 65536);
    }
  }

  lemma Residue(a: int, k: int)
    ensures (a + 65535 * k) % 65535 == a % 65535
  {
  }

  /** Data verify exactly when their sum is a positive multiple of 65535. */
  lemma VerifiesIsDivisible(data: bytes)
    ensures Verifies(data) <==> Sum(data) % 65535 == 0 && Sum(data) > 0
  {
    FoldIsResidue(Sum(data));
  }

  method FoldCarry(sum: nat) returns (total: nat)
    ensures total == Fold(sum)
  {
    total := sum;
    while total / 65536 != 0
      invariant Fold(total) == Fold(sum)
      decreases total
    {
      total := total % 65536 + total / 65536;
    }
  }

  method Compute(data: bytes) returns (value: nat)
    ensures value == 65535 - Fold(Sum(data))
    ensures value < 65536
    ensures value == 0 <==> Verifies(data)
  {
    FoldIsResidue(Sum(data));
    var sum, i := 0, 0;
    while i + 1 < |data|
      invariant 0 <= i <= |data| && i % 2 == 0
      invariant sum + Sum(data[i..]) == Sum(data)
    {
      assert data[i..][2..] == data[i + 2..];
      sum := sum + Word(data, i);
      i := i + 2;
    }
    if i < |data| {
      assert data[i..] == [data[i]];
      sum := sum + 256 * (data[i] as int);
    } else {
      assert data[i..] == [];
    }
    var total := FoldCarry(sum);
    return 65535 - total;
  }

  lemma {:induction false} SumConcat(a: bytes, b: bytes)
    requires |a| % 2 == 0
    ensures Sum(a + b) == Sum(a) + Sum(b)
  {
    if a == [] {
      assert a + b == b;
    } else {
      assert (a + b)[2..] == a[2..] + b;
      SumConcat(a[2..], b);
    }
  }

  /** `data` with `part` written over it at an offset. */
  function Splice(data: bytes, at: nat, part: bytes): bytes
    requires at + |part| <= |data|
  {
    data[..at] + part + data[at + |part|..]
  }

  lemma SumSplice(data: bytes, at: nat, part: bytes)
    requires at + |part| <= |data| && at % 2 == 0 && |part| % 2 == 0
    ensures Sum(Splice(data, at, part)) == Sum(data) - Sum(data[at..at + |part|]) + Sum(part)
  {
    hide Sum;
    var front, was, back := data[..at], data[at..at + |part|], data[at + |part|..];
    assert data == front + was + back;
    SumConcat(front + was, back);
    SumConcat(front, was);
    SumConcat(front + part, back);
    SumConcat(front, part);
  }

  lemma SumWord(word: nat)
    requires word < 65536
    ensures Sum(Packed(word)) == word
  {
    assert Packed(word)[2..] == [];
  }

  /** Writing the checksum of data whose checksum field is zero makes the data verify, unless they are all zero. */
  lemma ChecksumVerifies(data: bytes, at: nat)
    requires at % 2 == 0 && at + 2 <= |data| && data[at] == 0 && data[at + 1] == 0 && Sum(data) > 0
    ensures Fold(Sum(data)) < 65536
    ensures Verifies(Splice(data, at, Packed(65535 - Fold(Sum(data)))))
  {
    hide Sum, Fold, Splice, Verifies;
    FoldIsResidue(Sum(data));
    var value: nat := 65535 - Fold(Sum(data));
    var done := Splice(data, at, Packed(value));
    SumSplice(data, at, Packed(value));
    SumWord(value);
    SumWord(0);
    assert data[at..at + 2] == Packed(0);
    assert Sum(done) == Sum(data) + value;
    VerifiesIsDivisible(done);
  }
}
