/** Address translation between the sandboxes of a service group. */
module Router {
  import opened Bytes
  import opened Checksum

  const GUEST: bytes := [10, 0, 2, 15]
  const DNS: bytes := [10, 0, 2, 3]
  const GUEST_MAC: bytes := [2, 0, 0, 0, 0, 21]
  const GATEWAY_MAC: bytes := [2, 0, 0, 0, 0, 2]

  function HeaderSize(frame: bytes): nat
    requires |frame| >= 34
  {
    frame[14] as int % 16 * 4
  }

  /** A whole IPv4 packet that names the guest's fixed address as its source. */
  predicate Routable(frame: bytes) {
    && |frame| >= 34 && frame[12..14] == [8, 0] && frame[14] as int / 16 == 4
    && HeaderSize(frame) >= 20 && Word(frame, 16) >= HeaderSize(frame)
    && |frame| >= 14 + Word(frame, 16) && frame[26..30] == GUEST
  }

  /** The packet with its new addresses and a zero header checksum. */
  function Readdressed(frame: bytes, source: bytes, destination: bytes): bytes
    requires Routable(frame) && |source| == 4 && |destination| == 4
  {
    var packet := frame[..14 + Word(frame, 16)];
    Splice(Splice(Splice(packet, 0, GUEST_MAC + GATEWAY_MAC), 26, source + destination), 24, [0, 0])
  }

  function Translated(frame: bytes, source: bytes, destination: bytes): bytes
    requires Routable(frame) && |source| == 4 && |destination| == 4
  {
    var packet := Readdressed(frame, source, destination);
    FoldIsResidue(Sum(packet[14..14 + HeaderSize(frame)]));
    Splice(packet, 24, Packed(65535 - Fold(Sum(packet[14..14 + HeaderSize(frame)]))))
  }

  /** Equation 3 in section 3 of RFC 1624, with the zero of UDP written as all ones (RFC 768). */
  function Patched(current: nat, was: bytes, now: bytes, protocol: nat): nat
    requires current < 65536 && |was| == 8 && |now| == 8 && Sum(was) <= 4 * 65535
  {
    FoldIsResidue(65535 - current + (4 * 65535 - Sum(was)) + Sum(now));
    var value := 65535 - Fold(65535 - current + (4 * 65535 - Sum(was)) + Sum(now));
    if value == 0 && protocol == UDP then 65535 else value
  }

  lemma SumOfEight(data: bytes)
    requires |data| == 8
    ensures Sum(data) == Word(data, 0) + Word(data, 2) + Word(data, 4) + Word(data, 6) <= 4 * 65535
  {
    var six, four, two := data[2..], data[4..], data[6..];
    assert six[2..] == four && four[2..] == two && two[2..] == [];
    assert Sum(two) == Word(data, 6);
    assert Sum(four) == Word(data, 4) + Word(data, 6);
    assert Sum(six) == Word(data, 2) + Word(data, 4) + Word(data, 6);
  }

  /** Whether the frame holds the transport checksum: it does so in the first fragment of TCP and UDP. */
  predicate HoldsTransport(frame: bytes)
    requires |frame| >= 34
  {
    Word(frame, 20) % 0x2000 == 0 && (frame[23] == TCP || frame[23] == UDP)
  }

  /** Where the transport checksum stands, from the start of the transport header. */
  function Field(protocol: nat): nat {
    if protocol == TCP then 16 else 6
  }

  function Routed(frame: bytes, source: bytes, destination: bytes): Option<bytes>
    requires |source| == 4 && |destination| == 4
  {
    if !Routable(frame) then None
    else
      var packet := Translated(frame, source, destination);
      var at := 14 + HeaderSize(frame) + Field(frame[23]);
      if !HoldsTransport(frame) then Some(packet)
      else if at + 2 > |packet| then None
      else if Word(packet, at) == 0 && frame[23] == UDP then Some(packet)
      else
        SumOfEight(frame[26..34]);
        PatchedFits(Word(packet, at), frame[26..34], source + destination, frame[23]);
        Some(Splice(packet, at, Packed(Patched(Word(packet, at), frame[26..34], source + destination, frame[23]))))
  }

  lemma PatchedFits(current: nat, was: bytes, now: bytes, protocol: nat)
    requires current < 65536 && |was| == 8 && |now| == 8 && Sum(was) <= 4 * 65535
    ensures Patched(current, was, now, protocol) < 65536
  {
  }

  /** Writes octets in place. */
  method Write(packet: array<byte>, at: nat, part: bytes)
    requires at + |part| <= packet.Length
    modifies packet
    ensures packet[..] == Splice(old(packet[..]), at, part)
  {
    for i := 0 to |part|
      invariant packet[..] == Splice(old(packet[..]), at, part[..i])
    {
      packet[at + i] := part[i];
      assert part[..i + 1] == part[..i] + [part[i]];
    }
    assert part[..|part|] == part;
  }

  method Route(frame: bytes, source: bytes, destination: bytes) returns (r: Option<bytes>)
    requires |source| == 4 && |destination| == 4
    ensures r == Routed(frame, source, destination)
  {
    hide Splice, Sum, Fold, Patched;
    if |frame| < 34 || frame[12..14] != [8, 0] || frame[14] as int / 16 != 4 {
      return None;
    }
    var header := frame[14] as int % 16 * 4;
    var length := Word(frame, 16);
    if header < 20 || length < header || |frame| < 14 + length || frame[26..30] != GUEST {
      return None;
    }
    var packet := new byte[14 + length](i requires 0 <= i < 14 + length => frame[i]);
    assert packet[..] == frame[..14 + length];
    var was := packet[26..34];
    assert was == frame[26..34];
    Write(packet, 0, GUEST_MAC + GATEWAY_MAC);
    Write(packet, 26, source + destination);
    Write(packet, 24, [0, 0]);
    assert packet[..] == Readdressed(frame, source, destination);
    assert packet[14..14 + header] == Readdressed(frame, source, destination)[14..14 + header];
    var value := Compute(packet[14..14 + header]);
    Write(packet, 24, Packed(value));
    assert packet[..] == Translated(frame, source, destination);
    TranslatedKeeps(frame, source, destination);
    var fragment, protocol := Word(packet[..], 20), packet[23];
    if fragment % 0x2000 == 0 && (protocol == TCP || protocol == UDP) {
      var offset := 14 + header + if protocol == TCP then 16 else 6;
      if offset + 2 > packet.Length {
        return None;
      }
      var current := Word(packet[..], offset);
      if current != 0 || protocol == TCP {
        SumOfEight(was);
        SumOfEight(source + destination);
        var total := 65535 - current;
        total := total + (65535 - Word(was, 0)) + (65535 - Word(was, 2)) + (65535 - Word(was, 4)) + (65535 - Word(was, 6));
        total := total + Word(source + destination, 0) + Word(source + destination, 2)
                 + Word(source + destination, 4) + Word(source + destination, 6);
        var patched := PatchedValue(total, current, was, source + destination, protocol);
        Write(packet, offset, Packed(patched));
      }
    }
    return Some(packet[..]);
  }

  method PatchedValue(total: nat, ghost current: nat, ghost was: bytes, ghost now: bytes, protocol: nat)
    returns (value: nat)
    requires current < 65536 && |was| == 8 && |now| == 8 && Sum(was) <= 4 * 65535
    requires total == 65535 - current + (4 * 65535 - Sum(was)) + Sum(now)
    ensures value == Patched(current, was, now, protocol) && value < 65536
  {
    FoldIsResidue(total);
    var folded := FoldCarry(total);
    value := 65535 - folded;
    value := if value != 0 then value else if protocol == UDP then 65535 else 0;
  }

  lemma SpliceAt(data: bytes, at: nat, part: bytes, i: nat)
    requires at + |part| <= |data| && i < |data|
    ensures |Splice(data, at, part)| == |data|
    ensures Splice(data, at, part)[i] == if at <= i < at + |part| then part[i - at] else data[i]
  {
  }

  lemma TranslatedAt(frame: bytes, source: bytes, destination: bytes, i: nat)
    requires Routable(frame) && |source| == 4 && |destination| == 4 && i < 14 + Word(frame, 16)
    ensures |Translated(frame, source, destination)| == 14 + Word(frame, 16)
    ensures !(24 <= i < 26) ==>
              Translated(frame, source, destination)[i] ==
              if i < 12 then (GUEST_MAC + GATEWAY_MAC)[i]
              else if 26 <= i < 34 then (source + destination)[i - 26] else frame[i]
  {
    hide Sum, Fold, Splice;
    var p0 := frame[..14 + Word(frame, 16)];
    var p1 := Splice(p0, 0, GUEST_MAC + GATEWAY_MAC);
    SpliceAt(p0, 0, GUEST_MAC + GATEWAY_MAC, i);
    var p2 := Splice(p1, 26, source + destination);
    SpliceAt(p1, 26, source + destination, i);
    var p3 := Splice(p2, 24, [0, 0]);
    SpliceAt(p2, 24, [0, 0], i);
    FoldIsResidue(Sum(p3[14..14 + HeaderSize(frame)]));
    SpliceAt(p3, 24, Packed(65535 - Fold(Sum(p3[14..14 + HeaderSize(frame)]))), i);
  }

  /** Nothing changes but the MAC addresses, the header checksum and the IP addresses. */
  lemma TranslatedKeeps(frame: bytes, source: bytes, destination: bytes)
    requires Routable(frame) && |source| == 4 && |destination| == 4
    ensures
      var out := Translated(frame, source, destination);
      && |out| == 14 + Word(frame, 16)
      && out[..12] == GUEST_MAC + GATEWAY_MAC
      && out[26..34] == source + destination
      && (forall i | 12 <= i < |out| && !(24 <= i < 34) :: out[i] == frame[i])
  {
    hide Translated;
    var out := Translated(frame, source, destination);
    TranslatedAt(frame, source, destination, 0);
    forall i | 0 <= i < |out| && !(24 <= i < 26)
      ensures out[i] == if i < 12 then (GUEST_MAC + GATEWAY_MAC)[i]
                        else if 26 <= i < 34 then (source + destination)[i - 26] else frame[i]
    {
      TranslatedAt(frame, source, destination, i);
    }
  }

  lemma SpliceInside(data: bytes, at: nat, part: bytes, lo: nat, hi: nat)
    requires lo <= at && at + |part| <= hi <= |data|
    ensures Splice(data, at, part)[lo..hi] == Splice(data[lo..hi], at - lo, part)
  {
    forall i | lo <= i < hi ensures Splice(data, at, part)[i] == Splice(data[lo..hi], at - lo, part)[i - lo] {
      SpliceAt(data, at, part, i);
      SpliceAt(data[lo..hi], at - lo, part, i - lo);
    }
  }

  lemma SpliceOutside(data: bytes, at: nat, part: bytes, lo: nat, hi: nat)
    requires at + |part| <= |data| && lo <= hi <= |data| && (hi <= at || at + |part| <= lo)
    ensures Splice(data, at, part)[lo..hi] == data[lo..hi]
  {
    forall i | lo <= i < hi ensures Splice(data, at, part)[i] == data[i] {
      SpliceAt(data, at, part, i);
    }
  }

  lemma SumPositive(data: bytes)
    requires |data| >= 2 && Word(data, 0) > 0
    ensures Sum(data) > 0
  {
  }

  /** The header checksum verifies, whatever it was before and whatever options the header holds. */
  lemma TranslatedHeaderVerifies(frame: bytes, source: bytes, destination: bytes)
    requires Routable(frame) && |source| == 4 && |destination| == 4
    ensures |Translated(frame, source, destination)| == 14 + Word(frame, 16)
    ensures Verifies(Translated(frame, source, destination)[14..14 + HeaderSize(frame)])
  {
    var n := 14 + HeaderSize(frame);
    var packet := Readdressed(frame, source, destination);
    var header := packet[14..n];
    ReaddressedHeader(frame, source, destination);
    hide Sum, Fold, Splice, Verifies, Readdressed;
    SumPositive(header);
    ChecksumVerifies(header, 10);
    SpliceInside(packet, 24, Packed(65535 - Fold(Sum(header))), 14, n);
    SpliceAt(packet, 24, Packed(65535 - Fold(Sum(header))), 0);
  }

  lemma ReaddressedHeader(frame: bytes, source: bytes, destination: bytes)
    requires Routable(frame) && |source| == 4 && |destination| == 4
    ensures
      var packet := Readdressed(frame, source, destination);
      && |packet| == 14 + Word(frame, 16) && packet[14] == frame[14] && packet[24] == 0 && packet[25] == 0
  {
    hide Splice;
    var p0 := frame[..14 + Word(frame, 16)];
    var p1 := Splice(p0, 0, GUEST_MAC + GATEWAY_MAC);
    SpliceAt(p0, 0, GUEST_MAC + GATEWAY_MAC, 14);
    var p2 := Splice(p1, 26, source + destination);
    SpliceAt(p1, 26, source + destination, 14);
    SpliceAt(p2, 24, [0, 0], 14);
    SpliceAt(p2, 24, [0, 0], 24);
    SpliceAt(p2, 24, [0, 0], 25);
  }

  /** The patched checksum differs from the old one by what the addresses differ, modulo 65535. */
  lemma PatchedBalances(current: nat, was: bytes, now: bytes, protocol: nat)
    requires current < 65536 && |was| == 8 && |now| == 8 && Sum(was) <= 4 * 65535
    ensures (Patched(current, was, now, protocol) + Sum(now)) % 65535 == (current + Sum(was)) % 65535
    ensures protocol == UDP ==> Patched(current, was, now, protocol) != 0
  {
    var total := 65535 - current + (4 * 65535 - Sum(was)) + Sum(now);
    FoldIsResidue(total);
    var k := total / 65535 - Fold(total) / 65535;
    assert total == Fold(total) + 65535 * k;
    var value: int := 65535 - Fold(total);
    assert value + Sum(now) == current + Sum(was) + 65535 * (k - 4);
    Residue(current + Sum(was), k - 4);
    Residue(value + Sum(now), 1);
  }

  /** The pseudo header a transport checksum covers besides the datagram. */
  function Pseudo(addresses: bytes, protocol: nat, size: nat): bytes
    requires protocol < 256 && size < 65536
  {
    addresses + [0, protocol] + Packed(size)
  }

  lemma SumPseudo(addresses: bytes, protocol: nat, size: nat, datagram: bytes)
    requires |addresses| == 8 && protocol < 256 && size < 65536
    ensures Sum(Pseudo(addresses, protocol, size) + datagram) == Sum(addresses) + protocol + size + Sum(datagram)
  {
    var word: bytes := [0, protocol];
    assert word == Packed(protocol);
    hide Sum;
    SumWord(protocol);
    SumWord(size);
    SumConcat(addresses + word, Packed(size));
    SumConcat(addresses, word);
    SumConcat(Pseudo(addresses, protocol, size), datagram);
  }

  /** The transport octets of a routed frame: unchanged, except for the checksum where the frame holds one. */
  lemma RoutedPayload(frame: bytes, source: bytes, destination: bytes)
    requires |source| == 4 && |destination| == 4 && Routed(frame, source, destination).Some?
    ensures
      var out, start := Routed(frame, source, destination).value, 14 + HeaderSize(frame);
      var payload := frame[start..14 + Word(frame, 16)];
      var field := Field(frame[23]);
      && |out| == 14 + Word(frame, 16)
      && Translated(frame, source, destination)[start..] == payload
      && out[..start] == Translated(frame, source, destination)[..start]
      && (if !HoldsTransport(frame) then out[start..] == payload
          else
            && field + 2 <= |payload|
            && (if Word(payload, field) == 0 && frame[23] == UDP then out[start..] == payload
                else
                  && Sum(frame[26..34]) <= 4 * 65535
                  && var value := Patched(Word(payload, field), frame[26..34], source + destination, frame[23]);
                     value < 65536 && out[start..] == Splice(payload, field, Packed(value))))
  {
    hide Sum, Fold, Splice, Translated, Patched;
    var packet, start := Translated(frame, source, destination), 14 + HeaderSize(frame);
    TranslatedKeeps(frame, source, destination);
    var payload, field := frame[start..14 + Word(frame, 16)], Field(frame[23]);
    assert packet[start..] == payload;
    assert forall i | 0 <= i < |payload| :: packet[start + i] == payload[i];
    if HoldsTransport(frame) && !(Word(packet, start + field) == 0 && frame[23] == UDP) {
      SumOfEight(frame[26..34]);
      var value := Patched(Word(packet, start + field), frame[26..34], source + destination, frame[23]);
      PatchedFits(Word(packet, start + field), frame[26..34], source + destination, frame[23]);
      SpliceBehind(packet, start, field, Packed(value));
    }
  }

  lemma SpliceBehind(data: bytes, start: nat, at: nat, part: bytes)
    requires start + at + |part| <= |data|
    ensures Splice(data, start + at, part)[start..] == Splice(data[start..], at, part)
    ensures Splice(data, start + at, part)[..start] == data[..start] && |Splice(data, start + at, part)| == |data|
  {
    hide Splice;
    SpliceInside(data, start + at, part, start, |data|);
    SpliceOutside(data, start + at, part, 0, start);
    if data != [] {
      SpliceAt(data, start + at, part, 0);
    }
    assert data[start..|data|] == data[start..];
  }

  lemma Divisible(a: int, b: int, c: int)
    requires a % 65535 == b % 65535
    ensures (c + a) % 65535 == (c + b) % 65535
  {
    Residue(c + b, (a - b) / 65535);
    assert a == b + 65535 * ((a - b) / 65535);
  }

  /**
   * For any payload and however the datagram is fragmented: the checksum of the reassembled datagram verifies after
   * translation exactly when it verified before. `rest` are the fragments after the first, which is translated here.
   */
  lemma FirstFragmentStaysValid(frame: bytes, source: bytes, destination: bytes, rest: bytes, size: nat)
    requires |source| == 4 && |destination| == 4 && Routed(frame, source, destination).Some?
    requires HoldsTransport(frame) && size < 65536
    ensures
      var out, start, protocol := Routed(frame, source, destination).value, 14 + HeaderSize(frame), frame[23];
      var before, after := frame[start..14 + Word(frame, 16)] + rest, out[start..] + rest;
      && |out| == 14 + Word(frame, 16)
      && |before| == |after|
      && (if Word(before, Field(protocol)) == 0 && protocol == UDP then after == before
          else
            && (Verifies(Pseudo(frame[26..34], protocol, size) + before)
                <==> Verifies(Pseudo(source + destination, protocol, size) + after))
            && (protocol == UDP ==> Word(after, Field(protocol)) != 0))
  {
    hide Sum, Fold, Splice, Translated, Patched, Verifies;
    RoutedPayload(frame, source, destination);
    var out, start, protocol := Routed(frame, source, destination).value, 14 + HeaderSize(frame), frame[23];
    var payload, field := frame[start..14 + Word(frame, 16)], Field(protocol);
    var before, after := payload + rest, out[start..] + rest;
    if !(Word(payload, field) == 0 && protocol == UDP) {
      var was, now, current := frame[26..34], source + destination, Word(payload, field);
      var value := Patched(current, was, now, protocol);
      PatchedBalances(current, was, now, protocol);
      SpliceFront(payload, field, Packed(value), rest);
      SumSplice(before, field, Packed(value));
      SumWord(value);
      SumWord(current);
      PackedWord(before, field);
      SumPseudo(was, protocol, size, before);
      SumPseudo(now, protocol, size, after);
      VerifiesIsDivisible(Pseudo(was, protocol, size) + before);
      VerifiesIsDivisible(Pseudo(now, protocol, size) + after);
      Divisible(value + Sum(now), current + Sum(was), protocol + size + Sum(before) - current);
      SpliceAt(before, field, Packed(value), field);
      SpliceAt(before, field, Packed(value), field + 1);
    }
  }

  lemma SpliceFront(data: bytes, at: nat, part: bytes, rest: bytes)
    requires at + |part| <= |data|
    ensures Splice(data, at, part) + rest == Splice(data + rest, at, part)
  {
  }
}
