/** Address translation of packets as their senders write them, field by field. */
module RouterWire {
  import opened Bytes
  import opened Packets
  import opened Checksum
  import opened Router

  /** The transport checksum of a packet, where the packet holds it: in a first fragment of TCP or UDP. */
  function ChecksumAt(ip: Ip): Option<nat> {
    if ip.offset != 0 then None
    else if ip.protocol == 6 then Some(16)
    else if ip.protocol == 17 then Some(6)
    else None
  }

  lemma RoutableExactly(ip: Ip)
    requires ip.Legal()
    ensures var frame := ip.Octets();
            && |frame| >= 34 && (Routable(frame) <==> ip.source == [10, 0, 2, 15])
            && HeaderSize(frame) == 20 + |ip.options| && Word(frame, 16) == ip.Size()
            && frame[23] == ip.protocol && frame[26..34] == ip.source + ip.destination
            && frame[14 + HeaderSize(frame)..14 + Word(frame, 16)] == ip.payload
            && (HoldsTransport(frame) <==> ChecksumAt(ip).Some?)
            && (ChecksumAt(ip).Some? ==> Field(frame[23]) == ChecksumAt(ip).value)
  {
    IpReads(ip);
    hide Ip.Octets;
    var frame := ip.Octets();
    assert frame[26..34] == frame[26..30] + frame[30..34];
    OffsetIsZero(ip);
  }

  /**
   * Exactly which packets are not routed: those that do not name the guest as their source, and those whose transport
   * checksum would lie behind their end.
   */
  lemma RoutedExactly(ip: Ip, source: bytes, destination: bytes)
    requires ip.Legal() && |source| == |destination| == 4
    ensures Routed(ip.Octets(), source, destination).None? <==>
              || ip.source != [10, 0, 2, 15]
              || (ip.offset == 0 && ip.protocol == 6 && |ip.payload| < 18)
              || (ip.offset == 0 && ip.protocol == 17 && |ip.payload| < 8)
  {
    hide Ip.Octets, Translated, Patched, Splice, Routable, HoldsTransport;
    RoutableExactly(ip);
    if ip.source == [10, 0, 2, 15] {
      TranslatedKeeps(ip.Octets(), source, destination);
    }
  }

  /** Frames that hold no IPv4 packet are not routed either. */
  lemma OnlyPacketsRouted(frame: bytes, source: bytes, destination: bytes)
    requires !HoldsIp(frame) && |source| == |destination| == 4
    ensures Routed(frame, source, destination).None?
  {
    IpExactly(frame);
  }

  /** A packet with other addresses, another checksum and another payload of the same length differs just there. */
  lemma FrontChanges(ip: Ip, other: Ip)
    requires ip.Legal() && other.Legal() && |other.payload| == |ip.payload|
    requires other == ip.(macs := other.macs, checksum := other.checksum, source := other.source,
                          destination := other.destination, payload := other.payload, padding := other.padding)
    ensures |ip.Front()| == 34
    ensures other.Front() ==
            other.macs + ip.Front()[12..24] + Packed(other.checksum) + other.source + other.destination
  {
    assert ip.Fragment() < 65536 && other.Fragment() == ip.Fragment() && other.Size() == ip.Size();
    hide Packed, Ip.Fragment;
    var word: byte := 0x45 + |ip.options| / 4;
    var kept: bytes := [8, 0, word, ip.service] + Packed(ip.Size()) + Packed(ip.identification) + Packed(ip.Fragment())
                       + [ip.ttl, ip.protocol];
    assert ip.Front() == ip.macs + kept + (Packed(ip.checksum) + ip.source + ip.destination);
    assert other.Front() == other.macs + kept + (Packed(other.checksum) + other.source + other.destination);
    assert ip.Front()[12..24] == kept;
  }

  /** The frame that is routed, in parts. */
  lemma RoutedParts(ip: Ip, source: bytes, destination: bytes)
    requires ip.Legal() && |source| == |destination| == 4 && Routed(ip.Octets(), source, destination).Some?
    ensures
      var frame, out, start := ip.Octets(), Routed(ip.Octets(), source, destination).value, 34 + |ip.options|;
      && |out| == 14 + ip.Size() && |frame| >= |out|
      && out[..12] == [2, 0, 0, 0, 0, 21, 2, 0, 0, 0, 0, 2]
      && out[12..24] == frame[12..24] && out[26..30] == source && out[30..34] == destination && out[34..start] == ip.options
      && out[..start] == Translated(frame, source, destination)[..start]
  {
    hide Ip.Octets, Translated, Patched, Splice, Sum, Routed, HoldsTransport;
    var frame, start := ip.Octets(), 34 + |ip.options|;
    RoutableExactly(ip);
    RoutedExactly(ip, source, destination);
    IpReads(ip);
    TranslatedKeeps(frame, source, destination);
    RoutedPayload(frame, source, destination);
    var out, packet := Routed(frame, source, destination).value, Translated(frame, source, destination);
    assert forall i | 0 <= i < start :: out[i] == out[..start][i] == packet[i];
    assert out[..12] == packet[..12] && out[26..30] == packet[26..34][..4] && out[30..34] == packet[26..34][4..];
    assert out[34..start] == frame[34..start];
  }

  /** Which octets of the payload a translation may touch, and what it leaves of them. */
  ghost predicate OnlyChecksum(ip: Ip, payload: bytes) {
    && |payload| == |ip.payload|
    && match ChecksumAt(ip)
       case None => payload == ip.payload
       case Some(at) =>
         && at + 2 <= |ip.payload|
         && (forall i | 0 <= i < |payload| && !(at <= i < at + 2) :: payload[i] == ip.payload[i])
         && (ip.protocol == 17 && Word(ip.payload, at) == 0 ==> payload == ip.payload)
         && (ip.protocol == 17 && Word(ip.payload, at) != 0 ==> Word(payload, at) != 0)
  }

  lemma PayloadChanges(ip: Ip, source: bytes, destination: bytes)
    requires ip.Legal() && |source| == |destination| == 4 && Routed(ip.Octets(), source, destination).Some?
    ensures |Routed(ip.Octets(), source, destination).value| >= 34 + |ip.options|
    ensures OnlyChecksum(ip, Routed(ip.Octets(), source, destination).value[34 + |ip.options|..])
  {
    hide Ip.Octets, Translated, Patched, Splice, Sum, Routed, Routable, HoldsTransport;
    var frame := ip.Octets();
    RoutableExactly(ip);
    RoutedExactly(ip, source, destination);
    RoutedPayload(frame, source, destination);
    var payload := Routed(frame, source, destination).value[34 + |ip.options|..];
    if ChecksumAt(ip).Some? && payload != ip.payload {
      var at := ChecksumAt(ip).value;
      var value := Patched(Word(ip.payload, at), frame[26..34], source + destination, frame[23]);
      PatchedBalances(Word(ip.payload, at), frame[26..34], source + destination, frame[23]);
      forall i | 0 <= i < |ip.payload|
        ensures |payload| == |ip.payload|
        ensures payload[i] == if at <= i < at + 2 then Packed(value)[i - at] else ip.payload[i]
      {
        SpliceAt(ip.payload, at, Packed(value), i);
      }
    }
  }

  lemma Assembled(ip: Ip, out: Ip, octets: bytes)
    requires ip.Legal() && out.Legal() && |octets| >= 34 + |ip.options| && |ip.Octets()| >= 34
    requires out == ip.(macs := octets[..12], checksum := out.checksum, source := out.source,
                        destination := out.destination, payload := octets[34 + |ip.options|..], padding := [])
    requires |out.payload| == |ip.payload| && octets[12..24] == ip.Octets()[12..24]
    requires Packed(out.checksum) == octets[24..26] && out.source == octets[26..30] && out.destination == octets[30..34]
    requires octets[34..34 + |ip.options|] == ip.options
    ensures out.Octets() == octets
  {
    FrontChanges(ip, out);
    hide Ip.Front, Packed;
    var start := 34 + |ip.options|;
    assert ip.Octets()[12..24] == ip.Front()[12..24];
    assert out.Front() == octets[..34];
    assert octets == octets[..34] + octets[34..start] + octets[start..] + [];
  }

  /**
   * A packet that is routed keeps every field but the MAC addresses, the header checksum and its addresses, loses its
   * padding, and its payload changes in the transport checksum at most. The new header verifies whatever it was before.
   */
  lemma RoutedIs(ip: Ip, source: bytes, destination: bytes) returns (out: Ip)
    requires ip.Legal() && |source| == |destination| == 4 && Routed(ip.Octets(), source, destination).Some?
    ensures out.Legal() && Routed(ip.Octets(), source, destination) == Some(out.Octets())
    ensures out == ip.(macs := [2, 0, 0, 0, 0, 21, 2, 0, 0, 0, 0, 2], checksum := out.checksum, source := source,
                       destination := destination, payload := out.payload, padding := [])
    ensures OnlyChecksum(ip, out.payload)
    ensures Verifies(out.Octets()[14..34 + |ip.options|])
  {
    hide Translated, Patched, Splice, Sum, Routed, Verifies, Ip.Fragment, Ip.Octets;
    var frame, octets, start := ip.Octets(), Routed(ip.Octets(), source, destination).value, 34 + |ip.options|;
    RoutedParts(ip, source, destination);
    PayloadChanges(ip, source, destination);
    RoutableExactly(ip);
    RoutedExactly(ip, source, destination);
    TranslatedHeaderVerifies(frame, source, destination);
    PackedWord(octets, 24);
    out := ip.(macs := octets[..12], checksum := Word(octets, 24), source := source, destination := destination,
               payload := octets[start..], padding := []);
    assert octets[14..start] == octets[..start][14..];
    Assembled(ip, out, octets);
  }

  /**
   * For any payload and however the datagram is fragmented: the checksum of the reassembled datagram verifies after
   * translation exactly when it verified before, and a UDP checksum that was left out stays left out. `rest` are the
   * fragments after the first, which is translated here.
   */
  lemma TransportStaysValid(ip: Ip, source: bytes, destination: bytes, rest: bytes, size: nat) returns (out: Ip)
    requires ip.Legal() && |source| == |destination| == 4 && size < 65536
    requires ip.source == [10, 0, 2, 15] && ip.offset == 0
    requires (ip.protocol == 6 && |ip.payload| >= 18) || (ip.protocol == 17 && |ip.payload| >= 8)
    ensures out.Legal() && Routed(ip.Octets(), source, destination) == Some(out.Octets())
    ensures out.source == source && out.destination == destination && OnlyChecksum(ip, out.payload)
    ensures ip.protocol == 6 || Word(ip.payload, 6) != 0 ==>
              (Verifies(Pseudo(ip.source + ip.destination, ip.protocol, size) + (ip.payload + rest)) <==>
               Verifies(Pseudo(source + destination, ip.protocol, size) + (out.payload + rest)))
  {
    hide Ip.Octets, Translated, Patched, Splice, Sum, Routed, Verifies, Routable;
    RoutableExactly(ip);
    RoutedExactly(ip, source, destination);
    out := RoutedIs(ip, source, destination);
    RoutableExactly(out);
    IpReads(out);
    var frame := ip.Octets();
    FirstFragmentStaysValid(frame, source, destination, rest, size);
    assert out.Octets()[34 + |ip.options|..] == out.payload;
  }
}
