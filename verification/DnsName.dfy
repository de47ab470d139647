/** Domain names on the wire, section 4.1.4 of RFC 1035. */
module DnsName {
  import opened Bytes

  const MAX_STEPS := 128
  const DOT: byte := 46

  /** A decoded name, and the offset of the first octet after its in-place part. */
  datatype Name = Name(text: bytes, next: nat)

  /** The octets a name occupies: labels, then the root octet or a pointer to the rest. */
  datatype Wire =
    | Root
    | Label(text: bytes, rest: Wire)
    | Jump(target: nat, there: Wire)

  predicate Ascii(text: bytes) {
    forall i | 0 <= i < |text| :: text[i] < 128
  }

  ghost predicate Written(data: bytes, offset: nat, w: Wire)
    decreases w
  {
    match w
    case Root =>
      offset < |data| && data[offset] == 0
    case Label(l, rest) =>
      && 1 <= |l| <= 63 && Ascii(l)
      && offset + 1 + |l| <= |data|
      && data[offset] == |l| && data[offset + 1..offset + 1 + |l|] == l
      && Written(data, offset + 1 + |l|, rest)
    case Jump(t, there) =>
      && t < 16384 && offset + 2 <= |data|
      && data[offset] == 192 + t / 256 && data[offset + 1] == t % 256
      && Written(data, t, there)
  }

  function Lower(text: bytes): bytes {
    if text == [] then [] else [if 65 <= text[0] <= 90 then text[0] + 32 else text[0]] + Lower(text[1..])
  }

  /** Capital letters become small ones; every other octet stays. */
  lemma {:induction false} LowerAt(text: bytes, i: nat)
    requires i < |text|
    ensures |Lower(text)| == |text|
    ensures Lower(text)[i] == if 'A' as int <= text[i] <= 'Z' as int then text[i] + ('a' as int - 'A' as int) else text[i]
  {
    if i > 0 {
      LowerAt(text[1..], i - 1);
    } else if |text| > 1 {
      LowerAt(text[1..], 0);
    }
  }

  function Labels(w: Wire): seq<bytes> {
    match w
    case Root => []
    case Label(l, rest) => [Lower(l)] + Labels(rest)
    case Jump(_, there) => Labels(there)
  }

  /** How many length octets and pointers a reader meets. */
  function Nodes(w: Wire): nat {
    match w
    case Root => 1
    case Label(_, rest) => 1 + Nodes(rest)
    case Jump(_, there) => 1 + Nodes(there)
  }

  /** The end of the in-place part, however many pointers come after it. */
  function End(offset: nat, w: Wire): nat
    decreases w
  {
    match w
    case Root => offset + 1
    case Label(l, rest) => End(offset + 1 + |l|, rest)
    case Jump(_, _) => offset + 2
  }

  function Join(labels: seq<bytes>): bytes {
    if |labels| == 0 then []
    else if |labels| == 1 then labels[0]
    else labels[0] + [DOT] + Join(labels[1..])
  }

  function Meaning(offset: nat, w: Wire): Name {
    Name(Join(Labels(w)), End(offset, w))
  }

  /** What a reader limited to 128 steps makes of the name at an offset. */
  ghost function Decoded(data: bytes, offset: nat): Option<Name> {
    if exists w :: Written(data, offset, w) && Nodes(w) <= MAX_STEPS then
      var w :| Written(data, offset, w) && Nodes(w) <= MAX_STEPS;
      Some(Meaning(offset, w))
    else
      None
  }

  /** One offset spells at most one wire form, so pointers cannot make it ambiguous. */
  lemma {:induction false} WrittenOnce(data: bytes, offset: nat, v: Wire, w: Wire)
    requires Written(data, offset, v) && Written(data, offset, w)
    ensures v == w
    decreases v
  {
    match v {
      case Root =>
      case Label(l, rest) => WrittenOnce(data, offset + 1 + |l|, rest, w.rest);
      case Jump(t, there) =>
        assert t / 256 == w.target / 256 && t % 256 == w.target % 256;
        WrittenOnce(data, t, there, w.there);
    }
  }

  /** The decoder inverts the encoding exactly up to its step limit. */
  lemma DecodedInverts(data: bytes, offset: nat, w: Wire)
    requires Written(data, offset, w)
    ensures Decoded(data, offset) == if Nodes(w) <= MAX_STEPS then Some(Meaning(offset, w)) else None
  {
    forall v | Written(data, offset, v) ensures v == w {
      WrittenOnce(data, offset, v, w);
    }
  }

  /** What stands at one offset: nothing readable, the end, or a label or a pointer leading to another offset. */
  datatype Node = Bad | Stop | Text(label': bytes, next: nat) | Pointer(target: nat)

  function NodeAt(data: bytes, offset: nat): Node {
    if offset >= |data| then Bad
    else if data[offset] >= 192 then
      if offset + 1 >= |data| then Bad else Pointer(data[offset] as int % 64 * 256 + data[offset + 1] as int)
    else
      var next := offset + 1 + data[offset] as int;
      if data[offset] >= 64 || next > |data| || !Ascii(data[offset + 1..next]) then Bad
      else if data[offset] > 0 then Text(data[offset + 1..next], next)
      else Stop
  }

  lemma WrittenAt(data: bytes, offset: nat, w: Wire)
    ensures Written(data, offset, w) <==>
            match w
            case Root => NodeAt(data, offset) == Stop
            case Label(l, rest) => NodeAt(data, offset) == Text(l, offset + 1 + |l|) && Written(data, offset + 1 + |l|, rest)
            case Jump(t, there) => NodeAt(data, offset) == Pointer(t) && Written(data, t, there)
  {
    if w.Jump? && offset + 2 <= |data| && w.target < 16384 && data[offset] >= 192 {
      var t := data[offset] as int % 64 * 256 + data[offset + 1] as int;
      assert t / 256 == data[offset] - 192 && t % 256 == data[offset + 1];
    }
  }

  /**
   * What a reader that has met the offsets in `seen` and may meet `left` more makes of the octets: the labels, and the
   * end of the in-place part.
   */
  function Remaining(data: bytes, offset: nat, seen: set<nat>, left: nat): Option<(seq<bytes>, nat)>
    decreases left
  {
    if offset in seen || left == 0 then None
    else
      match NodeAt(data, offset)
      case Bad => None
      case Stop => Some(([], offset + 1))
      case Text(l, next) =>
        (match Remaining(data, next, seen + {offset}, left - 1)
         case None => None
         case Some((labels, end)) => Some(([Lower(l)] + labels, end)))
      case Pointer(target) =>
        match Remaining(data, target, seen + {offset}, left - 1)
        case None => None
        case Some((labels, _)) => Some((labels, offset + 2))
  }

  /** The offsets a reader visits. */
  ghost function Visits(offset: nat, w: Wire): set<nat>
    decreases w
  {
    {offset} + match w
               case Root => {}
               case Label(text, rest) => Visits(offset + 1 + |text|, rest)
               case Jump(target, there) => Visits(target, there)
  }

  lemma {:induction false} FormAt(data: bytes, offset: nat, w: Wire, s: nat) returns (v: Wire)
    requires Written(data, offset, w) && s in Visits(offset, w)
    ensures Written(data, s, v) && Nodes(v) <= Nodes(w)
    decreases w
  {
    if s == offset {
      v := w;
    } else {
      match w
      case Label(text, rest) => v := FormAt(data, offset + 1 + |text|, rest, s);
      case Jump(target, there) => v := FormAt(data, target, there, s);
    }
  }

  /** A reader that starts at `offset` meets none of the offsets in `seen`. */
  ghost predicate Unseen(seen: set<nat>, offset: nat, w: Wire) {
    seen !! Visits(offset, w)
  }

  /** On the way to a root no offset is met twice: the form read there would contain itself. */
  lemma NeverReturns(data: bytes, offset: nat, w: Wire, seen: set<nat>)
    requires Written(data, offset, w) && Unseen(seen, offset, w)
    ensures offset !in seen
    ensures w.Label? ==> Unseen(seen + {offset}, offset + 1 + |w.text|, w.rest)
    ensures w.Jump? ==> Unseen(seen + {offset}, w.target, w.there)
  {
    assert offset in Visits(offset, w);
    if w.Label? && offset in Visits(offset + 1 + |w.text|, w.rest) {
      var v := FormAt(data, offset + 1 + |w.text|, w.rest, offset);
      WrittenOnce(data, offset, v, w);
    }
    if w.Jump? && offset in Visits(w.target, w.there) {
      var v := FormAt(data, w.target, w.there, offset);
      WrittenOnce(data, offset, v, w);
    }
  }

  lemma RemainingAtStop(data: bytes, offset: nat, seen: set<nat>, left: nat)
    requires offset !in seen && left > 0 && NodeAt(data, offset) == Stop
    ensures Remaining(data, offset, seen, left) == Some(([], offset + 1))
  {
    hide NodeAt;
  }

  lemma RemainingAtText(data: bytes, offset: nat, seen: set<nat>, left: nat, l: bytes, next: nat)
    requires offset !in seen && left > 0 && NodeAt(data, offset) == Text(l, next)
    ensures Remaining(data, offset, seen, left) ==
            match Remaining(data, next, seen + {offset}, left - 1)
            case None => None
            case Some((labels, end)) => Some(([Lower(l)] + labels, end))
  {
    hide NodeAt, Lower;
  }

  lemma RemainingAtPointer(data: bytes, offset: nat, seen: set<nat>, left: nat, target: nat)
    requires offset !in seen && left > 0 && NodeAt(data, offset) == Pointer(target)
    ensures Remaining(data, offset, seen, left) ==
            match Remaining(data, target, seen + {offset}, left - 1)
            case None => None
            case Some((labels, _)) => Some((labels, offset + 2))
  {
    hide NodeAt, Lower;
  }

  /** What a reader with `left` steps should make of a wire form. */
  function Reading(offset: nat, w: Wire, left: nat): Option<(seq<bytes>, nat)> {
    if Nodes(w) <= left then Some((Labels(w), End(offset, w))) else None
  }

  lemma ReadingLabel(offset: nat, text: bytes, rest: Wire, left: nat)
    requires left > 0
    ensures Reading(offset, Label(text, rest), left) ==
            match Reading(offset + 1 + |text|, rest, left - 1)
            case None => None
            case Some((labels, end)) => Some(([Lower(text)] + labels, end))
  {
    var w := Label(text, rest);
    assert Nodes(w) == 1 + Nodes(rest);
    assert Labels(w) == [Lower(text)] + Labels(rest);
    assert End(offset, w) == End(offset + 1 + |text|, rest);
    hide Lower, Nodes, Labels, End;
  }

  lemma ReadingJump(offset: nat, target: nat, there: Wire, left: nat)
    requires left > 0
    ensures Reading(offset, Jump(target, there), left) ==
            match Reading(target, there, left - 1)
            case None => None
            case Some((labels, _)) => Some((labels, offset + 2))
  {
    var w := Jump(target, there);
    assert Nodes(w) == 1 + Nodes(there) && Labels(w) == Labels(there) && End(offset, w) == offset + 2;
    hide Lower, Nodes, Labels, End;
  }

  lemma ReadingEnds(offset: nat, w: Wire, left: nat)
    ensures left == 0 ==> Reading(offset, w, left) == None
    ensures left > 0 && w.Root? ==> Reading(offset, w, left) == Some(([], offset + 1))
  {
  }

  lemma ReadsText(data: bytes, offset: nat, seen: set<nat>, left: nat, text: bytes, rest: Wire)
    requires Written(data, offset, Label(text, rest)) && offset !in seen && left > 0
    requires var next := offset + 1 + |text|;
             Remaining(data, next, seen + {offset}, left - 1) == Reading(next, rest, left - 1)
    ensures Remaining(data, offset, seen, left) == Reading(offset, Label(text, rest), left)
  {
    WrittenAt(data, offset, Label(text, rest));
    hide NodeAt, Remaining, Reading, Lower, Written;
    RemainingAtText(data, offset, seen, left, text, offset + 1 + |text|);
    ReadingLabel(offset, text, rest, left);
  }

  lemma ReadsPointer(data: bytes, offset: nat, seen: set<nat>, left: nat, target: nat, there: Wire)
    requires Written(data, offset, Jump(target, there)) && offset !in seen && left > 0
    requires Remaining(data, target, seen + {offset}, left - 1) == Reading(target, there, left - 1)
    ensures Remaining(data, offset, seen, left) == Reading(offset, Jump(target, there), left)
  {
    WrittenAt(data, offset, Jump(target, there));
    hide NodeAt, Remaining, Reading, Lower, Written;
    RemainingAtPointer(data, offset, seen, left, target);
    ReadingJump(offset, target, there, left);
  }

  lemma ReadsStop(data: bytes, offset: nat, seen: set<nat>, left: nat)
    requires Written(data, offset, Root) && offset !in seen && left > 0
    ensures Remaining(data, offset, seen, left) == Reading(offset, Root, left)
  {
    WrittenAt(data, offset, Root);
    RemainingAtStop(data, offset, seen, left);
    ReadingEnds(offset, Root, left);
  }

  /** So the check for repeated offsets rejects no name that the step limit allows. */
  lemma {:induction false} RemainingReads(data: bytes, offset: nat, seen: set<nat>, left: nat, w: Wire)
    requires Written(data, offset, w) && Unseen(seen, offset, w)
    ensures Remaining(data, offset, seen, left) == Reading(offset, w, left)
    decreases w
  {
    hide NodeAt, Unseen, Reading;
    if left == 0 {
      ReadingEnds(offset, w, left);
    } else {
      hide Remaining;
      NeverReturns(data, offset, w, seen);
      match w {
        case Root => ReadsStop(data, offset, seen, left);
        case Label(text, rest) =>
          RemainingReads(data, offset + 1 + |text|, seen + {offset}, left - 1, rest);
          ReadsText(data, offset, seen, left, text, rest);
        case Jump(target, there) =>
          RemainingReads(data, target, seen + {offset}, left - 1, there);
          ReadsPointer(data, offset, seen, left, target, there);
      }
    }
  }

  lemma {:induction false} RemainingRejects(data: bytes, offset: nat, seen: set<nat>, left: nat)
    requires forall w :: !Written(data, offset, w)
    ensures Remaining(data, offset, seen, left) == None
    decreases left
  {
    WrittenAt(data, offset, Root);
    hide Lower;
    if left > 0 {
      match NodeAt(data, offset) {
        case Bad =>
        case Stop =>
        case Text(l, next) =>
          forall w ensures !Written(data, next, w) {
            WrittenAt(data, offset, Label(l, w));
          }
          RemainingRejects(data, next, seen + {offset}, left - 1);
        case Pointer(target) =>
          forall w ensures !Written(data, target, w) {
            WrittenAt(data, offset, Jump(target, w));
          }
          RemainingRejects(data, target, seen + {offset}, left - 1);
      }
    }
  }

  /** The name a reader ends up with, from the labels and the pointer end it holds and what remains. */
  function Outcome(labels: seq<bytes>, following: Option<nat>, remaining: Option<(seq<bytes>, nat)>): Option<Name> {
    if remaining.None? then None
    else Some(Name(Join(labels + remaining.value.0), if following.Some? then following.value else remaining.value.1))
  }

  lemma RemainingDecodes(data: bytes, start: nat)
    ensures Outcome([], None, Remaining(data, start, {}, MAX_STEPS)) == Decoded(data, start)
  {
    if w :| Written(data, start, w) {
      DecodedInverts(data, start, w);
      RemainingReads(data, start, {}, MAX_STEPS, w);
      assert [] + Labels(w) == Labels(w);
    } else {
      RemainingRejects(data, start, {}, MAX_STEPS);
    }
  }

  lemma OutcomeStep(data: bytes, offset: nat, seen: set<nat>, left: nat, labels: seq<bytes>, following: Option<nat>)
    ensures Outcome(labels, following, Remaining(data, offset, seen, left)) ==
            if offset in seen || left == 0 then None else
            match NodeAt(data, offset)
            case Bad => None
            case Stop => Some(Name(Join(labels), if following.Some? then following.value else offset + 1))
            case Text(l, next) =>
              Outcome(labels + [Lower(l)], following, Remaining(data, next, seen + {offset}, left - 1))
            case Pointer(target) =>
              Outcome(labels, if following.Some? then following else Some(offset + 2),
                      Remaining(data, target, seen + {offset}, left - 1))
  {
    hide NodeAt, Join;
    assert labels + [] == labels;
    if offset !in seen && left > 0 && NodeAt(data, offset).Text? {
      var Text(l, next) := NodeAt(data, offset);
      var r := Remaining(data, next, seen + {offset}, left - 1);
      if r.Some? {
        assert labels + [Lower(l)] + r.value.0 == labels + ([Lower(l)] + r.value.0);
      }
    }
  }

  /** Terminates on every octet string and every offset, and reads exactly the names of at most 128 steps. */
  method Decode(data: bytes, start: nat) returns (r: Option<Name>)
    ensures r == Decoded(data, start)
  {
    hide Remaining, Outcome, Decoded;
    RemainingDecodes(data, start);
    ghost var answer, left: nat := Decoded(data, start), MAX_STEPS;
    var labels: seq<bytes>, following: Option<nat>, seen: set<nat>, offset: nat := [], None, {}, start;
    while true
      invariant |seen| + left == MAX_STEPS
      invariant Outcome(labels, following, Remaining(data, offset, seen, left)) == answer
      decreases left
    {
      OutcomeStep(data, offset, seen, left, labels, following);
      if offset in seen || offset >= |data| || |seen| >= MAX_STEPS {
        return None;
      }
      seen, left := seen + {offset}, left - 1;
      var size := data[offset] as int;
      offset := offset + 1;
      if size >= 192 {
        if offset >= |data| {
          return None;
        }
        following := if following.Some? then following else Some(offset + 1);
        offset := size % 64 * 256 + data[offset] as int;
      } else if size >= 64 || offset + size > |data| {
        return None;
      } else if size > 0 {
        var text := data[offset..offset + size];
        if !Ascii(text) {
          return None;
        }
        labels := labels + [Lower(text)];
        offset := offset + size;
      } else {
        return Some(Name(Join(labels), if following.Some? then following.value else offset));
      }
    }
    assert false;
  }
}
