/** DNS messages as their senders write them, section 4.1 of RFC 1035, and what the admission rules read in them. */
module DnsRecords {
  import opened Bytes
  import opened DnsName
  import opened Cname
  import opened DnsMessage

  /** The header, section 4.1.1. */
  datatype Header = Header(identity: nat, response: bool, opcode: nat, authoritative: bool, truncated: bool,
                           recursionDesired: bool, recursionAvailable: bool, reserved: nat, rcode: nat,
                           questions: nat, answers: nat, authorities: nat, additionals: nat)
  {
    predicate Legal() {
      && identity < 65536 && opcode < 16 && reserved < 8 && rcode < 16
      && questions < 65536 && answers < 65536 && authorities < 65536 && additionals < 65536
    }

    function Flags(): nat {
      (if response then 32768 else 0) + 2048 * opcode + (if authoritative then 1024 else 0)
      + (if truncated then 512 else 0) + (if recursionDesired then 256 else 0) + (if recursionAvailable then 128 else 0)
      + 16 * reserved + rcode
    }

    function Octets(): bytes
      requires Legal()
    {
      Packed(identity) + Packed(Flags()) + Packed(questions) + Packed(answers) + Packed(authorities) + Packed(additionals)
    }
  }

  /** The text of a name, its labels in lower case. */
  function TextOf(w: Wire): bytes {
    Join(Labels(w))
  }

  /** A question, section 4.1.2. */
  datatype Question = Question(name: Wire, kind: nat, class': nat)

  /** The message begins with this header and this question. */
  ghost predicate Asking(message: bytes, h: Header, q: Question) {
    && h.Legal() && q.kind < 65536 && q.class' < 65536
    && |message| >= 12 && message[..12] == h.Octets()
    && Written(message, 12, q.name)
    && var at := End(12, q.name);
       at + 4 <= |message| && message[at..at + 4] == Packed(q.kind) + Packed(q.class')
  }

  lemma FlagsRead(h: Header)
    requires h.Legal()
    ensures (h.Flags() >= 32768) == h.response && h.Flags() / 2048 % 16 == h.opcode && h.Flags() % 16 == h.rcode
    ensures Bit(h.Flags(), 512) == h.truncated
  {
    var response, truncated := if h.response then 1 else 0, if h.truncated then 1 else 0;
    var authoritative := if h.authoritative then 1 else 0;
    var middle := (if h.recursionDesired then 256 else 0) + (if h.recursionAvailable then 128 else 0) + 16 * h.reserved;
    var low := middle + h.rcode;
    var high := 32 * response + 2 * h.opcode + authoritative;
    assert h.Flags() == 1024 * high + 512 * truncated + low && low < 512;
    Quotient(h.Flags(), 512, 2 * high + truncated, low);
    Quotient(2 * high + truncated, 2, high, truncated);
    Quotient(h.Flags(), 2048, 16 * response + h.opcode, 1024 * authoritative + 512 * truncated + low);
    Quotient(16 * response + h.opcode, 16, response, h.opcode);
    var sixteenths := (if h.recursionDesired then 16 else 0) + (if h.recursionAvailable then 8 else 0) + h.reserved;
    Quotient(h.Flags(), 16, 64 * high + 32 * truncated + sixteenths, h.rcode);
  }

  lemma HeaderReads(message: bytes, h: Header)
    requires h.Legal() && |message| >= 12 && message[..12] == h.Octets()
    ensures Word(message, 0) == h.identity && Word(message, 2) == h.Flags() && Word(message, 4) == h.questions
    ensures Word(message, 6) == h.answers
  {
    var head := h.Octets();
    assert forall i | 0 <= i < 12 :: message[i] == head[i];
  }

  /** A rule covers itself, and `*.base` covers everything that ends with a dot and the base. */
  ghost predicate Matched(rule: bytes, name: bytes) {
    name == rule || exists front, base :: Below(rule, name, front, base)
  }

  predicate Below(rule: bytes, name: bytes, front: bytes, base: bytes) {
    rule == [42, 46] + base && name == front + [46] + base
  }

  lemma MatchedExactly(rule: bytes, name: bytes)
    ensures Matched(rule, name) <==> name == rule || (Wildcard(rule) && EndsWith(name, rule[1..]))
  {
    if front, base :| Below(rule, name, front, base) {
      BelowEnds(rule, name, front, base);
    }
    if Wildcard(rule) && EndsWith(name, rule[1..]) {
      EndsBelow(rule, name);
    }
  }

  lemma BelowEnds(rule: bytes, name: bytes, front: bytes, base: bytes)
    requires Below(rule, name, front, base)
    ensures Wildcard(rule) && EndsWith(name, rule[1..])
  {
    var suffix: bytes := [46] + base;
    assert rule[1..] == suffix && name == front + suffix;
    assert name[|name| - |suffix|..] == suffix;
  }

  lemma EndsBelow(rule: bytes, name: bytes)
    requires Wildcard(rule) && EndsWith(name, rule[1..])
    ensures Below(rule, name, name[..|name| - |rule| + 1], rule[2..])
  {
    assert rule[1..] == [46] + rule[2..];
    assert name == name[..|name| - |rule| + 1] + rule[1..];
  }

  lemma MatchesExactly(name: bytes, rules: Rules)
    ensures Matches(name, rules) <==> exists rule | rule in rules :: Matched(rule, name)
  {
    forall rule ensures Matched(rule, name) <==> name == rule || (Wildcard(rule) && EndsWith(name, rule[1..])) {
      MatchedExactly(rule, name);
    }
  }

  /** The admission rules take exactly these messages, and read these fields in them. */
  lemma AskedExactly(message: bytes, h: Header, q: Question, response: bool, rules: Rules)
    requires Asking(message, h, q)
    ensures Asked(message, response, rules) ==
            if && Nodes(q.name) <= 128 && h.questions == 1 && h.response == response && h.opcode == 0 && h.rcode == 0
               && h.answers <= 512 && q.class' == 1 && q.kind in {1, 255}
               && exists rule | rule in rules :: Matched(rule, TextOf(q.name))
            then Some(Query(h.identity, h.truncated, h.answers, TextOf(q.name), q.kind, End(12, q.name) + 4))
            else None
  {
    hide Decoded, Matches, Matched, Header.Flags, Header.Octets, Written, Bit, Word, Nodes, Packed;
    HeaderReads(message, h);
    FlagsRead(h);
    DecodedInverts(message, 12, q.name);
    MatchesExactly(TextOf(q.name), rules);
    WordsRead(message, End(12, q.name), q.kind, q.class');
  }

  lemma WordsRead(message: bytes, at: nat, a: nat, b: nat)
    requires at + 4 <= |message| && a < 65536 && b < 65536 && message[at..at + 4] == Packed(a) + Packed(b)
    ensures Word(message, at) == a && Word(message, at + 2) == b
  {
    var four := message[at..at + 4];
    assert forall i | 0 <= i < 4 :: message[at + i] == four[i];
  }

  /** Whatever they take is such a message; octets that hold no whole header and question are nothing to them. */
  lemma AskedIsWritten(message: bytes, response: bool, rules: Rules) returns (h: Header, q: Question)
    requires Asked(message, response, rules).Some?
    ensures Asking(message, h, q)
  {
    hide Written, TextOf, Nodes, Matches, Decoded;
    var name := NameOf(message, 12);
    var at := End(12, name);
    h := HeaderOf(message);
    q := Question(name, Word(message, at), Word(message, at + 2));
    PackedWord(message, at);
    PackedWord(message, at + 2);
    hide Asked, Word, Packed, Header.Octets;
    assert message[at..at + 4] == message[at..at + 2] + message[at + 2..at + 4];
  }

  lemma HeaderOf(message: bytes) returns (h: Header)
    requires |message| >= 12
    ensures h.Legal() && message[..12] == h.Octets()
  {
    var flags := Word(message, 2);
    PackedWord(message, 0);
    PackedWord(message, 2);
    PackedWord(message, 4);
    PackedWord(message, 6);
    PackedWord(message, 8);
    PackedWord(message, 10);
    h := Header(Word(message, 0), flags / 32768 == 1, flags / 2048 % 16, flags / 1024 % 2 == 1, flags / 512 % 2 == 1,
                flags / 256 % 2 == 1, flags / 128 % 2 == 1, flags / 16 % 8, flags % 16, Word(message, 4),
                Word(message, 6), Word(message, 8), Word(message, 10));
    FlagsOf(flags, h);
    hide Word, Packed, Header.Flags;
  }

  lemma FlagsOf(flags: nat, h: Header)
    requires flags < 65536
    requires h.response == (flags / 32768 == 1) && h.opcode == flags / 2048 % 16 && h.authoritative == (flags / 1024 % 2 == 1)
    requires h.truncated == (flags / 512 % 2 == 1) && h.recursionDesired == (flags / 256 % 2 == 1)
    requires h.recursionAvailable == (flags / 128 % 2 == 1) && h.reserved == flags / 16 % 8 && h.rcode == flags % 16
    ensures h.Flags() == flags
  {
    var high, low := flags / 256, flags % 256;
    Shifted(flags);
    HighFlags(high);
    LowFlags(low);
    assert high % 2 == (if h.recursionDesired then 1 else 0) && high / 4 % 2 == (if h.authoritative then 1 else 0);
    assert high / 2 % 2 == (if h.truncated then 1 else 0);
    assert high / 128 == (if h.response then 1 else 0) && low / 128 == (if h.recursionAvailable then 1 else 0);
  }

  lemma Shifted(flags: nat)
    requires flags < 65536
    ensures var high, low := flags / 256, flags % 256;
            && high < 256 && flags == 256 * high + low
            && flags / 32768 == high / 128 && flags / 2048 == high / 8 && flags / 1024 == high / 4 && flags / 512 == high / 2
            && flags / 128 % 2 == low / 128 && flags / 16 % 8 == low / 16 % 8 && flags % 16 == low % 16
  {
    var high, low := flags / 256, flags % 256;
    assert flags / 128 == 2 * high + low / 128;
    assert flags / 16 == 16 * high + low / 16;
    Eighths(high, low / 16);
  }

  lemma Eighths(high: nat, x: nat)
    ensures (16 * high + x) % 8 == x % 8
  {
    assert 16 * high + x == 8 * (2 * high) + x;
  }

  lemma HighFlags(high: nat)
    requires high < 256
    ensures high == 128 * (high / 128) + 8 * (high / 8 % 16) + 4 * (high / 4 % 2) + 2 * (high / 2 % 2) + high % 2
  {
    var half, quarter, eighth := high / 2, high / 4, high / 8;
    assert half == 2 * quarter + half % 2;
    assert quarter == half / 2 && eighth == quarter / 2;
    assert quarter == 2 * eighth + quarter % 2;
    assert high / 128 == eighth / 16;
    assert eighth == 16 * (eighth / 16) + eighth % 16;
  }

  lemma LowFlags(low: nat)
    requires low < 256
    ensures low == 128 * (low / 128) + 16 * (low / 16 % 8) + low % 16
  {
  }

  /* Rules and names by their labels. */

  predicate Dotless(labels: seq<bytes>) {
    forall l | l in labels :: 46 !in l
  }

  /** Every label after a dot. */
  function Dotted(labels: seq<bytes>): bytes {
    if labels == [] then [] else [46] + labels[0] + Dotted(labels[1..])
  }

  lemma {:induction false} DottedJoins(labels: seq<bytes>)
    requires labels != []
    ensures Dotted(labels) == [46] + Join(labels)
  {
    if |labels| > 1 {
      DottedJoins(labels[1..]);
    } else {
      assert labels[1..] == [];
      assert [46] + labels[0] + [] == [46] + labels[0];
    }
  }

  lemma {:induction false} DottedAppends(front: seq<bytes>, base: seq<bytes>)
    ensures Dotted(front + base) == Dotted(front) + Dotted(base)
  {
    if front == [] {
      assert front + base == base;
    } else {
      assert (front + base)[1..] == front[1..] + base;
      DottedAppends(front[1..], base);
    }
  }

  function FirstDot(text: bytes): nat {
    if text == [] || text[0] == 46 then 0 else 1 + FirstDot(text[1..])
  }

  lemma {:induction false} FirstDotEnds(l: bytes, rest: bytes)
    requires 46 !in l && (rest == [] || rest[0] == 46)
    ensures FirstDot(l + rest) == |l|
  {
    if l == [] {
      assert l + rest == rest;
    } else {
      assert (l + rest)[1..] == l[1..] + rest;
      FirstDotEnds(l[1..], rest);
    }
  }

  lemma SameLabel(a: bytes, x: bytes, b: bytes, y: bytes)
    requires 46 !in a && 46 !in b && (x == [] || x[0] == 46) && (y == [] || y[0] == 46)
    requires [46] + a + x == [46] + b + y
    ensures a == b && x == y
  {
    var whole: bytes := [46] + a + x;
    assert whole[1..] == a + x && whole[1..] == b + y;
    FirstDotEnds(a, x);
    FirstDotEnds(b, y);
    assert (a + x)[..|a|] == a && (b + y)[..|b|] == b && (a + x)[|a|..] == x && (b + y)[|b|..] == y;
  }

  /** A dot after the first lies behind the label. */
  lemma DotBehind(l: bytes, rest: bytes, i: nat)
    requires 46 !in l && 0 < i < 1 + |l| + |rest| && ([46] + l + rest)[i] == 46
    ensures |l| < i
  {
    assert forall j | 1 <= j <= |l| :: ([46] + l + rest)[j] == l[j - 1] && l[j - 1] in l;
  }

  /** Dotless labels can be told from their dotted text. */
  lemma {:induction false} DottedOnce(a: seq<bytes>, b: seq<bytes>)
    requires Dotless(a) && Dotless(b) && Dotted(a) == Dotted(b)
    ensures a == b
  {
    if a != [] && b != [] {
      assert 46 !in a[0] && 46 !in b[0];
      SameLabel(a[0], Dotted(a[1..]), b[0], Dotted(b[1..]));
      DottedOnce(a[1..], b[1..]);
      assert a == [a[0]] + a[1..] && b == [b[0]] + b[1..];
    }
  }

  /** What comes behind something and begins with a dot comes behind the whole first label. */
  lemma BehindLabel(l: bytes, rest: bytes, front: bytes, tail: bytes)
    requires 46 !in l && front != [] && tail != [] && tail[0] == 46 && [46] + l + rest == front + tail
    ensures |l| < |front| && front[1 + |l|..] + tail == rest
  {
    assert (front + tail)[|front|] == 46;
    DotBehind(l, rest, |front|);
    assert (front + tail)[1 + |l|..] == front[1 + |l|..] + tail;
    assert ([46] + l + rest)[1 + |l|..] == rest;
  }

  lemma DottedStarts(labels: seq<bytes>)
    requires labels != []
    ensures Dotted(labels) != [] && Dotted(labels)[0] == 46
  {
  }

  lemma DottedFirst(labels: seq<bytes>)
    requires Dotted(labels) != []
    ensures labels != [] && Dotted(labels) == [46] + labels[0] + Dotted(labels[1..])
  {
  }

  /** A dotted suffix of a dotted name is a suffix of its labels. */
  lemma {:induction false} SuffixOfLabels(labels: seq<bytes>, base: seq<bytes>, front: bytes)
    requires Dotless(labels) && Dotless(base) && base != [] && Dotted(labels) == front + Dotted(base)
    ensures |base| <= |labels| && labels[|labels| - |base|..] == base
    ensures front != [] ==> |base| < |labels|
    decreases |labels|
  {
    hide Dotted;
    if front == [] {
      assert front + Dotted(base) == Dotted(base);
      DottedOnce(labels, base);
    } else {
      DottedStarts(base);
      DottedFirst(labels);
      assert labels[0] in labels;
      BehindLabel(labels[0], Dotted(labels[1..]), front, Dotted(base));
      SuffixOfLabels(labels[1..], base, front[1 + |labels[0]|..]);
      assert labels[1..][|labels| - 1 - |base|..] == labels[|labels| - |base|..];
    }
  }

  lemma CoveredIsBelow(labels: seq<bytes>, base: seq<bytes>)
    requires Dotless(labels) && Dotless(base) && base != [] && labels != []
    requires Matched([42, 46] + Join(base), Join(labels))
    ensures |base| < |labels| && labels[|labels| - |base|..] == base
  {
    hide Join, Dotted, Dotless;
    DottedJoins(base);
    DottedJoins(labels);
    var front := CoveredFront(Join(base), Join(labels));
    assert [46] + Join(labels) == [46] + front + ([46] + Join(base));
    SuffixOfLabels(labels, base, [46] + front);
  }

  lemma CoveredFront(base: bytes, name: bytes) returns (front: bytes)
    requires Matched([42, 46] + base, name)
    ensures name == front + [46] + base
  {
    if name == [42, 46] + base {
      front := [42];
    } else {
      var b;
      front, b :| Below([42, 46] + base, name, front, b);
      assert ([42, 46] + base)[2..] == base && ([42, 46] + b)[2..] == b;
    }
  }

  lemma BelowIsCovered(front: seq<bytes>, base: seq<bytes>)
    requires front != [] && base != []
    ensures Matched([42, 46] + Join(base), Join(front + base))
  {
    hide Join, Dotted;
    DottedAppends(front, base);
    DottedJoins(front + base);
    DottedJoins(front);
    DottedJoins(base);
    var name: bytes := Join(front) + [46] + Join(base);
    assert [46] + Join(front + base) == [46] + name;
    assert Join(front + base) == ([46] + Join(front + base))[1..] == ([46] + name)[1..] == name;
    assert Below([42, 46] + Join(base), name, Join(front), Join(base));
  }

  /** A wildcard covers exactly the names with more labels than its base that end in the base's labels. */
  lemma WildcardCoversSubdomains(labels: seq<bytes>, base: seq<bytes>)
    requires Dotless(labels) && Dotless(base) && base != []
    ensures Matched([42, 46] + Join(base), Join(labels)) <==>
              |base| < |labels| && labels[|labels| - |base|..] == base
  {
    hide Dotless;
    if labels != [] && Matched([42, 46] + Join(base), Join(labels)) {
      CoveredIsBelow(labels, base);
    }
    if |base| < |labels| && labels[|labels| - |base|..] == base {
      var front := labels[..|labels| - |base|];
      assert labels == front + base;
      BelowIsCovered(front, base);
    }
  }

  /* Resource records, section 4.1.3. */

  /** A record; for a CNAME, `target` is the name its data spell. */
  datatype Resource = Resource(owner: Wire, kind: nat, class': nat, ttl: nat, data: bytes, target: Wire)
  {
    predicate IsAlias() { class' == 1 && kind == 5 }

    predicate IsAddress() { class' == 1 && kind == 1 && |data| == 4 }
  }

  /** The offset after the record. */
  function After(at: nat, r: Resource): nat {
    End(at, r.owner) + 10 + |r.data|
  }

  /** The record stands at an offset of the message; a reader of 128 steps follows its names. */
  ghost predicate Stands(message: bytes, at: nat, r: Resource) {
    && r.kind < 65536 && r.class' < 65536 && r.ttl < 0x1_0000_0000 && |r.data| < 65536
    && Written(message, at, r.owner) && Nodes(r.owner) <= 128
    && After(at, r) <= |message|
    && message[End(at, r.owner)..After(at, r)]
       == Packed(r.kind) + Packed(r.class') + PackedLong(r.ttl) + Packed(|r.data|) + r.data
    && (r.IsAlias() ==> Written(message, End(at, r.owner) + 10, r.target) && Nodes(r.target) <= 128)
  }

  ghost predicate AllStand(message: bytes, at: nat, rs: seq<Resource>)
    decreases |rs|
  {
    rs == [] || (Stands(message, at, rs[0]) && AllStand(message, After(at, rs[0]), rs[1..]))
  }

  /** An alias from owner to target for every CNAME, an address for every A record of four octets, else nothing. */
  function Said(r: Resource): seq<Answer> {
    if r.IsAlias() then [Alias(TextOf(r.owner), r.ttl, TextOf(r.target))]
    else if r.IsAddress() then [Address(TextOf(r.owner), r.ttl, r.data)]
    else []
  }

  function AllSaid(rs: seq<Resource>): seq<Answer> {
    if rs == [] then [] else Said(rs[0]) + AllSaid(rs[1..])
  }

  lemma FieldsRead(message: bytes, at: nat, r: Resource)
    requires r.kind < 65536 && r.class' < 65536 && r.ttl < 0x1_0000_0000 && |r.data| < 65536
    requires at + 10 + |r.data| <= |message|
    requires message[at..at + 10 + |r.data|] == Packed(r.kind) + Packed(r.class') + PackedLong(r.ttl) + Packed(|r.data|) + r.data
    ensures Word(message, at) == r.kind && Word(message, at + 2) == r.class' && Long(message, at + 4) == r.ttl
    ensures Word(message, at + 8) == |r.data| && message[at + 10..at + 10 + |r.data|] == r.data
  {
    var fields := message[at..at + 10 + |r.data|];
    assert forall i | 0 <= i < |fields| :: message[at + i] == fields[i];
    assert fields[10..] == r.data;
    assert message[at + 10..at + 10 + |r.data|] == fields[10..];
  }

  lemma RecordIsRead(message: bytes, at: nat, r: Resource)
    requires Stands(message, at, r)
    ensures AnswerAt(message, at) == Some((Said(r), After(at, r)))
  {
    hide Decoded, Written, Word, Long, Nodes, Packed, PackedLong;
    DecodedInverts(message, at, r.owner);
    FieldsRead(message, End(at, r.owner), r);
    if r.IsAlias() {
      DecodedInverts(message, End(at, r.owner) + 10, r.target);
    }
  }

  /** Reading records in a row yields exactly what they say, in their order. */
  lemma {:induction false} RecordsAreRead(message: bytes, at: nat, rs: seq<Resource>)
    requires AllStand(message, at, rs)
    ensures Answers(message, at, |rs|) == Some(AllSaid(rs))
    decreases |rs|
  {
    hide Stands, AnswerAt;
    if rs != [] {
      RecordIsRead(message, at, rs[0]);
      RecordsAreRead(message, After(at, rs[0]), rs[1..]);
    }
  }

  lemma NameOf(message: bytes, at: nat) returns (w: Wire)
    requires Decoded(message, at).Some?
    ensures Written(message, at, w) && Nodes(w) <= 128 && Decoded(message, at) == Some(Name(TextOf(w), End(at, w)))
  {
    w :| Written(message, at, w) && Nodes(w) <= 128;
    DecodedInverts(message, at, w);
  }

  lemma AnswerParts(message: bytes, at: nat)
    requires AnswerAt(message, at).Some?
    ensures Decoded(message, at).Some?
    ensures var body := Decoded(message, at).value.next + 10;
            && body <= |message| && body + Word(message, body - 2) <= |message|
            && (Word(message, body - 8) == 1 && Word(message, body - 10) == 5 ==> Decoded(message, body).Some?)
  {
    hide Decoded, Word, Long;
  }

  lemma RecordOf(message: bytes, at: nat) returns (r: Resource)
    requires AnswerAt(message, at).Some?
    ensures Stands(message, at, r)
  {
    hide Decoded, Written, TextOf, Long, Nodes, Word, AnswerAt;
    AnswerParts(message, at);
    var owner := NameOf(message, at);
    var body := End(at, owner) + 10;
    var kind, class', ttl, size := Word(message, body - 10), Word(message, body - 8), Long(message, body - 6), Word(message, body - 2);
    var target := Root;
    if class' == 1 && kind == 5 {
      target := NameOf(message, body);
    }
    r := Resource(owner, kind, class', ttl, message[body..body + size], target);
    FieldsWritten(message, body - 10, size);
  }

  lemma FieldsWritten(message: bytes, at: nat, size: nat)
    requires at + 10 + size <= |message| && Word(message, at + 8) == size
    ensures Long(message, at + 4) < 0x1_0000_0000 && Word(message, at) < 65536 && Word(message, at + 2) < 65536 && size < 65536
    ensures message[at..at + 10 + size] ==
            Packed(Word(message, at)) + Packed(Word(message, at + 2)) + PackedLong(Long(message, at + 4)) + Packed(size)
            + message[at + 10..at + 10 + size]
  {
    PackedWord(message, at);
    PackedWord(message, at + 2);
    LongPacked(message, at + 4);
    PackedWord(message, at + 8);
    hide Word, Long, Packed, PackedLong;
  }

  /** A response is refused exactly when its octets are not the records it announces. */
  lemma {:induction false} RefusedExactly(message: bytes, at: nat, count: nat)
    ensures Answers(message, at, count).Some? <==> exists rs :: |rs| == count && AllStand(message, at, rs)
    decreases count
  {
    hide Stands, AnswerAt;
    if rs :| |rs| == count && AllStand(message, at, rs) {
      RecordsAreRead(message, at, rs);
    }
    if Answers(message, at, count).Some? {
      var rs := RecordsOf(message, at, count);
    }
  }

  lemma {:induction false} RecordsOf(message: bytes, at: nat, count: nat) returns (rs: seq<Resource>)
    requires Answers(message, at, count).Some?
    ensures |rs| == count && AllStand(message, at, rs)
    decreases count
  {
    hide Stands, AnswerAt;
    if count == 0 {
      rs := [];
    } else {
      var r := RecordOf(message, at);
      RecordIsRead(message, at, r);
      var rest := RecordsOf(message, After(at, r), count - 1);
      rs := [r] + rest;
    }
  }
}
