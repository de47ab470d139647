/** DNS messages as the admission rules read them, section 4.1 of RFC 1035. */
module DnsMessage {
  import opened Bytes
  import opened DnsName
  import opened Cname

  const MAX_ANSWERS := 512
  const INTERNET := 1
  const A := 1
  const CNAME := 5
  const ANY := 255

  type Rules = seq<bytes>

  predicate EndsWith(name: bytes, suffix: bytes) {
    |suffix| <= |name| && name[|name| - |suffix|..] == suffix
  }

  /** An exact rule, or a rule `*.suffix` for every name that ends with the dot and the suffix. */
  predicate Matches(name: bytes, rules: Rules) {
    exists rule | rule in rules :: name == rule || (Wildcard(rule) && EndsWith(name, rule[1..]))
  }

  predicate Wildcard(rule: bytes) {
    |rule| >= 2 && rule[0] == 42 && rule[1] == DOT
  }

  datatype Query = Query(identity: nat, truncated: bool, count: nat, name: bytes, kind: nat, next: nat)

  /** The header part: one question, the expected direction, a plain query, no error, at most 512 answers. */
  predicate Acceptable(data: bytes, response: bool) {
    && |data| >= 12
    && Word(data, 4) == 1
    && (Word(data, 2) >= 32768) == response
    && Word(data, 2) / 2048 % 16 == 0 && Word(data, 2) % 16 == 0
    && Word(data, 6) <= MAX_ANSWERS
  }

  /** The question a message asks or repeats, when a rule covers it. */
  ghost function Asked(data: bytes, response: bool, rules: Rules): Option<Query> {
    if !Acceptable(data, response) then None
    else
      match Decoded(data, 12)
      case None => None
      case Some(Name(name, at)) =>
        if at + 4 > |data| then None
        else if Word(data, at + 2) != INTERNET || Word(data, at) !in {A, ANY} || !Matches(name, rules) then None
        else Some(Query(Word(data, 0), Bit(Word(data, 2), 512), Word(data, 6), name, Word(data, at), at + 4))
  }

  method Ask(data: bytes, response: bool, rules: Rules) returns (q: Option<Query>)
    ensures q == Asked(data, response, rules)
  {
    if |data| < 12 {
      return None;
    }
    var identity, flags, questions, count := Word(data, 0), Word(data, 2), Word(data, 4), Word(data, 6);
    if questions != 1 || (flags >= 32768) != response || flags / 2048 % 16 != 0 || flags % 16 != 0
       || count > MAX_ANSWERS {
      return None;
    }
    var decoded := Decode(data, 12);
    if decoded.None? || decoded.value.next + 4 > |data| {
      return None;
    }
    var Name(name, offset) := decoded.value;
    var kind, klass := Word(data, offset), Word(data, offset + 2);
    if klass != INTERNET || kind !in {A, ANY} || !Matches(name, rules) {
      return None;
    }
    return Some(Query(identity, Bit(flags, 512), count, name, kind, offset + 4));
  }

  /** One resource record: what it contributes, at most one answer, and the offset after it. */
  ghost function AnswerAt(data: bytes, offset: nat): Option<(seq<Answer>, nat)> {
    match Decoded(data, offset)
    case None => None
    case Some(Name(owner, at)) =>
      if at + 10 > |data| || at + 10 + Word(data, at + 8) > |data| then None
      else
        var kind, klass, ttl, size, body := Word(data, at), Word(data, at + 2), Long(data, at + 4), Word(data, at + 8), at + 10;
        if klass == INTERNET && kind == CNAME then
          match Decoded(data, body)
          case None => None
          case Some(target) => Some(([Alias(owner, ttl, target.text)], body + size))
        else if klass == INTERNET && kind == A && size == 4 then
          Some(([Address(owner, ttl, data[body..body + 4])], body + size))
        else Some(([], body + size))
  }

  ghost function Answers(data: bytes, offset: nat, count: nat): Option<seq<Answer>>
    decreases count
  {
    if count == 0 then Some([])
    else
      match AnswerAt(data, offset)
      case None => None
      case Some((first, next)) =>
        match Answers(data, next, count - 1)
        case None => None
        case Some(rest) => Some(first + rest)
  }

  lemma {:induction false} AnswersCount(data: bytes, offset: nat, count: nat)
    ensures Answers(data, offset, count).Some? ==> |Answers(data, offset, count).value| <= count
    decreases count
  {
    if count > 0 && AnswerAt(data, offset).Some? {
      AnswersCount(data, AnswerAt(data, offset).value.1, count - 1);
    }
  }

  method ReadAnswer(data: bytes, start: nat) returns (r: Option<(seq<Answer>, nat)>)
    ensures r == AnswerAt(data, start)
  {
    hide Decoded;
    var decoded := Decode(data, start);
    if decoded.None? || decoded.value.next + 10 > |data| {
      return None;
    }
    var Name(owner, offset) := decoded.value;
    var kind, klass, ttl, size := Word(data, offset), Word(data, offset + 2), Long(data, offset + 4), Word(data, offset + 8);
    offset := offset + 10;
    if offset + size > |data| {
      return None;
    }
    if klass == INTERNET && kind == CNAME {
      var target := Decode(data, offset);
      if target.None? {
        return None;
      }
      return Some(([Alias(owner, ttl, target.value.text)], offset + size));
    }
    if klass == INTERNET && kind == A && size == 4 {
      return Some(([Address(owner, ttl, data[offset..offset + 4])], offset + size));
    }
    return Some(([], offset + size));
  }

  method ReadAnswers(data: bytes, start: nat, count: nat) returns (r: Option<seq<Answer>>)
    ensures r == Answers(data, start, count)
  {
    hide AnswerAt;
    var records: seq<Answer>, offset := [], start;
    ghost var whole := Answers(data, start, count);
    assert whole.Some? ==> records + whole.value == whole.value;
    for i := 0 to count
      invariant whole ==
                match Answers(data, offset, count - i)
                case None => None
                case Some(rest) => Some(records + rest)
    {
      var answer := ReadAnswer(data, offset);
      if answer.None? {
        return None;
      }
      ghost var rest := Answers(data, answer.value.1, count - i - 1);
      if rest.Some? {
        assert records + answer.value.0 + rest.value == records + (answer.value.0 + rest.value);
      }
      records := records + answer.value.0;
      offset := answer.value.1;
    }
    assert records + [] == records;
    return Some(records);
  }
}
