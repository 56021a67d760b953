/** The two scans the response cache makes over DNS messages (RFC 1035, section 4.1): the type asked for
    in a query, and the shortest time to live in a response. On every well-formed message they find
    exactly what was encoded, whether names are spelled out, compressed or both. */
module DnsMessage {
  import opened Basics

  const TTL_MIN := 30.0
  const TTL_MAX := 3600.0
  const NEGATIVE_TTL := 60.0

  // ---- the scans -----------------------------------------------------------------------------

  /** Past a name: labels up to a zero byte or a pointer. A length of 64 or more has one of its two top
      bits set, which is how the source tells a pointer. */
  function SkipName(b: Bytes, off: nat): (r: nat)
    ensures r >= off
    decreases Max(0, |b| - off)
  {
    if off >= |b| then off
    else
      var n := b[off] as int;
      if n == 0 then off + 1 else if n >= 64 then off + 2 else SkipName(b, off + 1 + n)
  }

  /** Past the questions, or None if the message ends first. */
  function SkipQuestions(b: Bytes, off: nat, count: nat): Option<nat>
    decreases count
  {
    if count == 0 then Some(off)
    else
      var next := SkipName(b, off) + 4;
      if next > |b| then None else SkipQuestions(b, next, count - 1)
  }

  /** The times to live of the answers, or None if the message ends first. */
  function AnswerTtls(b: Bytes, off: nat, count: nat): Option<seq<nat>>
    decreases count
  {
    if count == 0 then Some([])
    else if off >= |b| then None
    else
      var fixed := SkipName(b, off);
      if fixed + 10 > |b| then None
      else
        match AnswerTtls(b, fixed + 10 + U16At(b, fixed + 8), count - 1)
        case None => None
        case Some(ttls) => Some([U32At(b, fixed + 4)] + ttls)
  }

  function Least(ttls: seq<nat>): (m: nat)
    requires ttls != []
    ensures m in ttls && forall i :: 0 <= i < |ttls| ==> m <= ttls[i]
  {
    if |ttls| == 1 then ttls[0] else var m := Least(ttls[1..]); if ttls[0] <= m then ttls[0] else m
  }

  function Clamp(ttl: nat): real {
    if ttl as real <= TTL_MIN then TTL_MIN else if ttl as real >= TTL_MAX then TTL_MAX else ttl as real
  }

  /** How long a response may be kept; zero for one that is broken. */
  function TtlOf(b: Bytes): real {
    if |b| < 12 then 0.0
    else
      match SkipQuestions(b, 12, U16At(b, 4))
      case None => 0.0
      case Some(off) =>
        if U16At(b, 6) == 0 then NEGATIVE_TTL
        else
          match AnswerTtls(b, off, U16At(b, 6))
          case None => 0.0
          case Some(ttls) => if ttls == [] then NEGATIVE_TTL else Clamp(Least(ttls))
  }

  /** Past a question's name, where a pointer has no business: None there. */
  function PlainName(b: Bytes, off: nat): Option<nat>
    decreases Max(0, |b| - off)
  {
    if off >= |b| then Some(off)
    else
      var n := b[off] as int;
      if n == 0 then Some(off + 1) else if n >= 64 then None else PlainName(b, off + 1 + n)
  }

  function QtypeOf(b: Bytes): Option<nat> {
    if |b| < 12 || U16At(b, 4) < 1 then None
    else
      match PlainName(b, 12)
      case None => None
      case Some(off) => if off + 4 > |b| then None else Some(U16At(b, off))
  }

  // ---- the methods ---------------------------------------------------------------------------

  /** `extract_qtype`. */
  method ExtractQtype(query: Bytes) returns (qtype: Option<nat>)
    ensures qtype == QtypeOf(query)
  {
    if |query| < 12 || U16At(query, 4) < 1 {
      return None;
    }
    var offset := 12;
    while offset < |query|
      invariant PlainName(query, offset) == PlainName(query, 12)
      decreases |query| - offset
    {
      var n := query[offset] as int;
      if n == 0 {
        offset := offset + 1;
        break;
      }
      if n >= 64 {
        return None;
      }
      offset := offset + n + 1;
    }
    assert PlainName(query, 12) == Some(offset);
    if offset + 4 > |query| {
      return None;
    }
    return Some(U16At(query, offset));
  }

  /** `_extract_min_ttl`. */
  method ExtractMinTtl(resp: Bytes) returns (ttl: real)
    ensures ttl == TtlOf(resp)
  {
    hide SkipName, U16At, AnswerTtls, Least;
    if |resp| < 12 {
      return 0.0;
    }
    var qdcount, ancount, offset: nat := U16At(resp, 4), U16At(resp, 6), 12;
    for i := 0 to qdcount
      invariant SkipQuestions(resp, offset, qdcount - i) == SkipQuestions(resp, 12, qdcount)
    {
      offset := SkipQuestionName(resp, offset);
      offset := offset + 4;
      if offset > |resp| {
        return 0.0;
      }
    }
    if ancount == 0 {
      return NEGATIVE_TTL;
    }
    var minTtl := ReadAnswers(resp, offset, ancount);
    return if minTtl.None? then 0.0 else Clamp(minTtl.value);
  }

  /** The answers still to be read, with those already read in front. */
  ghost function After(seen: seq<nat>, rest: Option<seq<nat>>): Option<seq<nat>> {
    if rest.None? then None else Some(seen + rest.value)
  }

  lemma AfterOne(seen: seq<nat>, t: nat, rest: Option<seq<nat>>)
    ensures After(seen, After([t], rest)) == After(seen + [t], rest)
  {
    if rest.Some? {
      Assoc(seen, [t], rest.value);
    }
  }

  lemma AfterNone(seen: seq<nat>, rest: Option<seq<nat>>)
    ensures After([], rest) == rest && After(seen, Some([])) == Some(seen)
  {
    assert seen + [] == seen && (rest.Some? ==> [] + rest.value == rest.value);
  }

  /** The loop over the answer section: the least time to live, or None if the message ends first. */
  method ReadAnswers(resp: Bytes, start: nat, ancount: nat) returns (minTtl: Option<nat>)
    requires ancount > 0
    ensures var ttls := AnswerTtls(resp, start, ancount);
            if ttls.None? then minTtl.None? else ttls.value != [] && minTtl == Some(Least(ttls.value))
  {
    hide SkipName, U16At, U32At, AnswerTtls, Least, After;
    var offset: nat := start;
    ghost var all := AnswerTtls(resp, start, ancount);
    ghost var seen: seq<nat> := [];
    minTtl := None;
    AfterNone([], all);
    for i := 0 to ancount
      invariant |seen| == i && (minTtl.Some? <==> i > 0) && (i > 0 ==> minTtl == Some(Least(seen)))
      invariant After(seen, AnswerTtls(resp, offset, ancount - i)) == all
    {
      AnswersStep(resp, offset, ancount - i);
      if offset >= |resp| {
        NoAnswers(seen);
        return None;
      }
      offset := SkipAnswerName(resp, offset);
      if offset + 10 > |resp| {
        NoAnswers(seen);
        return None;
      }
      var t, rdlength := U32At(resp, offset + 4), U16At(resp, offset + 8);
      offset := offset + 10 + rdlength;
      LeastSnoc(seen, t);
      AfterOne(seen, t, AnswerTtls(resp, offset, ancount - i - 1));
      if minTtl.None? || t < minTtl.value {
        minTtl := Some(t);
      }
      seen := seen + [t];
    }
    AnswersStep(resp, offset, 0);
    AfterNone(seen, all);
  }

  lemma NoAnswers(seen: seq<nat>)
    ensures After(seen, None).None?
  {
  }

  lemma AnswersStep(b: Bytes, off: nat, count: nat)
    ensures count == 0 ==> AnswerTtls(b, off, count) == Some([])
    ensures count > 0 ==>
      AnswerTtls(b, off, count)
        == if off >= |b| || SkipName(b, off) + 10 > |b| then None
           else
             var fixed := SkipName(b, off);
             After([U32At(b, fixed + 4)], AnswerTtls(b, fixed + 10 + U16At(b, fixed + 8), count - 1))
  {
    hide SkipName, U16At, U32At;
  }

  lemma {:induction false} LeastSnoc(ttls: seq<nat>, t: nat)
    ensures Least(ttls + [t]) == if ttls == [] || t < Least(ttls) then t else Least(ttls)
  {
    if ttls != [] {
      LeastSnoc(ttls[1..], t);
      assert (ttls + [t])[1..] == ttls[1..] + [t];
    }
  }

  /** The inner loop of the question section. */
  method SkipQuestionName(resp: Bytes, start: nat) returns (offset: nat)
    ensures offset == SkipName(resp, start)
  {
    offset := start;
    while offset < |resp|
      invariant SkipName(resp, offset) == SkipName(resp, start)
      decreases |resp| - offset
    {
      var n := resp[offset] as int;
      offset := offset + 1;
      if n == 0 {
        return;
      }
      if n >= 64 {
        offset := offset + 1;
        return;
      }
      offset := offset + n;
    }
  }

  /** The name at the head of an answer: a pointer at once, or labels first. */
  method SkipAnswerName(resp: Bytes, start: nat) returns (offset: nat)
    requires start < |resp|
    ensures offset == SkipName(resp, start)
  {
    offset := start;
    if resp[offset] >= 64 {
      return offset + 2;
    }
    while offset < |resp| && resp[offset] != 0
      invariant SkipName(resp, offset) == SkipName(resp, start)
      decreases |resp| - offset
    {
      var m := resp[offset] as int;
      if m >= 64 {
        return offset + 2;
      }
      offset := offset + m + 1;
    }
    if offset < |resp| {
      offset := offset + 1;
    }
  }

  /** A kept response is kept for between half a minute and an hour. */
  lemma TtlInRange(b: Bytes)
    ensures TtlOf(b) == 0.0 || 30.0 <= TtlOf(b) <= 3600.0
  {
    hide SkipQuestions, AnswerTtls, Least, U16At;
  }

  // ---- encoding ------------------------------------------------------------------------------

  /** Labels, then the root or a pointer to the rest. */
  datatype Name = Name(labels: seq<Bytes>, pointer: Option<(byte, byte)>)
  {
    predicate Valid() {
      && (forall i :: 0 <= i < |labels| ==> 0 < |labels[i]| < 64)
      && (pointer.Some? ==> pointer.value.0 >= 0xC0)
    }
  }

  datatype Question = Question(name: Name, qtype: nat, qclass: nat)
  {
    predicate Valid() {
      name.Valid() && qtype < 65536 && qclass < 65536
    }
  }

  datatype Record = Record(name: Name, kind: nat, class_: nat, ttl: nat, data: Bytes)
  {
    predicate Valid() {
      name.Valid() && kind < 65536 && class_ < 65536 && ttl < 0x1_0000_0000 && |data| < 65536
    }
  }

  function EncodeLabels(labels: seq<Bytes>): Bytes
    requires forall i :: 0 <= i < |labels| ==> 0 < |labels[i]| < 64
  {
    if labels == [] then [] else [|labels[0]|] + labels[0] + EncodeLabels(labels[1..])
  }

  function EncodeName(n: Name): Bytes
    requires n.Valid()
  {
    EncodeLabels(n.labels) + if n.pointer.Some? then [n.pointer.value.0, n.pointer.value.1] else [0]
  }

  function EncodeQuestion(q: Question): Bytes
    requires q.Valid()
  {
    EncodeName(q.name) + (U16(q.qtype) + U16(q.qclass))
  }

  function EncodeQuestions(qs: seq<Question>): Bytes
    requires forall i :: 0 <= i < |qs| ==> qs[i].Valid()
  {
    if qs == [] then [] else EncodeQuestion(qs[0]) + EncodeQuestions(qs[1..])
  }

  function EncodeRecord(r: Record): Bytes
    requires r.Valid()
  {
    EncodeName(r.name)
    + (U16(r.kind) + U16(r.class_) + (U16(r.ttl / 65536) + U16(r.ttl % 65536)) + U16(|r.data|) + r.data)
  }

  function EncodeRecords(rs: seq<Record>): Bytes
    requires forall i :: 0 <= i < |rs| ==> rs[i].Valid()
  {
    if rs == [] then [] else EncodeRecord(rs[0]) + EncodeRecords(rs[1..])
  }

  /** A message up to its answers: an identifier and flags, the four counts, questions and answers. */
  datatype Message = Message(front: Bytes, questions: seq<Question>, answers: seq<Record>, back: Bytes)
  {
    predicate Valid() {
      && |front| == 4 && |back| == 4 && |questions| < 65536 && |answers| < 65536
      && (forall i :: 0 <= i < |questions| ==> questions[i].Valid())
      && (forall i :: 0 <= i < |answers| ==> answers[i].Valid())
    }
  }

  function Encode(m: Message): Bytes
    requires m.Valid()
  {
    (m.front + U16(|m.questions|) + U16(|m.answers|) + m.back) + (EncodeQuestions(m.questions) + EncodeRecords(m.answers))
  }

  // ---- what the scans find -------------------------------------------------------------------

  /** The scan of a name ends behind it, wherever in a message it stands. */
  lemma {:induction false} SkipsName(before: Bytes, labels: seq<Bytes>, n: Name, tail: Bytes)
    requires n.Valid() && n.labels == labels
    ensures SkipName(before + (EncodeName(n) + tail), |before|) == |before| + |EncodeName(n)|
    ensures n.pointer.None? ==> PlainName(before + (EncodeName(n) + tail), |before|) == Some(|before| + |EncodeName(n)|)
    decreases |labels|
  {
    var b := before + (EncodeName(n) + tail);
    if labels == [] {
      assert b[|before|] == EncodeName(n)[0];
    } else {
      var first, rest := labels[0], Name(labels[1..], n.pointer);
      assert EncodeName(n) == ([|first|] + first) + EncodeName(rest);
      var before' := before + ([|first|] + first);
      assert b == before' + (EncodeName(rest) + tail);
      assert b[|before|] == |first|;
      SkipsName(before', labels[1..], rest, tail);
    }
  }

  lemma {:induction false} SkipsQuestions(before: Bytes, qs: seq<Question>, tail: Bytes)
    requires forall i :: 0 <= i < |qs| ==> qs[i].Valid()
    ensures SkipQuestions(before + (EncodeQuestions(qs) + tail), |before|, |qs|) == Some(|before| + |EncodeQuestions(qs)|)
    decreases |qs|
  {
    hide SkipName, EncodeName;
    if qs != [] {
      var q, rest := qs[0], EncodeQuestions(qs[1..]);
      var b := before + (EncodeQuestions(qs) + tail);
      var fixed := U16(q.qtype) + U16(q.qclass);
      assert b == before + (EncodeName(q.name) + (fixed + (rest + tail)));
      SkipsName(before, q.name.labels, q.name, fixed + (rest + tail));
      assert b == (before + EncodeQuestion(q)) + (rest + tail);
      SkipsQuestions(before + EncodeQuestion(q), qs[1..], tail);
    }
  }

  lemma U16AtOf(before: Bytes, n: nat, tail: Bytes)
    requires n < 65536
    ensures U16At(before + (U16(n) + tail), |before|) == n
  {
    var b := before + (U16(n) + tail);
    assert b[|before|] == U16(n)[0] && b[|before| + 1] == U16(n)[1];
  }

  /** The fixed part of a record, read where its name ends. */
  lemma FixedRead(before: Bytes, r: Record, tail: Bytes)
    requires r.Valid()
    ensures var fixed := U16(r.kind) + U16(r.class_) + (U16(r.ttl / 65536) + U16(r.ttl % 65536)) + U16(|r.data|) + r.data;
            var b := before + (fixed + tail);
            U32At(b, |before| + 4) == r.ttl && U16At(b, |before| + 8) == |r.data| && |fixed| == 10 + |r.data|
  {
    var head := U16(r.kind) + U16(r.class_);
    var hi, lo, len := U16(r.ttl / 65536), U16(r.ttl % 65536), U16(|r.data|);
    var b := before + (head + (hi + lo) + len + r.data + tail);
    assert b == (before + head) + (hi + (lo + len + r.data + tail));
    assert b == (before + head + hi) + (lo + (len + r.data + tail));
    assert b == (before + head + hi + lo) + (len + (r.data + tail));
    U16AtOf(before + head, r.ttl / 65536, lo + len + r.data + tail);
    U16AtOf(before + head + hi, r.ttl % 65536, len + r.data + tail);
    U16AtOf(before + head + hi + lo, |r.data|, r.data + tail);
  }

  function TtlsOf(rs: seq<Record>): seq<nat> {
    seq(|rs|, i requires 0 <= i < |rs| => rs[i].ttl)
  }

  /** One record, read from where it starts. */
  lemma OneAnswer(before: Bytes, r: Record, tail: Bytes)
    requires r.Valid()
    ensures var b := before + (EncodeRecord(r) + tail);
            var fixed := SkipName(b, |before|);
            |before| < |b| && fixed + 10 <= |b| && U32At(b, fixed + 4) == r.ttl
            && fixed + 10 + U16At(b, fixed + 8) == |before + EncodeRecord(r)|
  {
    hide SkipName, EncodeName, U16At, U32At;
    var name := EncodeName(r.name);
    var fixed := U16(r.kind) + U16(r.class_) + (U16(r.ttl / 65536) + U16(r.ttl % 65536)) + U16(|r.data|) + r.data;
    Assoc(name, fixed, tail);
    SkipsName(before, r.name.labels, r.name, fixed + tail);
    Assoc(before, name, fixed + tail);
    FixedRead(before + name, r, tail);
  }

  lemma {:induction false} ReadsAnswers(before: Bytes, rs: seq<Record>, tail: Bytes)
    requires forall i :: 0 <= i < |rs| ==> rs[i].Valid()
    ensures AnswerTtls(before + (EncodeRecords(rs) + tail), |before|, |rs|) == Some(TtlsOf(rs))
    decreases |rs|
  {
    hide SkipName, EncodeRecord, U16At, U32At;
    if rs != [] {
      var r, rest := rs[0], EncodeRecords(rs[1..]);
      var b := before + (EncodeRecords(rs) + tail);
      Assoc(EncodeRecord(r), rest, tail);
      Assoc(before, EncodeRecord(r), rest + tail);
      OneAnswer(before, r, rest + tail);
      AnswersStep(b, |before|, |rs|);
      ReadsAnswers(before + EncodeRecord(r), rs[1..], tail);
      assert TtlsOf(rs) == [r.ttl] + TtlsOf(rs[1..]);
    }
  }

  lemma CountsRead(m: Message, tail: Bytes)
    requires m.Valid()
    ensures |Encode(m)| >= 12 && U16At(Encode(m) + tail, 4) == |m.questions| && U16At(Encode(m) + tail, 6) == |m.answers|
  {
    hide EncodeQuestions, EncodeRecords, U16At;
    var qd, an, body := U16(|m.questions|), U16(|m.answers|), EncodeQuestions(m.questions) + EncodeRecords(m.answers);
    var b := Encode(m) + tail;
    assert b == m.front + (qd + (an + m.back + body + tail));
    assert b == (m.front + qd) + (an + (m.back + body + tail));
    U16AtOf(m.front, |m.questions|, an + m.back + body + tail);
    U16AtOf(m.front + qd, |m.answers|, m.back + body + tail);
  }

  /** Any response, with whatever sections after its answers: kept for its shortest time to live, within
      bounds, and a minute if it has no answer. */
  lemma TtlIsLeast(m: Message, tail: Bytes)
    requires m.Valid()
    ensures m.answers == [] ==> TtlOf(Encode(m) + tail) == 60.0
    ensures m.answers != [] ==>
      var least := Least(TtlsOf(m.answers));
      TtlOf(Encode(m) + tail) == if least < 30 then 30.0 else if least > 3600 then 3600.0 else least as real
  {
    hide SkipQuestions, AnswerTtls, EncodeQuestions, EncodeRecords, U16At, Least;
    var head := m.front + U16(|m.questions|) + U16(|m.answers|) + m.back;
    var qs, rs := EncodeQuestions(m.questions), EncodeRecords(m.answers);
    var b := Encode(m) + tail;
    CountsRead(m, tail);
    assert b == head + (qs + (rs + tail));
    SkipsQuestions(head, m.questions, rs + tail);
    assert b == (head + qs) + (rs + tail);
    ReadsAnswers(head + qs, m.answers, tail);
  }

  /** A query's type is found when its first name is spelled out, as in a query it is. */
  lemma QtypeIsAsked(m: Message, tail: Bytes)
    requires m.Valid() && m.questions != [] && m.questions[0].name.pointer.None?
    ensures QtypeOf(Encode(m) + tail) == Some(m.questions[0].qtype)
  {
    hide PlainName, EncodeName, EncodeRecords, U16At;
    var head := m.front + U16(|m.questions|) + U16(|m.answers|) + m.back;
    var q, rest := m.questions[0], EncodeQuestions(m.questions[1..]) + EncodeRecords(m.answers) + tail;
    var b, name := Encode(m) + tail, EncodeName(m.questions[0].name);
    CountsRead(m, tail);
    assert b == head + (name + (U16(q.qtype) + U16(q.qclass) + rest));
    SkipsName(head, q.name.labels, q.name, U16(q.qtype) + U16(q.qclass) + rest);
    assert b == (head + name) + (U16(q.qtype) + (U16(q.qclass) + rest));
    U16AtOf(head + name, q.qtype, U16(q.qclass) + rest);
  }
}
