/**
 * The DNS message format of sections 3.1, 4.1.1, 4.1.2 and 4.1.3 of RFC 1035, read
 * off the wire: an independent decoder, without name compression, against which the
 * proxy's encoder and parser are checked.
 */
module DnsWire {
  import opened Common

  type Byte = x: int | 0 <= x < 256

  /** Octets that a single size octet can announce. */
  type Label = l: seq<Byte> | |l| < 256

  datatype Question = Question(name: seq<Label>, qtype: nat, qclass: nat)

  datatype Record = Record(owner: seq<Label>, rtype: nat, rclass: nat, ttl: nat, rdata: seq<Byte>)

  datatype Message = Message(
    id: nat, flags: nat, questions: seq<Question>,
    answers: seq<Record>, authority: seq<Record>, additional: seq<Record>)

  function U16(m: seq<Byte>, at: nat): nat
    requires at + 2 <= |m|
  {
    256 * (m[at] as int) + m[at + 1] as int
  }

  function U32(m: seq<Byte>, at: nat): nat
    requires at + 4 <= |m|
  {
    0x1_0000 * U16(m, at) + U16(m, at + 2)
  }

  /** The labels of a name and the position after it; a size octet of 64 or more is no plain label. */
  function DecodeName(m: seq<Byte>, at: nat): (r: Option<(seq<Label>, nat)>)
    ensures r.Some? ==> at < r.value.1 <= |m|
    decreases |m| - at
  {
    if at >= |m| then None
    else if m[at] == 0 then Some(([], at + 1))
    else if m[at] >= 64 || at + 1 + m[at] > |m| then None
    else
      match DecodeName(m, at + 1 + m[at])
      case None => None
      case Some((labels, next)) => Some(([m[at + 1..at + 1 + m[at]]] + labels, next))
  }

  function DecodeQuestion(m: seq<Byte>, at: nat): Option<(Question, nat)> {
    match DecodeName(m, at)
    case None => None
    case Some((name, next)) =>
      if next + 4 > |m| then None else Some((Question(name, U16(m, next), U16(m, next + 2)), next + 4))
  }

  function DecodeQuestions(m: seq<Byte>, at: nat, count: nat): Option<(seq<Question>, nat)>
    decreases count
  {
    if count == 0 then Some(([], at))
    else
      match DecodeQuestion(m, at)
      case None => None
      case Some((q, next)) =>
        match DecodeQuestions(m, next, count - 1)
        case None => None
        case Some((rest, end)) => Some(([q] + rest, end))
  }

  function DecodeRecord(m: seq<Byte>, at: nat): Option<(Record, nat)> {
    match DecodeName(m, at)
    case None => None
    case Some((owner, next)) =>
      if next + 10 > |m| || next + 10 + U16(m, next + 8) > |m| then None
      else
        var end := next + 10 + U16(m, next + 8);
        Some((Record(owner, U16(m, next), U16(m, next + 2), U32(m, next + 4), m[next + 10..end]), end))
  }

  function DecodeRecords(m: seq<Byte>, at: nat, count: nat): Option<(seq<Record>, nat)>
    decreases count
  {
    if count == 0 then Some(([], at))
    else
      match DecodeRecord(m, at)
      case None => None
      case Some((r, next)) =>
        match DecodeRecords(m, next, count - 1)
        case None => None
        case Some((rest, last)) => Some(([r] + rest, last))
  }

  /** The whole message, provided every section parses and no octet is left over. */
  function DecodeMessage(m: seq<Byte>): Option<Message> {
    if |m| < 12 then None
    else
      match DecodeQuestions(m, 12, U16(m, 4))
      case None => None
      case Some((questions, q)) =>
        match DecodeRecords(m, q, U16(m, 6))
        case None => None
        case Some((answers, a)) =>
          match DecodeRecords(m, a, U16(m, 8))
          case None => None
          case Some((authority, n)) =>
            match DecodeRecords(m, n, U16(m, 10))
            case None => None
            case Some((additional, end)) =>
              if end != |m| then None
              else Some(Message(U16(m, 0), U16(m, 2), questions, answers, authority, additional))
  }

  // ------------------------------------------------------- pieces inside a message

  /** `piece` stands in `m` from `at` on. */
  ghost predicate Stands(m: seq<Byte>, at: nat, piece: seq<Byte>) {
    at + |piece| <= |m| && m[at..at + |piece|] == piece
  }

  lemma StandsSplit(m: seq<Byte>, at: nat, a: seq<Byte>, b: seq<Byte>)
    ensures Stands(m, at, a + b) <==> Stands(m, at, a) && Stands(m, at + |a|, b)
  {
    if at + |a + b| <= |m| {
      var whole := m[at..at + |a + b|];
      assert whole[..|a|] == m[at..at + |a|];
      assert whole[|a|..] == m[at + |a|..at + |a| + |b|];
      assert whole == whole[..|a|] + whole[|a|..];
      assert (a + b)[..|a|] == a && (a + b)[|a|..] == b;
    }
  }

  lemma StandsSlice(m: seq<Byte>, at: nat, piece: seq<Byte>)
    requires Stands(m, at, piece)
    ensures at + |piece| <= |m| && m[at..at + |piece|] == piece
  {
  }

  lemma StandsByte(m: seq<Byte>, at: nat, b: Byte)
    ensures Stands(m, at, [b]) <==> at < |m| && m[at] == b
  {
    if at < |m| {
      assert m[at..at + 1] == [m[at]];
    }
  }

  predicate PlainLabel(part: Label) {
    1 <= |part| <= 63
  }

  predicate PlainName(labels: seq<Label>) {
    forall i | 0 <= i < |labels| :: PlainLabel(labels[i])
  }

  /** The wire form of a name: every label behind its size octet, then a zero octet. */
  function WireName(labels: seq<Label>): (r: seq<Byte>)
    ensures |r| >= 1
  {
    if labels == [] then [0] else [|labels[0]|] + labels[0] + WireName(labels[1..])
  }

  lemma NameStepDecodes(m: seq<Byte>, at: nat, part: Label, rest: seq<Label>)
    requires PlainLabel(part) && Stands(m, at, [|part|] + part + WireName(rest))
    ensures Stands(m, at + 1 + |part|, WireName(rest))
    ensures DecodeName(m, at)
         == match DecodeName(m, at + 1 + |part|)
            case None => None
            case Some((labels, next)) => Some(([part] + labels, next))
  {
    StandsSplit(m, at, [|part|] + part, WireName(rest));
    StandsSplit(m, at, [|part|], part);
    StandsByte(m, at, |part|);
  }

  lemma {:induction false} NameDecodes(m: seq<Byte>, at: nat, labels: seq<Label>)
    requires PlainName(labels) && Stands(m, at, WireName(labels))
    ensures DecodeName(m, at) == Some((labels, at + |WireName(labels)|))
    decreases |labels|
  {
    hide Stands;
    if labels == [] {
      StandsByte(m, at, 0);
    } else {
      assert PlainLabel(labels[0]);
      hide DecodeName;
      NameStepDecodes(m, at, labels[0], labels[1..]);
      NameDecodes(m, at + 1 + |labels[0]|, labels[1..]);
      assert labels == [labels[0]] + labels[1..];
    }
  }

  lemma OneMoreLabel(part: Label, rest: seq<Label>)
    requires PlainLabel(part) && PlainName(rest)
    ensures PlainName([part] + rest) && WireName([part] + rest) == [|part|] + part + WireName(rest)
  {
    var labels := [part] + rest;
    assert labels[1..] == rest;
    forall i | 0 <= i < |labels|
      ensures PlainLabel(labels[i])
    {
      assert i > 0 ==> labels[i] == rest[i - 1];
    }
  }

  /** What the decoder reads is a plain name, and it stands there in wire form. */
  lemma {:induction false} DecodedNameStands(m: seq<Byte>, at: nat)
    requires DecodeName(m, at).Some?
    ensures var (labels, next) := DecodeName(m, at).value;
            PlainName(labels) && next == at + |WireName(labels)| && Stands(m, at, WireName(labels))
    decreases |m| - at
  {
    if m[at] == 0 {
      StandsByte(m, at, 0);
    } else {
      hide Stands, PlainName;
      var part := m[at + 1..at + 1 + m[at]];
      DecodedNameStands(m, at + 1 + m[at]);
      var (rest, next) := DecodeName(m, at + 1 + m[at]).value;
      assert DecodeName(m, at).value == ([part] + rest, next);
      OneMoreLabel(part, rest);
      hide DecodeName, WireName;
      StandsByte(m, at, |part|);
      StandsSlice(m, at + 1, part);
      StandsSplit(m, at, [|part|], part);
      StandsSplit(m, at, [|part|] + part, WireName(rest));
    }
  }

  /** The wire form determines a name, as long as one side is plain. */
  lemma {:induction false} WireNameInjective(a: seq<Label>, b: seq<Label>)
    requires PlainName(b) && WireName(a) == WireName(b)
    ensures a == b
  {
    assert WireName(a)[0] == if a == [] then 0 else |a[0]|;
    assert WireName(b)[0] == if b == [] then 0 else |b[0]|;
    assert b != [] ==> PlainLabel(b[0]);
    assert a != [] ==> |WireName(a)| == 1 + |a[0]| + |WireName(a[1..])|;
    if a != [] && b != [] {
      var n := |a[0]|;
      assert WireName(a)[1..1 + n] == a[0] && WireName(b)[1..1 + n] == b[0];
      assert WireName(a)[1 + n..] == WireName(a[1..]) && WireName(b)[1 + n..] == WireName(b[1..]);
      WireNameInjective(a[1..], b[1..]);
      assert a == [a[0]] + a[1..] && b == [b[0]] + b[1..];
    }
  }

  // ------------------------------------------------------------------ fixed fields

  function Pack16(n: nat): seq<Byte>
    requires n < 0x1_0000
  {
    [n / 256, n % 256]
  }

  function Pack32(n: nat): seq<Byte>
    requires n < 0x1_0000_0000
  {
    Pack16(n / 0x1_0000) + Pack16(n % 0x1_0000)
  }

  lemma Stands16(m: seq<Byte>, at: nat, n: nat)
    requires n < 0x1_0000 && Stands(m, at, Pack16(n))
    ensures at + 2 <= |m| && U16(m, at) == n
  {
    assert m[at] == m[at..at + 2][0] && m[at + 1] == m[at..at + 2][1];
  }

  predicate Encodable(r: Record) {
    && PlainName(r.owner) && r.rtype < 0x1_0000 && r.rclass < 0x1_0000
    && r.ttl < 0x1_0000_0000 && |r.rdata| < 0x1_0000
  }

  function WireRecord(r: Record): seq<Byte>
    requires Encodable(r)
  {
    WireName(r.owner) + (Pack16(r.rtype) + Pack16(r.rclass) + Pack32(r.ttl) + Pack16(|r.rdata|)) + r.rdata
  }

  predicate AllEncodable(rs: seq<Record>) {
    forall i | 0 <= i < |rs| :: Encodable(rs[i])
  }

  function WireRecords(rs: seq<Record>): seq<Byte>
    requires AllEncodable(rs)
  {
    if rs == [] then [] else WireRecord(rs[0]) + WireRecords(rs[1..])
  }

  lemma RecordDecodes(m: seq<Byte>, at: nat, r: Record)
    requires Encodable(r) && Stands(m, at, WireRecord(r))
    ensures DecodeRecord(m, at) == Some((r, at + |WireRecord(r)|))
  {
    hide Stands, DecodeName, WireName;
    var name, next := WireName(r.owner), at + |WireName(r.owner)|;
    var (t, c, ttl, n) := (Pack16(r.rtype), Pack16(r.rclass), Pack32(r.ttl), Pack16(|r.rdata|));
    StandsSplit(m, at, name + (t + c + ttl + n), r.rdata);
    StandsSplit(m, at, name, t + c + ttl + n);
    NameDecodes(m, at, r.owner);
    StandsSplit(m, next, t + c + ttl, n);
    StandsSplit(m, next, t + c, ttl);
    StandsSplit(m, next, t, c);
    StandsSplit(m, next + 4, Pack16(r.ttl / 0x1_0000), Pack16(r.ttl % 0x1_0000));
    Stands16(m, next, r.rtype);
    Stands16(m, next + 2, r.rclass);
    Stands16(m, next + 4, r.ttl / 0x1_0000);
    Stands16(m, next + 6, r.ttl % 0x1_0000);
    Stands16(m, next + 8, |r.rdata|);
    StandsSlice(m, next + 10, r.rdata);
  }

  lemma {:induction false} RecordsDecode(m: seq<Byte>, at: nat, rs: seq<Record>)
    requires AllEncodable(rs) && Stands(m, at, WireRecords(rs))
    ensures DecodeRecords(m, at, |rs|) == Some((rs, at + |WireRecords(rs)|))
    decreases |rs|
  {
    hide Stands, WireRecord, DecodeRecord, Encodable;
    if rs != [] {
      var r, rest := rs[0], rs[1..];
      assert rs == [r] + rest;
      StandsSplit(m, at, WireRecord(r), WireRecords(rest));
      RecordDecodes(m, at, r);
      RecordsDecode(m, at + |WireRecord(r)|, rest);
      assert |WireRecords(rs)| == |WireRecord(r)| + |WireRecords(rest)|;
      hide AllEncodable, WireRecords;
      assert DecodeRecords(m, at, 1 + |rest|) == Some(([r] + rest, at + |WireRecord(r)| + |WireRecords(rest)|));
    }
  }

  /** A message with one question, the given answers and nothing else. */
  lemma MessageDecodes(m: seq<Byte>, question: Question, answers: seq<Record>, at: nat)
    requires |m| >= 12 && U16(m, 4) == 1 && U16(m, 6) == |answers| && U16(m, 8) == 0 && U16(m, 10) == 0
    requires DecodeQuestion(m, 12) == Some((question, at))
    requires DecodeRecords(m, at, |answers|) == Some((answers, |m|))
    ensures DecodeMessage(m) == Some(Message(U16(m, 0), U16(m, 2), [question], answers, [], []))
  {
    hide DecodeQuestion, DecodeRecord, U16;
    assert DecodeQuestions(m, at, 0) == Some(([], at));
    assert [question] + [] == [question];
    assert DecodeRecords(m, |m|, 0) == Some(([], |m|));
  }

  lemma CopiedFields(m: seq<Byte>, a: nat, n: seq<Byte>, b: nat)
    requires a + 4 <= |m| && b + 4 <= |n| && m[a..a + 4] == n[b..b + 4]
    ensures U16(m, a) == U16(n, b) && U16(m, a + 2) == U16(n, b + 2)
  {
    var (x, y) := (m[a..a + 4], n[b..b + 4]);
    assert x[0] == m[a] && x[1] == m[a + 1] && x[2] == m[a + 2] && x[3] == m[a + 3];
    assert y[0] == n[b] && y[1] == n[b + 1] && y[2] == n[b + 2] && y[3] == n[b + 3];
  }
}
