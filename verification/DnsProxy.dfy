/**
 * The DNS proxy protocol of clabgen/s88/CM/dns_proxy_protocol.py: parsing the
 * question of a query, encoding names, and assembling the local answer.
 */
module DnsProxy {
  import opened Common
  import opened DnsWire
  import opened Text

  // -------------------------------------------------------------------- text of names

  predicate Ascii(text: string) {
    forall i | 0 <= i < |text| :: text[i] < 128 as char
  }

  /** `decode("ascii", "ignore").lower()`: octets from 128 on are dropped. */
  function TextOfLabel(part: seq<Byte>): (r: string)
    ensures Ascii(r) && |r| <= |part|
  {
    if part == [] then ""
    else (if part[0] < 128 then [LowerChar(part[0] as char)] else []) + TextOfLabel(part[1..])
  }

  function TextsOf(labels: seq<Label>): (r: seq<string>)
    ensures |r| == |labels| && forall i | 0 <= i < |r| :: r[i] == TextOfLabel(labels[i])
  {
    seq(|labels|, i requires 0 <= i < |labels| => TextOfLabel(labels[i]))
  }

  /** `".".join(texts)`. */
  function Join(texts: seq<string>): string {
    if texts == [] then "" else if |texts| == 1 then texts[0] else texts[0] + "." + Join(texts[1..])
  }

  /** `text.split(".")`. */
  function Split(text: string): (r: seq<string>)
    ensures |r| >= 1
  {
    if text == "" then [""]
    else
      var rest := Split(text[1..]);
      if text[0] == '.' then [""] + rest else [[text[0]] + rest[0]] + rest[1..]
  }

  /** `text.rstrip(".")`. */
  function StripDots(text: string): string {
    if text != "" && text[|text| - 1] == '.' then StripDots(text[..|text| - 1]) else text
  }

  // ------------------------------------------------------------------- encoding a name

  datatype EncodeError = LabelTooLong | NotAscii

  function Octets(text: string): (r: seq<Byte>)
    requires Ascii(text)
    ensures |r| == |text|
  {
    seq(|text|, i requires 0 <= i < |text| => text[i] as int)
  }

  function EncodeParts(parts: seq<string>): Result<seq<Byte>, EncodeError> {
    if parts == [] then Ok([0])
    else if |parts[0]| >= 256 then Err(LabelTooLong)
    else if !Ascii(parts[0]) then Err(NotAscii)
    else
      match EncodeParts(parts[1..])
      case Err(e) => Err(e)
      case Ok(rest) => Ok([|parts[0]|] + Octets(parts[0]) + rest)
  }

  /** What `encode_name` computes: the stripped name split at its dots, each part behind its size. */
  function EncodedName(name: string): Result<seq<Byte>, EncodeError> {
    if StripDots(name) == "" then Ok([0]) else EncodeParts(Split(StripDots(name)))
  }

  method EncodeName(name: string) returns (r: Result<seq<Byte>, EncodeError>)
    ensures r == EncodedName(name)
  {
    var normalized := StripDots(name);
    if normalized == "" {
      return Ok([0]);
    }
    var parts := Split(normalized);
    var wire: seq<Byte> := [];
    assert parts[0..] == parts;
    if EncodeParts(parts).Ok? {
      assert [] + EncodeParts(parts).value == EncodeParts(parts).value;
    }
    for i := 0 to |parts|
      invariant EncodeParts(parts)
             == match EncodeParts(parts[i..]) case Err(e) => Err(e) case Ok(rest) => Ok(wire + rest)
    {
      var part := parts[i];
      assert parts[i..][0] == part && parts[i..][1..] == parts[i + 1..];
      if |part| >= 256 {
        return Err(LabelTooLong);
      }
      if !Ascii(part) {
        return Err(NotAscii);
      }
      if EncodeParts(parts[i + 1..]).Ok? {
        assert wire + ([|part|] + Octets(part) + EncodeParts(parts[i + 1..]).value)
            == (wire + ([|part|] + Octets(part))) + EncodeParts(parts[i + 1..]).value;
      }
      wire := wire + ([|part|] + Octets(part));
    }
    return Ok(wire + [0]);
  }

  // ---------------------------------------------------------------- parsing a question

  datatype ParsedQuestion = ParsedQuestion(name: string, qtype: nat, qclass: nat, wire: seq<Byte>)

  /** The question in the terms of the message format: its labels decode and type and class follow. */
  function QuestionAt(query: seq<Byte>): Option<ParsedQuestion> {
    if |query| < 12 then None
    else
      match DecodeName(query, 12)
      case None => None
      case Some((labels, next)) =>
        if next + 4 > |query| then None
        else Some(ParsedQuestion(Join(TextsOf(labels)) + ".", U16(query, next), U16(query, next + 2),
                                 query[12..next + 4]))
  }

  /** One more label read: what is still to decode moves behind it. */
  lemma ParseStep(query: seq<Byte>, raw: seq<Label>, position: nat)
    requires position < |query| && 0 < query[position] < 64 && position + 1 + query[position] <= |query|
    requires DecodeName(query, 12) == Behind(raw, DecodeName(query, position))
    ensures (var next := position + 1 + query[position];
             DecodeName(query, 12) == Behind(raw + [query[position + 1..next]], DecodeName(query, next)))
  {
    var next := position + 1 + query[position];
    if DecodeName(query, next).Some? {
      var (data, tail) := (query[position + 1..next], DecodeName(query, next).value.0);
      assert raw + ([data] + tail) == (raw + [data]) + tail;
    }
  }

  /** A decoded name with labels put in front. */
  function Behind(raw: seq<Label>, decoded: Option<(seq<Label>, nat)>): Option<(seq<Label>, nat)> {
    match decoded
    case None => None
    case Some((rest, next)) => Some((raw + rest, next))
  }

  method ParseQuestion(query: seq<Byte>) returns (r: Option<ParsedQuestion>)
    ensures r == QuestionAt(query)
  {
    if |query| < 12 {
      return None;
    }
    var position := 12;
    var labels: seq<string> := [];
    ghost var raw: seq<Label> := [];
    hide TextOfLabel, Join, U16;
    if DecodeName(query, 12).Some? {
      assert [] + DecodeName(query, 12).value.0 == DecodeName(query, 12).value.0;
    }
    while position < |query|
      invariant 12 <= position <= |query| && labels == TextsOf(raw)
      invariant DecodeName(query, 12) == Behind(raw, DecodeName(query, position))
    {
      var size := query[position];
      position := position + 1;
      if size == 0 {
        assert raw + [] == raw;
        break;
      }
      if size >= 64 || position + size > |query| {
        return None;
      }
      var data: Label := query[position..position + size];
      labels := labels + [TextOfLabel(data)];
      ParseStep(query, raw, position - 1);
      raw := raw + [data];
      position := position + size;
    }
    if position + 4 > |query| {
      return None;
    }
    return Some(ParsedQuestion(Join(labels) + ".", U16(query, position), U16(query, position + 2),
                               query[12..position + 4]));
  }

  // ------------------------------------------------------- names survive the round trip

  function LowerOctet(b: Byte): Byte {
    if 65 <= b <= 90 then b + 32 else b
  }

  function LowerLabel(part: Label): Label {
    seq(|part|, i requires 0 <= i < |part| => LowerOctet(part[i]))
  }

  function LowerLabels(labels: seq<Label>): seq<Label> {
    seq(|labels|, i requires 0 <= i < |labels| => LowerLabel(labels[i]))
  }

  /** The octets of a label are ASCII and none is a dot. */
  predicate Clean(part: Label) {
    forall i | 0 <= i < |part| :: part[i] < 128 && part[i] != 46
  }

  predicate AllClean(labels: seq<Label>) {
    forall i | 0 <= i < |labels| :: Clean(labels[i])
  }

  predicate DotFree(text: string) {
    '.' !in text
  }

  lemma {:induction false} SplitDotFree(text: string)
    requires DotFree(text)
    ensures Split(text) == [text]
  {
    if text != "" {
      SplitDotFree(text[1..]);
      assert [text[0]] + text[1..] == text;
    }
  }

  lemma {:induction false} SplitAtDot(a: string, b: string)
    ensures Split(a + "." + b) == Split(a) + Split(b)
  {
    var all := a + "." + b;
    if a == "" {
      assert all[1..] == b;
    } else {
      assert all[1..] == a[1..] + "." + b;
      SplitAtDot(a[1..], b);
    }
  }

  /** Every part is dot-free ASCII and no longer than the text. */
  lemma {:induction false} SplitParts(text: string)
    requires Ascii(text)
    ensures forall i | 0 <= i < |Split(text)| ::
              Ascii(Split(text)[i]) && DotFree(Split(text)[i]) && |Split(text)[i]| <= |text|
  {
    if text != "" {
      assert Ascii(text[1..]);
      SplitParts(text[1..]);
    }
  }

  /** Parts short enough for a label. */
  predicate Short(parts: seq<string>) {
    forall i | 0 <= i < |parts| :: Ascii(parts[i]) && DotFree(parts[i]) && |parts[i]| <= 63
  }

  lemma {:induction false} ShortAfterStrip(text: string)
    requires Short(Split(text))
    ensures Short(Split(StripDots(text)))
  {
    if text != "" && text[|text| - 1] == '.' {
      var shorter := text[..|text| - 1];
      assert text == shorter + "." + "";
      SplitAtDot(shorter, "");
      assert Split(shorter) == Split(text)[..|Split(shorter)|];
      ShortAfterStrip(shorter);
    }
  }

  lemma {:induction false} ShortJoin(texts: seq<string>)
    requires forall i | 0 <= i < |texts| :: Ascii(texts[i]) && |texts[i]| <= 63
    ensures Short(Split(Join(texts)))
  {
    if texts == [] {
    } else if |texts| == 1 {
      SplitParts(texts[0]);
    } else {
      ShortJoin(texts[1..]);
      SplitParts(texts[0]);
      SplitAtDot(texts[0], Join(texts[1..]));
    }
  }

  function OctetParts(parts: seq<string>): seq<Label>
    requires Short(parts)
  {
    seq(|parts|, i requires 0 <= i < |parts| => Octets(parts[i]))
  }

  lemma {:induction false} EncodeShortParts(parts: seq<string>)
    requires Short(parts)
    ensures EncodeParts(parts) == Ok(WireName(OctetParts(parts)))
  {
    if parts != [] {
      EncodeShortParts(parts[1..]);
      assert OctetParts(parts)[1..] == OctetParts(parts[1..]);
    }
  }

  lemma {:induction false} SplitJoined(texts: seq<string>)
    requires texts != [] && forall i | 0 <= i < |texts| :: DotFree(texts[i])
    ensures Split(Join(texts)) == texts
  {
    if |texts| == 1 {
      SplitDotFree(texts[0]);
    } else {
      SplitDotFree(texts[0]);
      SplitJoined(texts[1..]);
      SplitAtDot(texts[0], Join(texts[1..]));
    }
  }

  lemma {:induction false} JoinEndsInText(texts: seq<string>)
    requires texts != [] && forall i | 0 <= i < |texts| :: DotFree(texts[i]) && texts[i] != ""
    ensures Join(texts) != "" && Join(texts)[|Join(texts)| - 1] != '.'
  {
    if |texts| > 1 {
      JoinEndsInText(texts[1..]);
    }
  }

  /** Only the final dot goes. */
  lemma StripOneDot(texts: seq<string>)
    requires forall i | 0 <= i < |texts| :: DotFree(texts[i]) && texts[i] != ""
    ensures StripDots(Join(texts) + ".") == Join(texts)
  {
    if texts != [] {
      JoinEndsInText(texts);
    }
    hide Join;
    StripFinalDot(Join(texts));
  }

  lemma StripFinalDot(text: string)
    requires text != "" ==> text[|text| - 1] != '.'
    ensures StripDots(text + ".") == text
  {
    assert (text + ".")[..|text|] == text;
  }

  lemma {:induction false} TextOfCleanLabel(part: Label)
    requires Clean(part)
    ensures |TextOfLabel(part)| == |part| && DotFree(TextOfLabel(part)) && Octets(TextOfLabel(part)) == LowerLabel(part)
  {
    if part != [] {
      var rest: Label := part[1..];
      TextOfCleanLabel(rest);
      LowerLabelCons(part);
      OctetsCons(LowerChar(part[0] as char), TextOfLabel(rest));
      hide Octets, LowerLabel;
    }
  }

  lemma LowerLabelCons(part: Label)
    requires part != []
    ensures LowerLabel(part) == [LowerOctet(part[0])] + LowerLabel(part[1..])
  {
  }

  lemma OctetsCons(c: char, text: string)
    requires c < 128 as char && Ascii(text)
    ensures Ascii([c] + text) && Octets([c] + text) == [c as int] + Octets(text)
  {
  }

  /** The proxy's text for the labels of a query. */
  function NameText(labels: seq<Label>): string {
    Join(TextsOf(labels)) + "."
  }

  /** A name taken from a query can always be encoded again. */
  lemma ParsedNameEncodes(labels: seq<Label>)
    requires PlainName(labels)
    ensures Short(Split(StripDots(NameText(labels))))
    ensures EncodedName(NameText(labels)).Ok?
  {
    var texts := TextsOf(labels);
    assert forall i | 0 <= i < |labels| :: PlainLabel(labels[i]);
    ShortJoin(texts);
    assert NameText(labels) == Join(texts) + "." + "";
    SplitAtDot(Join(texts), "");
    ShortAfterStrip(NameText(labels));
    EncodeShortParts(Split(StripDots(NameText(labels))));
  }

  lemma CleanNameEncodes(labels: seq<Label>)
    requires PlainName(labels) && AllClean(labels)
    ensures EncodedName(NameText(labels)) == Ok(WireName(LowerLabels(labels)))
  {
    var texts := TextsOf(labels);
    forall i | 0 <= i < |labels|
      ensures DotFree(texts[i]) && texts[i] != "" && |texts[i]| <= 63 && Octets(texts[i]) == LowerLabel(labels[i])
    {
      assert PlainLabel(labels[i]) && Clean(labels[i]);
      TextOfCleanLabel(labels[i]);
    }
    StripOneDot(texts);
    if labels != [] {
      JoinEndsInText(texts);
      SplitJoined(texts);
      EncodeShortParts(texts);
      assert OctetParts(texts) == LowerLabels(labels);
    }
  }

  /**
   * Encoding a name that was parsed from a query gives back the lower-cased wire name
   * exactly when every label is dot-free ASCII.
   */
  lemma ParsedNameRoundTrip(labels: seq<Label>)
    requires PlainName(labels)
    ensures EncodedName(NameText(labels)) == Ok(WireName(LowerLabels(labels))) <==> AllClean(labels)
  {
    if AllClean(labels) {
      CleanNameEncodes(labels);
    }
    if EncodedName(NameText(labels)) == Ok(WireName(LowerLabels(labels))) {
      ParsedNameEncodes(labels);
      var lowered := LowerLabels(labels);
      assert PlainName(lowered) by {
        assert forall i | 0 <= i < |labels| :: PlainLabel(labels[i]);
      }
      var parts := Split(StripDots(NameText(labels)));
      if StripDots(NameText(labels)) == "" {
        WireNameInjective([], lowered);
      } else {
        EncodeShortParts(parts);
        WireNameInjective(OctetParts(parts), lowered);
        forall i | 0 <= i < |labels|
          ensures Clean(labels[i])
        {
          assert lowered[i] == Octets(parts[i]);
          assert forall k | 0 <= k < |labels[i]| :: lowered[i][k] == LowerOctet(labels[i][k]) == parts[i][k] as int;
        }
      }
    }
  }

  lemma {:induction false} TextOfOctets(text: string)
    requires Ascii(text) && |text| < 256
    ensures TextOfLabel(Octets(text)) == Lower(text)
  {
    if text != "" {
      TextOfOctets(text[1..]);
      assert Octets(text)[1..] == Octets(text[1..]);
      assert Lower(text) == [LowerChar(text[0])] + Lower(text[1..]);
    }
  }

  lemma {:induction false} LowerJoin(texts: seq<string>, lowered: seq<string>)
    requires |lowered| == |texts| && forall i | 0 <= i < |texts| :: lowered[i] == Lower(texts[i])
    ensures Join(lowered) == Lower(Join(texts))
  {
    if |texts| > 1 {
      LowerJoin(texts[1..], lowered[1..]);
    }
  }

  /** A name joined from labels of letters encodes to their octets. */
  lemma JoinedNameEncodes(texts: seq<string>)
    requires forall i | 0 <= i < |texts| :: Ascii(texts[i]) && DotFree(texts[i]) && 1 <= |texts[i]| <= 63
    ensures Short(texts) && EncodedName(Join(texts) + ".") == Ok(WireName(OctetParts(texts)))
  {
    StripOneDot(texts);
    if texts == [] {
      NothingJoined(texts);
    } else {
      hide Join, Split, StripDots, EncodeParts, OctetParts, WireName, Octets;
      JoinEndsInText(texts);
      SplitJoined(texts);
      EncodeShortParts(texts);
    }
  }

  lemma NothingJoined(texts: seq<string>)
    requires texts == []
    ensures Join(texts) == "" && WireName(OctetParts(texts)) == [0]
  {
  }

  /** Those octets read as the lower-cased name. */
  lemma OctetsReadLower(texts: seq<string>)
    requires forall i | 0 <= i < |texts| :: Ascii(texts[i]) && DotFree(texts[i]) && 1 <= |texts[i]| <= 63
    ensures PlainName(OctetParts(texts)) && NameText(OctetParts(texts)) == Lower(Join(texts) + ".")
  {
    hide Join, TextOfLabel, DotFree, Octets, Lower;
    var labels := OctetParts(texts);
    forall i | 0 <= i < |texts|
      ensures PlainLabel(labels[i]) && TextOfLabel(labels[i]) == Lower(texts[i])
    {
      TextOfOctets(texts[i]);
    }
    LowerJoin(texts, TextsOf(labels));
    LowerDot(Join(texts));
  }

  lemma LowerDot(text: string)
    ensures Lower(text + ".") == Lower(text) + "."
  {
  }

  /**
   * Parsing a question built with `encode_name` gives back the lower-cased name, its
   * type and its class, whatever header precedes it and whatever octets follow.
   */
  lemma EncodedQuestionParses(header: seq<Byte>, texts: seq<string>, qtype: nat, qclass: nat, rest: seq<Byte>)
    requires |header| == 12 && qtype < 0x1_0000 && qclass < 0x1_0000
    requires forall i | 0 <= i < |texts| :: Ascii(texts[i]) && DotFree(texts[i]) && 1 <= |texts[i]| <= 63
    ensures var name := Join(texts) + ".";
            EncodedName(name).Ok? &&
            (var wire := EncodedName(name).value + (Pack16(qtype) + Pack16(qclass));
             QuestionAt(header + (wire + rest)) == Some(ParsedQuestion(Lower(name), qtype, qclass, wire)))
  {
    hide Join, EncodedName, OctetParts, NameText, QuestionAt, WireName, Lower, Pack16, PlainName;
    JoinedNameEncodes(texts);
    OctetsReadLower(texts);
    var labels := OctetParts(texts);
    var query := header + (WireName(labels) + (Pack16(qtype) + Pack16(qclass)) + rest);
    QuestionReads(query, labels, qtype, qclass, rest);
  }

  lemma QuestionReads(query: seq<Byte>, labels: seq<Label>, qtype: nat, qclass: nat, rest: seq<Byte>)
    requires PlainName(labels) && qtype < 0x1_0000 && qclass < 0x1_0000
    requires Stands(query, 12, WireName(labels) + (Pack16(qtype) + Pack16(qclass)) + rest)
    ensures QuestionAt(query)
         == Some(ParsedQuestion(NameText(labels), qtype, qclass, WireName(labels) + (Pack16(qtype) + Pack16(qclass))))
  {
    var (name, fixed) := (WireName(labels), Pack16(qtype) + Pack16(qclass));
    var next := 12 + |name|;
    StandsSplit(query, 12, name + fixed, rest);
    StandsSplit(query, 12, name, fixed);
    StandsSplit(query, next, Pack16(qtype), Pack16(qclass));
    NameDecodes(query, 12, labels);
    Stands16(query, next, qtype);
    Stands16(query, next + 2, qclass);
    StandsSlice(query, 12, name + fixed);
    hide Stands, DecodeName, U16, WireName;
  }

  // ---------------------------------------------------------------- the local answer

  /** A local record; an address entry that is no string is None. */
  datatype LocalRecord = LocalRecord(name: string, a: seq<Option<string>>, aaaa: seq<Option<string>>)

  /** `inet_pton`: 4 octets for IPv4 text, 16 for IPv6 text, None for anything else. */
  type Pton = (nat, string) -> Option<seq<Byte>>

  ghost predicate IsPton(pton: Pton) {
    forall rtype, text :: pton(rtype, text).Some? ==> |pton(rtype, text).value| in {4, 16}
  }

  datatype Answer = Answer(rtype: nat, rdata: seq<Byte>)

  const TYPE_A: nat := 1
  const TYPE_AAAA: nat := 28
  const TYPE_ANY: nat := 255

  function AddressAnswers(pton: Pton, rtype: nat, entries: seq<Option<string>>): seq<Answer> {
    if entries == [] then []
    else
      var (before, entry) := (AddressAnswers(pton, rtype, entries[..|entries| - 1]), entries[|entries| - 1]);
      if entry.None? || pton(rtype, entry.value).None? then before
      else before + [Answer(rtype, pton(rtype, entry.value).value)]
  }

  /** The answers one record holds for a query type: A before AAAA. */
  function RecordAnswers(pton: Pton, qtype: nat, record: LocalRecord): seq<Answer> {
    (if qtype in {TYPE_A, TYPE_ANY} then AddressAnswers(pton, TYPE_A, record.a) else [])
    + (if qtype in {TYPE_AAAA, TYPE_ANY} then AddressAnswers(pton, TYPE_AAAA, record.aaaa) else [])
  }

  function RecordName(record: LocalRecord): string {
    Lower(StripDots(record.name)) + "."
  }

  predicate AllDots(text: string) {
    forall c | c in text :: c == '.'
  }

  /** The name of a record is its text without the dots at its end, in lower case, and one dot. */
  lemma {:induction false} RecordNameIff(record: LocalRecord, base: string, dots: string)
    requires record.name == base + dots && AllDots(dots) && (base == "" || base[|base| - 1] != '.')
    ensures RecordName(record) == Lower(base) + "."
    decreases |dots|
  {
    if dots == "" {
      assert record.name == base;
    } else {
      var fewer := dots[..|dots| - 1];
      assert dots[|dots| - 1] in dots && dots == fewer + [dots[|dots| - 1]];
      assert forall c | c in fewer :: c in dots;
      assert dots == fewer + "." && record.name == (base + fewer) + ".";
      assert record.name[..|record.name| - 1] == base + fewer;
      RecordNameIff(record.(name := base + fewer), base, fewer);
    }
  }

  /** The answers of all records that bear the query's name, in order. */
  function MatchingAnswers(pton: Pton, records: seq<LocalRecord>, q: ParsedQuestion): seq<Answer> {
    if records == [] then []
    else
      var (before, record) := (MatchingAnswers(pton, records[..|records| - 1], q), records[|records| - 1]);
      if RecordName(record) != q.name then before else before + RecordAnswers(pton, q.qtype, record)
  }

  /** Some entry parses to the answer's data. */
  ghost predicate Holds(pton: Pton, rtype: nat, entries: seq<Option<string>>, data: seq<Byte>) {
    exists e :: e in entries && e.Some? && pton(rtype, e.value) == Some(data)
  }

  /** The record holds the answer under a type that was asked for. */
  ghost predicate Wanted(pton: Pton, qtype: nat, record: LocalRecord, a: Answer) {
    || (a.rtype == TYPE_A && qtype in {TYPE_A, TYPE_ANY} && Holds(pton, TYPE_A, record.a, a.rdata))
    || (a.rtype == TYPE_AAAA && qtype in {TYPE_AAAA, TYPE_ANY} && Holds(pton, TYPE_AAAA, record.aaaa, a.rdata))
  }

  lemma {:induction false} AddressAnswersMembers(pton: Pton, rtype: nat, entries: seq<Option<string>>, a: Answer)
    ensures a in AddressAnswers(pton, rtype, entries) <==> a.rtype == rtype && Holds(pton, rtype, entries, a.rdata)
  {
    if entries != [] {
      var (rest, last) := (entries[..|entries| - 1], entries[|entries| - 1]);
      AddressAnswersMembers(pton, rtype, rest, a);
      assert forall e :: e in entries <==> e in rest || e == last by {
        assert entries == rest + [last];
      }
    }
  }

  /** The answers are exactly what the records of the queried name hold under the types asked for. */
  lemma {:induction false} MatchingAnswersMembers(pton: Pton, records: seq<LocalRecord>, q: ParsedQuestion, a: Answer)
    ensures a in MatchingAnswers(pton, records, q) <==>
              exists record :: record in records && RecordName(record) == q.name && Wanted(pton, q.qtype, record, a)
  {
    hide RecordName, Holds;
    if records != [] {
      var (rest, last) := (records[..|records| - 1], records[|records| - 1]);
      MatchingAnswersMembers(pton, rest, q, a);
      AddressAnswersMembers(pton, TYPE_A, last.a, a);
      AddressAnswersMembers(pton, TYPE_AAAA, last.aaaa, a);
      assert forall r :: r in records <==> r in rest || r == last by {
        assert records == rest + [last];
      }
    }
  }

  method AddAddressAnswers(pton: Pton, answers0: seq<Answer>, rtype: nat, entries: seq<Option<string>>)
      returns (answers: seq<Answer>)
    ensures answers == answers0 + AddressAnswers(pton, rtype, entries)
  {
    answers := answers0;
    for i := 0 to |entries|
      invariant answers == answers0 + AddressAnswers(pton, rtype, entries[..i])
    {
      assert entries[..i + 1][..i] == entries[..i];
      if entries[i].Some? {
        var data := pton(rtype, entries[i].value);
        if data.Some? {
          answers := answers + [Answer(rtype, data.value)];
        }
      }
    }
    assert entries[..|entries|] == entries;
  }

  method AddRecordAnswers(pton: Pton, answers0: seq<Answer>, qtype: nat, record: LocalRecord)
      returns (answers: seq<Answer>)
    ensures answers == answers0 + RecordAnswers(pton, qtype, record)
  {
    answers := answers0;
    if qtype in {TYPE_A, TYPE_ANY} {
      answers := AddAddressAnswers(pton, answers, TYPE_A, record.a);
    }
    if qtype in {TYPE_AAAA, TYPE_ANY} {
      answers := AddAddressAnswers(pton, answers, TYPE_AAAA, record.aaaa);
    }
  }

  predicate Packable(answers: seq<Answer>) {
    forall i | 0 <= i < |answers| :: answers[i].rtype < 0x1_0000 && |answers[i].rdata| < 0x1_0000
  }

  function AnswerBytes(owner: seq<Byte>, qclass: nat, answer: Answer): seq<Byte>
    requires qclass < 0x1_0000 && answer.rtype < 0x1_0000 && |answer.rdata| < 0x1_0000
  {
    owner + (Pack16(answer.rtype) + Pack16(qclass) + Pack32(60) + Pack16(|answer.rdata|)) + answer.rdata
  }

  function BodyBytes(owner: seq<Byte>, qclass: nat, answers: seq<Answer>): seq<Byte>
    requires qclass < 0x1_0000 && Packable(answers)
  {
    if answers == [] then []
    else BodyBytes(owner, qclass, answers[..|answers| - 1]) + AnswerBytes(owner, qclass, answers[|answers| - 1])
  }

  /** Identifier and question count of the query, response flags, the answer count, the question, the answers. */
  function ResponseBytes(query: seq<Byte>, q: ParsedQuestion, owner: seq<Byte>, answers: seq<Answer>): seq<Byte>
    requires |query| >= 12 && q.qclass < 0x1_0000 && Packable(answers) && |answers| < 0x1_0000
  {
    query[..2] + [0x81, 0x80] + query[4..6] + (Pack16(|answers|) + [0, 0, 0, 0]) + q.wire
    + BodyBytes(owner, q.qclass, answers)
  }

  datatype AnswerError = TooManyAnswers

  lemma {:induction false} AddressAnswersPackable(pton: Pton, rtype: nat, entries: seq<Option<string>>)
    requires IsPton(pton) && rtype < 0x1_0000
    ensures Packable(AddressAnswers(pton, rtype, entries))
  {
    if entries != [] { AddressAnswersPackable(pton, rtype, entries[..|entries| - 1]); }
  }

  lemma {:induction false} MatchingAnswersPackable(pton: Pton, records: seq<LocalRecord>, q: ParsedQuestion)
    requires IsPton(pton)
    ensures Packable(MatchingAnswers(pton, records, q))
  {
    if records != [] {
      MatchingAnswersPackable(pton, records[..|records| - 1], q);
      AddressAnswersPackable(pton, TYPE_A, records[|records| - 1].a);
      AddressAnswersPackable(pton, TYPE_AAAA, records[|records| - 1].aaaa);
    }
  }

  lemma QuestionFields(query: seq<Byte>)
    requires QuestionAt(query).Some?
    ensures DecodeName(query, 12).Some? && |query| >= 12
    ensures var (labels, next) := DecodeName(query, 12).value;
            && PlainName(labels) && QuestionAt(query).value.name == NameText(labels)
            && QuestionAt(query).value.qtype < 0x1_0000 && QuestionAt(query).value.qclass < 0x1_0000
            && next + 4 <= |query| && QuestionAt(query).value.wire == query[12..next + 4]
            && QuestionAt(query).value.qtype == U16(query, next)
            && QuestionAt(query).value.qclass == U16(query, next + 2)
  {
    DecodedNameStands(query, 12);
  }

  /**
   * No answer for an unreadable query or one without local records; otherwise the
   * response for all matching answers, whose owner can always be encoded.
   */
  predicate IsLocalAnswer(
      pton: Pton, records: seq<LocalRecord>, query: seq<Byte>, r: Result<Option<seq<Byte>>, AnswerError>)
  {
    match QuestionAt(query)
    case None => r == Ok(None)
    case Some(q) =>
      var answers := MatchingAnswers(pton, records, q);
      if answers == [] then r == Ok(None)
      else if |answers| >= 0x1_0000 then r == Err(TooManyAnswers)
      else
        && EncodedName(q.name).Ok? && |query| >= 12 && q.qclass < 0x1_0000 && Packable(answers)
        && r == Ok(Some(ResponseBytes(query, q, EncodedName(q.name).value, answers)))
  }

  method LocalAnswer(pton: Pton, records: seq<LocalRecord>, query: seq<Byte>)
      returns (r: Result<Option<seq<Byte>>, AnswerError>)
    requires IsPton(pton)
    ensures IsLocalAnswer(pton, records, query, r)
  {
    hide MatchingAnswers, QuestionAt, EncodedName, BodyBytes, Packable;
    var question := ParseQuestion(query);
    if question.None? {
      return Ok(None);
    }
    var q := question.value;
    var answers := CollectAnswers(pton, records, q);
    if answers == [] {
      return Ok(None);
    }
    QuestionFields(query);
    ParsedNameEncodes(DecodeName(query, 12).value.0);
    MatchingAnswersPackable(pton, records, q);
    var body := AssembleBody(q.name, q.qclass, answers);
    if |answers| >= 0x1_0000 {
      return Err(TooManyAnswers);
    }
    return Ok(Some(query[..2] + [0x81, 0x80] + query[4..6] + (Pack16(|answers|) + [0, 0, 0, 0]) + q.wire + body));
  }

  /** The loop over the local records. */
  method CollectAnswers(pton: Pton, records: seq<LocalRecord>, q: ParsedQuestion) returns (answers: seq<Answer>)
    ensures answers == MatchingAnswers(pton, records, q)
  {
    answers := [];
    for i := 0 to |records|
      invariant answers == MatchingAnswers(pton, records[..i], q)
    {
      assert records[..i + 1][..i] == records[..i];
      if RecordName(records[i]) == q.name {
        answers := AddRecordAnswers(pton, answers, q.qtype, records[i]);
      }
    }
    assert records[..|records|] == records;
  }

  /** The loop over the answers; the owner is encoded anew for each. */
  method AssembleBody(name: string, qclass: nat, answers: seq<Answer>) returns (body: seq<Byte>)
    requires EncodedName(name).Ok? && qclass < 0x1_0000 && Packable(answers)
    ensures body == BodyBytes(EncodedName(name).value, qclass, answers)
  {
    hide EncodedName;
    body := [];
    for i := 0 to |answers|
      invariant body == BodyBytes(EncodedName(name).value, qclass, answers[..i])
    {
      assert answers[..i + 1][..i] == answers[..i];
      var owner := EncodeName(name);
      body := body + AnswerBytes(owner.value, qclass, answers[i]);
    }
    assert answers[..|answers|] == answers;
  }

  // --------------------------------------------------- what a resolver reads from it

  /** The resource records a resolver must see: every answer, owned by the lower-cased name. */
  function ExpectedRecords(owner: seq<Label>, qclass: nat, answers: seq<Answer>): seq<Record> {
    seq(|answers|, i requires 0 <= i < |answers| => Record(owner, answers[i].rtype, qclass, 60, answers[i].rdata))
  }

  lemma {:induction false} WireRecordsAppend(rs: seq<Record>, r: Record)
    requires AllEncodable(rs) && Encodable(r)
    ensures WireRecords(rs + [r]) == WireRecords(rs) + WireRecord(r)
  {
    if rs == [] {
      assert [] + [r] == [r] && [r][1..] == [];
    } else {
      assert (rs + [r])[1..] == rs[1..] + [r];
      WireRecordsAppend(rs[1..], r);
    }
  }

  lemma {:induction false} BodyIsWireRecords(owner: seq<Label>, qclass: nat, answers: seq<Answer>)
    requires PlainName(owner) && qclass < 0x1_0000 && Packable(answers)
    ensures AllEncodable(ExpectedRecords(owner, qclass, answers))
    ensures BodyBytes(WireName(owner), qclass, answers) == WireRecords(ExpectedRecords(owner, qclass, answers))
    decreases |answers|
  {
    if answers != [] {
      var (rest, last) := (answers[..|answers| - 1], answers[|answers| - 1]);
      var r := Record(owner, last.rtype, qclass, 60, last.rdata);
      BodyIsWireRecords(owner, qclass, rest);
      assert ExpectedRecords(owner, qclass, answers) == ExpectedRecords(owner, qclass, rest) + [r];
      WireRecordsAppend(ExpectedRecords(owner, qclass, rest), r);
    }
  }

  /**
   * For a query with one question whose labels are dot-free ASCII, the response decodes
   * under section 4.1 of RFC 1035 to the query's identifier, its question unchanged, and
   * exactly the matching answers owned by the lower-cased name, with no octet left over.
   */
  lemma LocalAnswerDecodes(query: seq<Byte>, answers: seq<Answer>)
    requires QuestionAt(query).Some? && U16(query, 4) == 1
    requires AllClean(DecodeName(query, 12).value.0)
    requires Packable(answers) && |answers| < 0x1_0000
    ensures DecodeName(query, 12).Some? && QuestionAt(query).value.qclass < 0x1_0000
    ensures EncodedName(QuestionAt(query).value.name).Ok?
    ensures var q := QuestionAt(query).value;
            var labels := DecodeName(query, 12).value.0;
            DecodeMessage(ResponseBytes(query, q, EncodedName(q.name).value, answers))
            == Some(Message(U16(query, 0), 0x8180, [Question(labels, q.qtype, q.qclass)],
                            ExpectedRecords(LowerLabels(labels), q.qclass, answers), [], []))
  {
    QuestionFields(query);
    var q, labels := QuestionAt(query).value, DecodeName(query, 12).value.0;
    CleanNameEncodes(labels);
    var owner := LowerLabels(labels);
    assert PlainName(owner) by {
      assert forall i | 0 <= i < |labels| :: PlainLabel(labels[i]);
    }
    ResponseDecodes(query, q, labels, owner, answers);
  }

  lemma ResponseDecodes(query: seq<Byte>, q: ParsedQuestion, labels: seq<Label>, owner: seq<Label>,
                        answers: seq<Answer>)
    requires QuestionAt(query) == Some(q) && DecodeName(query, 12).Some? && DecodeName(query, 12).value.0 == labels
    requires |query| >= 12 && U16(query, 4) == 1 && q.qclass < 0x1_0000
    requires PlainName(owner) && Packable(answers) && |answers| < 0x1_0000
    ensures DecodeMessage(ResponseBytes(query, q, WireName(owner), answers))
         == Some(Message(U16(query, 0), 0x8180, [Question(labels, q.qtype, q.qclass)],
                         ExpectedRecords(owner, q.qclass, answers), [], []))
  {
    hide Stands, DecodeName, QuestionAt, DecodeRecords, DecodeQuestion, DecodeMessage, U16, WireRecords;
    hide Encodable, WireName;
    BodyIsWireRecords(owner, q.qclass, answers);
    var records := ExpectedRecords(owner, q.qclass, answers);
    var m, body := ResponseBytes(query, q, WireName(owner), answers), WireRecords(records);
    var header := query[..2] + [0x81, 0x80] + query[4..6] + (Pack16(|answers|) + [0, 0, 0, 0]);
    assert m == header + (q.wire + body);
    HeaderReads(m, query, |answers|, q.wire + body);
    RestStands(m, header, q.wire + body);
    StandsSplit(m, 12, q.wire, body);
    QuestionCopied(query, m);
    RecordsDecode(m, 12 + |q.wire|, records);
    MessageDecodes(m, Question(labels, q.qtype, q.qclass), records, 12 + |q.wire|);
  }

  lemma RestStands(m: seq<Byte>, header: seq<Byte>, rest: seq<Byte>)
    requires m == header + rest
    ensures Stands(m, |header|, rest)
  {
  }

  lemma HeaderReads(m: seq<Byte>, query: seq<Byte>, count: nat, rest: seq<Byte>)
    requires |query| >= 12 && count < 0x1_0000
    requires m == query[..2] + [0x81, 0x80] + query[4..6] + (Pack16(count) + [0, 0, 0, 0]) + rest
    ensures |m| == 12 + |rest|
    ensures U16(m, 0) == U16(query, 0) && U16(m, 2) == 0x8180 && U16(m, 4) == U16(query, 4)
    ensures U16(m, 6) == count && U16(m, 8) == 0 && U16(m, 10) == 0
  {
  }

  lemma AdjacentSlices(m: seq<Byte>, a: nat, b: nat, c: nat)
    requires a <= b <= c <= |m|
    ensures m[a..c] == m[a..b] + m[b..c]
  {
  }

  lemma QuestionWire(query: seq<Byte>)
    requires QuestionAt(query).Some?
    ensures DecodeName(query, 12).Some?
    ensures var (labels, next) := DecodeName(query, 12).value;
            && next + 4 <= |query| && next == 12 + |WireName(labels)|
            && QuestionAt(query).value.wire == WireName(labels) + query[next..next + 4]
  {
    hide Stands, DecodeName, QuestionAt, WireName, U16, PlainName;
    QuestionFields(query);
    DecodedNameStands(query, 12);
    var (labels, next) := DecodeName(query, 12).value;
    StandsSlice(query, 12, WireName(labels));
    AdjacentSlices(query, 12, next, next + 4);
  }

  /** The question section of the response is the query's, octet for octet. */
  lemma QuestionCopied(query: seq<Byte>, m: seq<Byte>)
    requires QuestionAt(query).Some? && Stands(m, 12, QuestionAt(query).value.wire)
    ensures DecodeName(query, 12).Some?
    ensures var q := QuestionAt(query).value;
            DecodeQuestion(m, 12)
            == Some((Question(DecodeName(query, 12).value.0, q.qtype, q.qclass), 12 + |q.wire|))
  {
    hide Stands, DecodeName, QuestionAt, WireName, U16, PlainName;
    QuestionFields(query);
    QuestionWire(query);
    var (labels, next) := DecodeName(query, 12).value;
    var name, fixed := WireName(labels), query[next..next + 4];
    StandsSplit(m, 12, name, fixed);
    NameDecodes(m, 12, labels);
    StandsSlice(m, next, fixed);
    CopiedFields(m, next, query, next);
  }

  // -------------------------------------------------- which names survive the response

  /** The message a resolver should read: the query's question, and its local answers under the lower-cased name. */
  function ExpectedMessage(pton: Pton, records: seq<LocalRecord>, query: seq<Byte>): Message
    requires |query| >= 12 && QuestionAt(query).Some? && DecodeName(query, 12).Some?
  {
    var (q, labels) := (QuestionAt(query).value, DecodeName(query, 12).value.0);
    Message(U16(query, 0), 0x8180, [Question(labels, q.qtype, q.qclass)],
            ExpectedRecords(LowerLabels(labels), q.qclass, MatchingAnswers(pton, records, q)), [], [])
  }

  /**
   * The local answer to a query with one question decodes to the expected message if and
   * only if every label of the queried name is dot-free ASCII.
   */
  lemma LocalAnswerDecodesIff(pton: Pton, records: seq<LocalRecord>, query: seq<Byte>, bytes: seq<Byte>)
    requires IsPton(pton) && IsLocalAnswer(pton, records, query, Ok(Some(bytes))) && U16(query, 4) == 1
    ensures DecodeName(query, 12).Some?
    ensures DecodeMessage(bytes) == Some(ExpectedMessage(pton, records, query))
       <==> AllClean(DecodeName(query, 12).value.0)
  {
    QuestionFields(query);
    var (q, labels) := (QuestionAt(query).value, DecodeName(query, 12).value.0);
    var answers := MatchingAnswers(pton, records, q);
    hide MatchingAnswers, QuestionAt, DecodeName, IsPton;
    if AllClean(labels) {
      LocalAnswerDecodes(query, answers);
    } else if DecodeMessage(bytes) == Some(ExpectedMessage(pton, records, query)) {
      OwnerIsClean(query, answers);
      CleanWhenLowered(labels);
      assert false;
    }
  }

  /** The owner that a resolver reads from the first answer always consists of dot-free ASCII labels. */
  lemma OwnerIsClean(query: seq<Byte>, answers: seq<Answer>)
    requires QuestionAt(query).Some? && U16(query, 4) == 1
    requires answers != [] && Packable(answers) && |answers| < 0x1_0000
    ensures EncodedName(QuestionAt(query).value.name).Ok? && QuestionAt(query).value.qclass < 0x1_0000
    ensures (var q := QuestionAt(query).value;
             var read := DecodeMessage(ResponseBytes(query, q, EncodedName(q.name).value, answers));
             read.Some? ==> read.value.answers != [] && AllClean(read.value.answers[0].owner))
  {
    hide Stands, DecodeName, QuestionAt, U16, WireName, BodyBytes, EncodedName, DecodeMessage, DecodeRecords;
    hide AllClean, PlainName, Short, Split, StripDots, NameText, Pack16;
    QuestionFields(query);
    var q, labels := QuestionAt(query).value, DecodeName(query, 12).value.0;
    ParsedNameEncodes(labels);
    var bytes := ResponseBytes(query, q, EncodedName(q.name).value, answers);
    var owner := EncodedName(q.name).value;
    var header := query[..2] + [0x81, 0x80] + query[4..6] + (Pack16(|answers|) + [0, 0, 0, 0]);
    var body := BodyBytes(owner, q.qclass, answers);
    assert bytes == header + (q.wire + body);
    HeaderReads(bytes, query, |answers|, q.wire + body);
    RestStands(bytes, header, q.wire + body);
    StandsSplit(bytes, 12, q.wire, body);
    QuestionCopied(query, bytes);
    BodyStartsWithOwner(owner, q.qclass, answers);
    StandsSplit(bytes, 12 + |q.wire|, owner, body[|owner|..]);
    assert owner + body[|owner|..] == body;
    EncodedNameReadsClean(bytes, 12 + |q.wire|, labels, owner);
    hide DecodeQuestion, ResponseBytes;
    FirstRecordOwner(bytes, 12 + |q.wire|, |answers|);
  }

  lemma FirstRecordOwner(m: seq<Byte>, at: nat, count: nat)
    requires |m| >= 12 && U16(m, 4) == 1 && U16(m, 6) == count > 0
    requires DecodeQuestion(m, 12).Some? && DecodeQuestion(m, 12).value.1 == at
    ensures DecodeMessage(m).Some? ==>
              (var records := DecodeMessage(m).value.answers;
               DecodeName(m, at).Some? && records != [] && records[0].owner == DecodeName(m, at).value.0)
  {
    hide DecodeQuestion, DecodeName, U16, U32;
    assert DecodeQuestions(m, DecodeQuestion(m, 12).value.1, 0).Some?;
    if DecodeMessage(m).Some? {
      assert DecodeRecords(m, at, count).Some?;
      assert DecodeRecords(m, at, count).value.0 == DecodeMessage(m).value.answers;
    }
  }

  lemma BodyStartsWithOwner(owner: seq<Byte>, qclass: nat, answers: seq<Answer>)
    requires qclass < 0x1_0000 && Packable(answers) && answers != []
    ensures owner <= BodyBytes(owner, qclass, answers)
    decreases |answers|
  {
    var rest := answers[..|answers| - 1];
    if rest != [] {
      BodyStartsWithOwner(owner, qclass, rest);
    } else {
      assert BodyBytes(owner, qclass, rest) == [];
    }
  }

  /** An encoded name decodes to labels that are parts of its text, as far as the first empty part. */
  lemma EncodedNameReadsClean(m: seq<Byte>, at: nat, labels: seq<Label>, owner: seq<Byte>)
    requires PlainName(labels) && EncodedName(NameText(labels)) == Ok(owner) && Stands(m, at, owner)
    ensures DecodeName(m, at).Some? && AllClean(DecodeName(m, at).value.0)
  {
    ParsedNameEncodes(labels);
    var text := StripDots(NameText(labels));
    if text == "" {
      assert WireName([]) == [0];
      PartsReadClean(m, at, []);
    } else {
      EncodeShortParts(Split(text));
      PartsReadClean(m, at, Split(text));
    }
  }

  lemma {:induction false} PartsReadClean(m: seq<Byte>, at: nat, parts: seq<string>)
    requires Short(parts) && Stands(m, at, WireName(OctetParts(parts)))
    ensures DecodeName(m, at).Some? && AllClean(DecodeName(m, at).value.0)
    decreases |parts|
  {
    var labels := OctetParts(parts);
    if parts == [] || parts[0] == "" {
      var rest := if parts == [] then [] else WireName(labels[1..]);
      assert WireName(labels) == [0] + rest;
      StandsSplit(m, at, [0], rest);
      StandsByte(m, at, 0);
    } else {
      hide Stands, WireName;
      assert OctetParts(parts)[1..] == OctetParts(parts[1..]);
      assert PlainLabel(labels[0]) && Clean(labels[0]);
      NameStepDecodes(m, at, labels[0], labels[1..]);
      PartsReadClean(m, at + 1 + |labels[0]|, parts[1..]);
    }
  }

  lemma CleanWhenLowered(labels: seq<Label>)
    requires AllClean(LowerLabels(labels))
    ensures AllClean(labels)
  {
    forall i, j | 0 <= i < |labels| && 0 <= j < |labels[i]|
      ensures labels[i][j] < 128 && labels[i][j] != 46
    {
      assert Clean(LowerLabels(labels)[i]);
      assert LowerLabels(labels)[i][j] == LowerOctet(labels[i][j]);
    }
  }

  /** A question of type A whose only label is the three octets of "a.b", and a record of that name. */
  const DOTTED_QUERY: seq<Byte> := [0, 1, 1, 0, 0, 1, 0, 0, 0, 0, 0, 0, 3, 97, 46, 98, 0, 0, 1, 0, 1]
  const DOTTED_RECORD := LocalRecord("a.b", [Some("10.0.0.1")], [])

  /** The proxy answers it, and the answer does not decode to what the query asked for. */
  lemma DottedLabelIsLost(pton: Pton) returns (bytes: seq<Byte>)
    requires IsPton(pton) && pton(TYPE_A, "10.0.0.1") == Some([10, 0, 0, 1])
    ensures IsLocalAnswer(pton, [DOTTED_RECORD], DOTTED_QUERY, Ok(Some(bytes)))
    ensures DecodeName(DOTTED_QUERY, 12).Some?
    ensures DecodeMessage(bytes) != Some(ExpectedMessage(pton, [DOTTED_RECORD], DOTTED_QUERY))
  {
    hide QuestionAt, MatchingAnswers, DecodeName, EncodedName, ResponseBytes, DecodeMessage, U16;
    hide PlainName, NameText, Short, Split, StripDots;
    var labels: seq<Label> := [[97, 46, 98]];
    DottedQuestion();
    QuestionFields(DOTTED_QUERY);
    ParsedNameEncodes(labels);
    DottedAnswers(pton);
    var q := QuestionAt(DOTTED_QUERY).value;
    var answers := [Answer(TYPE_A, [10, 0, 0, 1])];
    hide DOTTED_QUERY, DOTTED_RECORD, IsPton;
    bytes := ResponseBytes(DOTTED_QUERY, q, EncodedName(q.name).value, answers);
    assert labels[0][1] == 46 && !Clean(labels[0]);
    LocalAnswerDecodesIff(pton, [DOTTED_RECORD], DOTTED_QUERY, bytes);
  }

  lemma DottedQuestion()
    ensures DecodeName(DOTTED_QUERY, 12) == Some(([[97, 46, 98]], 17))
    ensures QuestionAt(DOTTED_QUERY).Some? && QuestionAt(DOTTED_QUERY).value.name == "a.b."
    ensures QuestionAt(DOTTED_QUERY).value.qtype == TYPE_A && U16(DOTTED_QUERY, 4) == 1
  {
    var query := DOTTED_QUERY;
    assert DecodeName(query, 16) == Some(([], 17));
    assert query[13..16] == [97, 46, 98];
    assert [query[13..16]] + [] == [[97, 46, 98]];
    var part: Label := [97, 46, 98];
    assert part[1..] == [46, 98] && [46, 98][1..] == [98] && [98][1..] == [];
    assert TextOfLabel([98]) == "b" && TextOfLabel([46, 98]) == ".b" && TextOfLabel(part) == "a.b";
    assert TextsOf([part]) == ["a.b"];
    assert Join(["a.b"]) == "a.b";
  }

  lemma DottedAnswers(pton: Pton)
    requires pton(TYPE_A, "10.0.0.1") == Some([10, 0, 0, 1])
    requires QuestionAt(DOTTED_QUERY).Some? && QuestionAt(DOTTED_QUERY).value.name == "a.b."
    requires QuestionAt(DOTTED_QUERY).value.qtype == TYPE_A
    ensures MatchingAnswers(pton, [DOTTED_RECORD], QuestionAt(DOTTED_QUERY).value) == [Answer(TYPE_A, [10, 0, 0, 1])]
  {
    hide QuestionAt;
    var entries := DOTTED_RECORD.a;
    assert entries[..0] == [] && [DOTTED_RECORD][..0] == [];
    assert AddressAnswers(pton, TYPE_A, entries) == [Answer(TYPE_A, [10, 0, 0, 1])];
    assert StripDots("a.b") == "a.b" && Lower("a.b") == "a.b" && RecordName(DOTTED_RECORD) == "a.b.";
  }
}
