/** The question and resource-record sections of a message (sections 4.1.2 and 4.1.3 of
    RFC 1035): parse_dns_questions, dns_questions_to_buffer, parse_dns_records and
    dns_records_to_buffer of lib/src/celest_dns.c:267-389.

    Each decoder is specified by a function that takes the entries one after the other from
    a cursor and gives the entries and the cursor after the last one; each encoder by a
    function that gives the bytes written from a cursor on. The entries are defined from the
    last one back, as the source's loops build them up from the first one forward. */
module Sections {
  import opened Wire
  import opened Header
  import opened Names

  /** The UDP message limit of section 2.3.4 of RFC 1035: dns_message_to_buffer's buffer. */
  const MaxDnsMessageSize: nat := 512

  /** A question: its name as the dotted string, the type and the class. */
  datatype DnsQuestion = DnsQuestion(domain: seq<u8>, qType: u16, qClass: u16)

  /** A resource record; `rData` holds the `rdLength` bytes of data. */
  datatype DnsRecord = DnsRecord(domain: seq<u8>, rType: u16, rClass: u16, ttl: u32,
                                 rdLength: u16, rData: seq<u8>)

  /** What a section decoder reports: the index of the last byte it consumed, which is one
      less than the cursor after the section. */
  function EndIndex<T>(r: Result<(seq<T>, nat)>): Result<int> {
    match r
    case Ok((_, next)) => Ok(next - 1)
    case Err(e) => Err(e)
  }

  lemma EndIndexErr<T>(r: Result<(seq<T>, nat)>, e: Error)
    requires r == Err(e)
    ensures EndIndex(r) == Err(e)
  {
  }

  lemma EndIndexOk<T>(r: Result<(seq<T>, nat)>, entries: seq<T>, next: nat)
    requires r == Ok((entries, next))
    ensures EndIndex(r) == Ok(next - 1)
  {
  }

  // ---------------------------------------------------------------------------------------
  // Decoding.

  /** The name at `pos`, and the cursor just after it in place. The size calc_domain_size
      reports, the name and its terminator, must not exceed MaxDomainSize + 1. */
  function DecodeName(buf: seq<u8>, pos: nat): (r: Result<(seq<u8>, nat)>)
    ensures r.Ok? ==> pos < r.value.1 <= |buf| && |r.value.0| <= MaxDomainSize
  {
    match Labels(buf, pos, pos)
    case Err(e) => Err(e)
    case Ok(labels) =>
      RunEndInBounds(buf, pos, pos);
      if |Join(labels)| + 1 > MaxDomainSize + 1 then Err(NameTooLong)
      else Ok((Join(labels), RunEnd(buf, pos) + 1))
  }

  /** One question: the name, then the type and the class, two bytes each. */
  function DecodeQuestion(buf: seq<u8>, pos: nat): (r: Result<(DnsQuestion, nat)>)
    ensures r.Ok? ==> pos + 5 <= r.value.1 <= |buf|
  {
    match DecodeName(buf, pos)
    case Err(e) => Err(e)
    case Ok((name, next)) =>
      if next + 4 > |buf| then Err(Truncated)
      else Ok((DnsQuestion(name, BigEndianCharsToU16(buf, next), BigEndianCharsToU16(buf, next + 2)),
               next + 4))
  }

  /** `count` questions from `pos` on, each starting where the one before ended. */
  function DecodeQuestions(buf: seq<u8>, pos: nat, count: nat): (r: Result<(seq<DnsQuestion>, nat)>)
    ensures r.Ok? ==> |r.value.0| == count && pos + 5 * count <= r.value.1
    ensures r.Ok? && count > 0 ==> r.value.1 <= |buf|
  {
    if count == 0 then Ok(([], pos))
    else
      match DecodeQuestions(buf, pos, count - 1)
      case Err(e) => Err(e)
      case Ok((front, next)) =>
        match DecodeQuestion(buf, next)
        case Err(e) => Err(e)
        case Ok((q, end)) => Ok((front + [q], end))
  }

  /** One record: the name; type, class, TTL and data length (2, 2, 4 and 2 bytes); then as
      many bytes of data as the length says. The TTL keeps all 32 bits. */
  function DecodeRecord(buf: seq<u8>, pos: nat): (r: Result<(DnsRecord, nat)>)
    ensures r.Ok? ==> |r.value.0.rData| == r.value.0.rdLength as int
    ensures r.Ok? ==> pos + 11 + r.value.0.rdLength as int <= r.value.1 <= |buf|
  {
    match DecodeName(buf, pos)
    case Err(e) => Err(e)
    case Ok((name, next)) =>
      if next + 10 > |buf| then Err(Truncated)
      else
        var rdLength := BigEndianCharsToU16(buf, next + 8);
        var end := next + 10 + rdLength;
        if end > |buf| then Err(Truncated)
        else Ok((DnsRecord(name, BigEndianCharsToU16(buf, next), BigEndianCharsToU16(buf, next + 2),
                           BigEndianCharsToU32(buf, next + 4), rdLength, buf[next + 10..end]),
                 end))
  }

  /** `count` records from `pos` on. */
  function DecodeRecords(buf: seq<u8>, pos: nat, count: nat): (r: Result<(seq<DnsRecord>, nat)>)
    ensures r.Ok? ==> |r.value.0| == count && pos + 11 * count <= r.value.1
    ensures r.Ok? && count > 0 ==> r.value.1 <= |buf|
  {
    if count == 0 then Ok(([], pos))
    else
      match DecodeRecords(buf, pos, count - 1)
      case Err(e) => Err(e)
      case Ok((front, next)) =>
        match DecodeRecord(buf, next)
        case Err(e) => Err(e)
        case Ok((rec, end)) => Ok((front + [rec], end))
  }

  /** Once an entry fails to decode, so does every longer section. */
  lemma {:induction false} QuestionsErrPersists(buf: seq<u8>, pos: nat, k: nat, n: nat)
    requires k <= n && DecodeQuestions(buf, pos, k).Err?
    ensures DecodeQuestions(buf, pos, n) == DecodeQuestions(buf, pos, k)
    decreases n
  {
    if n > k {
      QuestionsErrPersists(buf, pos, k, n - 1);
    }
  }

  lemma {:induction false} RecordsErrPersists(buf: seq<u8>, pos: nat, k: nat, n: nat)
    requires k <= n && DecodeRecords(buf, pos, k).Err?
    ensures DecodeRecords(buf, pos, n) == DecodeRecords(buf, pos, k)
    decreases n
  {
    if n > k {
      RecordsErrPersists(buf, pos, k, n - 1);
    }
  }

  /** One more question after `n` decoded ones: it is appended, or its error is the
      section's. */
  lemma QuestionsStep(buf: seq<u8>, pos: nat, n: nat, front: seq<DnsQuestion>, index: nat)
    requires DecodeQuestions(buf, pos, n) == Ok((front, index))
    ensures DecodeQuestion(buf, index).Err? ==>
              DecodeQuestions(buf, pos, n + 1) == Err(DecodeQuestion(buf, index).error)
    ensures DecodeQuestion(buf, index).Ok? ==>
              DecodeQuestions(buf, pos, n + 1)
              == Ok((front + [DecodeQuestion(buf, index).value.0], DecodeQuestion(buf, index).value.1))
  {
  }

  /** One more record after `n` decoded ones. */
  lemma RecordsStep(buf: seq<u8>, pos: nat, n: nat, front: seq<DnsRecord>, index: nat)
    requires DecodeRecords(buf, pos, n) == Ok((front, index))
    ensures DecodeRecord(buf, index).Err? ==>
              DecodeRecords(buf, pos, n + 1) == Err(DecodeRecord(buf, index).error)
    ensures DecodeRecord(buf, index).Ok? ==>
              DecodeRecords(buf, pos, n + 1)
              == Ok((front + [DecodeRecord(buf, index).value.0], DecodeRecord(buf, index).value.1))
  {
  }

  /** The question count parse_dns_questions reads from bytes 4-5 of the header. */
  function QuestionCount(buf: seq<u8>): nat
    requires |buf| >= DnsHeaderSize
  {
    BigEndianCharsToU16(buf, 4)
  }

  /** parse_dns_questions: reads the question count from bytes 4-5 and fills the caller's
      array from offset 12 on. Entry `i` goes to slot `i`; see SlotAsWritten for where the
      source puts it. */
  method ParseDnsQuestions(buf: seq<u8>, questions: array<DnsQuestion>) returns (r: Result<int>)
    requires |buf| >= DnsHeaderSize
    requires questions.Length == QuestionCount(buf)
    modifies questions
    ensures r == EndIndex(DecodeQuestions(buf, DnsHeaderSize, questions.Length))
    ensures r.Ok? ==> questions[..] == DecodeQuestions(buf, DnsHeaderSize, questions.Length).value.0
  {
    var count: nat := QuestionCount(buf);
    var index: nat := DnsHeaderSize;
    var i: nat := 0;
    ghost var front: seq<DnsQuestion> := [];
    while i < count
      invariant i <= count == questions.Length
      invariant questions[..i] == front
      invariant DecodeQuestions(buf, DnsHeaderSize, i) == Ok((front, index))
    {
      var taken := ParseDnsQuestion(buf, index);
      QuestionsStep(buf, DnsHeaderSize, i, front, index);
      if taken.Err? {
        QuestionsErrPersists(buf, DnsHeaderSize, i + 1, count);
        EndIndexErr(DecodeQuestions(buf, DnsHeaderSize, count), taken.error);
        return Err(taken.error);
      }
      questions[i] := taken.value.0;
      front := front + [taken.value.0];
      index := taken.value.1;
      assert questions[..i + 1] == front;
      i := i + 1;
    }
    assert questions[..] == front;
    EndIndexOk(DecodeQuestions(buf, DnsHeaderSize, count), front, index);
    return Ok(index - 1);
  }

  /** The name every turn of parse_dns_questions' and parse_dns_records' loops reads first:
      calc_domain_size, the size check, retrieve_domain, and the step past the name's last
      byte. The result is the name and the cursor after it. */
  method ParseDomain(buf: seq<u8>, index: nat) returns (r: Result<(seq<u8>, nat)>)
    ensures r == DecodeName(buf, index)
  {
    var size := CalcDomainSize(buf, index);
    if size.Err? {
      return Err(size.error);
    }
    if size.value > MaxDomainSize + 1 {
      return Err(NameTooLong);
    }
    var retrieved := RetrieveDomain(buf, index);
    RunEndInBounds(buf, index, index);
    return Ok((retrieved.value.0, retrieved.value.1 + 1));
  }

  /** One turn of parse_dns_questions' loop: the name, the type and the class, from `index`
      on; the result is the question and the cursor after it. */
  method ParseDnsQuestion(buf: seq<u8>, index: nat) returns (r: Result<(DnsQuestion, nat)>)
    ensures r == DecodeQuestion(buf, index)
  {
    var name := ParseDomain(buf, index);
    if name.Err? {
      return Err(name.error);
    }
    var domain, next := name.value.0, name.value.1;
    if next + 4 > |buf| {
      return Err(Truncated);
    }
    var qType := BigEndianCharsToU16(buf, next);
    next := next + 2;
    var qClass := BigEndianCharsToU16(buf, next);
    next := next + 2;
    return Ok((DnsQuestion(domain, qType, qClass), next));
  }

  /** parse_dns_records: `count` records from `start` on into the caller's array. The count
      is the 16-bit header field, taken as a number. */
  method ParseDnsRecords(buf: seq<u8>, records: array<DnsRecord>, start: nat, count: nat)
    returns (r: Result<int>)
    requires count < 65536 && records.Length == count
    modifies records
    ensures r == EndIndex(DecodeRecords(buf, start, count))
    ensures r.Ok? ==> records[..] == DecodeRecords(buf, start, count).value.0
  {
    var index: nat := start;
    var i: nat := 0;
    ghost var front: seq<DnsRecord> := [];
    while i < count
      invariant i <= count == records.Length
      invariant records[..i] == front
      invariant DecodeRecords(buf, start, i) == Ok((front, index))
    {
      var taken := ParseDnsRecord(buf, index);
      RecordsStep(buf, start, i, front, index);
      if taken.Err? {
        RecordsErrPersists(buf, start, i + 1, count);
        EndIndexErr(DecodeRecords(buf, start, count), taken.error);
        return Err(taken.error);
      }
      records[i] := taken.value.0;
      front := front + [taken.value.0];
      index := taken.value.1;
      assert records[..i + 1] == front;
      i := i + 1;
    }
    assert records[..] == front;
    EndIndexOk(DecodeRecords(buf, start, count), front, index);
    return Ok(index - 1);
  }

  /** One turn of parse_dns_records' loop: the name, type, class, TTL and data length, then
      the data, from `index` on. */
  method ParseDnsRecord(buf: seq<u8>, index: nat) returns (r: Result<(DnsRecord, nat)>)
    ensures r == DecodeRecord(buf, index)
  {
    var name := ParseDomain(buf, index);
    if name.Err? {
      return Err(name.error);
    }
    var domain, next := name.value.0, name.value.1;
    if next + 10 > |buf| {
      return Err(Truncated);
    }
    var rType := BigEndianCharsToU16(buf, next);
    next := next + 2;
    var rClass := BigEndianCharsToU16(buf, next);
    next := next + 2;
    var ttl := BigEndianCharsToU32(buf, next);
    next := next + 4;
    var rdLength := BigEndianCharsToU16(buf, next);
    next := next + 2;
    if next + rdLength > |buf| {
      return Err(Truncated);
    }
    var rData := buf[next..next + rdLength];
    next := next + rdLength;
    return Ok((DnsRecord(domain, rType, rClass, ttl, rdLength, rData), next));
  }

  // ---------------------------------------------------------------------------------------
  // Encoding.

  /** A question as dns_questions_to_buffer writes it at `index`: the label sequence of the
      name, the type and the class. Where the source lets the last four bytes run past the
      buffer (QuestionCheckAsWritten), a question must fit whole. */
  function EncodeQuestion(q: DnsQuestion, index: nat): (r: Result<seq<u8>>)
    ensures r.Ok? ==> index + |r.value| <= MaxDnsMessageSize
  {
    match LabelSequence(CString(q.domain))
    case None => Err(NameTooLong)
    case Some(name) =>
      if |name| + index + 4 > MaxDnsMessageSize then Err(MessageTooLarge)
      else Ok(name + U16Bytes(q.qType) + U16Bytes(q.qClass))
  }

  /** The first `count` questions written one after the other from `start` on. */
  function EncodeQuestions(qs: seq<DnsQuestion>, count: nat, start: nat): (r: Result<seq<u8>>)
    requires count <= |qs|
    ensures r.Ok? && count > 0 ==> start + |r.value| <= MaxDnsMessageSize
  {
    if count == 0 then Ok([])
    else
      match EncodeQuestions(qs, count - 1, start)
      case Err(e) => Err(e)
      case Ok(front) =>
        match EncodeQuestion(qs[count - 1], start + |front|)
        case Err(e) => Err(e)
        case Ok(last) => Ok(front + last)
  }

  /** The source expects `rData` to hold at least `rdLength` bytes. */
  predicate HasData(r: DnsRecord) {
    r.rdLength as int <= |r.rData|
  }

  /** The fixed part of a record: type, class, TTL and data length. */
  function RecordFields(r: DnsRecord): (b: seq<u8>)
    ensures |b| == 10
  {
    U16Bytes(r.rType) + U16Bytes(r.rClass) + U32Bytes(r.ttl) + U16Bytes(r.rdLength)
  }

  /** A record as dns_records_to_buffer writes it at `index`: the label sequence of the
      name, the fixed part, then the record's own data. The name and the fixed part must fit
      (where the source only checks the name, RecordAsWritten); the data check is the
      source's, which keeps the last byte of the buffer free. */
  function EncodeRecord(r: DnsRecord, index: nat): (res: Result<seq<u8>>)
    requires HasData(r)
    ensures res.Ok? ==> index + |res.value| < MaxDnsMessageSize
  {
    match LabelSequence(CString(r.domain))
    case None => Err(NameTooLong)
    case Some(name) =>
      if |name| + index + 10 > MaxDnsMessageSize then Err(MessageTooLarge)
      else if r.rdLength as int + (index + |name| + 10) + 1 > MaxDnsMessageSize then Err(MessageTooLarge)
      else Ok(name + RecordFields(r) + r.rData[..r.rdLength as int])
  }

  /** The first `count` records hold their data. */
  predicate AllHaveData(rs: seq<DnsRecord>, count: nat)
    requires count <= |rs|
  {
    forall i | 0 <= i < count :: HasData(rs[i])
  }

  /** The first `count` records written one after the other from `start` on. */
  function EncodeRecords(rs: seq<DnsRecord>, count: nat, start: nat): (r: Result<seq<u8>>)
    requires count <= |rs| && AllHaveData(rs, count)
    ensures r.Ok? && count > 0 ==> start + |r.value| < MaxDnsMessageSize
  {
    if count == 0 then Ok([])
    else
      match EncodeRecords(rs, count - 1, start)
      case Err(e) => Err(e)
      case Ok(front) =>
        match EncodeRecord(rs[count - 1], start + |front|)
        case Err(e) => Err(e)
        case Ok(last) => Ok(front + last)
  }

  /** Once an entry fails to encode, so does every longer section. */
  lemma {:induction false} QuestionsEncodeErrPersists(qs: seq<DnsQuestion>, k: nat, n: nat, start: nat)
    requires k <= n <= |qs| && EncodeQuestions(qs, k, start).Err?
    ensures EncodeQuestions(qs, n, start) == EncodeQuestions(qs, k, start)
    decreases n
  {
    if n > k {
      QuestionsEncodeErrPersists(qs, k, n - 1, start);
    }
  }

  lemma {:induction false} RecordsEncodeErrPersists(rs: seq<DnsRecord>, k: nat, n: nat, start: nat)
    requires k <= n <= |rs| && AllHaveData(rs, n)
    requires EncodeRecords(rs, k, start).Err?
    ensures EncodeRecords(rs, n, start) == EncodeRecords(rs, k, start)
    decreases n
  {
    if n > k {
      RecordsEncodeErrPersists(rs, k, n - 1, start);
    }
  }

  /** A question that fails to encode fails the whole section, with its own error. */
  lemma QuestionsEncodeFail(qs: seq<DnsQuestion>, i: nat, n: nat, start: nat, written: seq<u8>)
    requires i < n <= |qs|
    requires EncodeQuestions(qs, i, start) == Ok(written)
    requires EncodeQuestion(qs[i], start + |written|).Err?
    ensures EncodeQuestions(qs, n, start) == Err(EncodeQuestion(qs[i], start + |written|).error)
  {
    QuestionsEncodeErrPersists(qs, i + 1, n, start);
  }

  /** A record that fails to encode fails the whole section, with its own error. */
  lemma RecordsEncodeFail(rs: seq<DnsRecord>, i: nat, n: nat, start: nat, written: seq<u8>)
    requires i < n <= |rs| && AllHaveData(rs, n)
    requires EncodeRecords(rs, i, start) == Ok(written)
    requires EncodeRecord(rs[i], start + |written|).Err?
    ensures EncodeRecords(rs, n, start) == Err(EncodeRecord(rs[i], start + |written|).error)
  {
    RecordsEncodeErrPersists(rs, i + 1, n, start);
  }

  /** A question that encodes is appended to the section. */
  lemma QuestionsEncodeStep(qs: seq<DnsQuestion>, i: nat, start: nat, written: seq<u8>, last: seq<u8>)
    requires i < |qs|
    requires EncodeQuestions(qs, i, start) == Ok(written)
    requires EncodeQuestion(qs[i], start + |written|) == Ok(last)
    ensures EncodeQuestions(qs, i + 1, start) == Ok(written + last)
  {
  }

  /** A record that encodes is appended to the section. */
  lemma RecordsEncodeStep(rs: seq<DnsRecord>, i: nat, start: nat, written: seq<u8>, last: seq<u8>)
    requires i < |rs| && AllHaveData(rs, i + 1)
    requires EncodeRecords(rs, i, start) == Ok(written)
    requires EncodeRecord(rs[i], start + |written|) == Ok(last)
    ensures EncodeRecords(rs, i + 1, start) == Ok(written + last)
  {
  }

  /** The bytes a name takes on the wire: the length of its label sequence. */
  function NameSize(d: seq<u8>): nat {
    match LabelSequence(CString(d))
    case None => 0
    case Some(e) => |e|
  }

  /** The size of the first `count` questions: each one's name, then four bytes. */
  function QuestionsSize(qs: seq<DnsQuestion>, count: nat): nat
    requires count <= |qs|
  {
    if count == 0 then 0 else QuestionsSize(qs, count - 1) + NameSize(qs[count - 1].domain) + 4
  }

  /** The size of the first `count` records: each one's name, ten bytes, then its data. */
  function RecordsSize(rs: seq<DnsRecord>, count: nat): nat
    requires count <= |rs|
  {
    if count == 0 then 0
    else RecordsSize(rs, count - 1) + NameSize(rs[count - 1].domain) + 10 + rs[count - 1].rdLength as int
  }

  /** A question section that encodes takes the name and four bytes of every question. */
  lemma {:induction false} QuestionsLength(qs: seq<DnsQuestion>, count: nat, start: nat)
    requires count <= |qs| && EncodeQuestions(qs, count, start).Ok?
    ensures |EncodeQuestions(qs, count, start).value| == QuestionsSize(qs, count)
    decreases count
  {
    if count > 0 {
      QuestionsLength(qs, count - 1, start);
    }
  }

  /** A record section that encodes takes the name, ten bytes and the data of every record. */
  lemma {:induction false} RecordsLength(rs: seq<DnsRecord>, count: nat, start: nat)
    requires count <= |rs| && AllHaveData(rs, count) && EncodeRecords(rs, count, start).Ok?
    ensures |EncodeRecords(rs, count, start).value| == RecordsSize(rs, count)
    decreases count
  {
    if count > 0 {
      RecordsLength(rs, count - 1, start);
    }
  }

  /** Bytes that no write touched read the same. */
  lemma SliceStays(a: seq<u8>, b: seq<u8>, lo: nat, hi: nat)
    requires lo <= hi <= |a| == |b|
    requires forall j | lo <= j < hi :: a[j] == b[j]
    ensures a[lo..hi] == b[lo..hi]
  {
  }

  /** Two adjacent slices make one. */
  lemma SliceJoin(b: seq<u8>, lo: nat, mid: nat, hi: nat)
    requires lo <= mid <= hi <= |b|
    ensures b[lo..hi] == b[lo..mid] + b[mid..hi]
  {
  }

  /** memcpy of `bytes` into `buf` at `off`. */
  method CopyInto(buf: array<u8>, off: nat, bytes: seq<u8>)
    requires off + |bytes| <= buf.Length
    modifies buf
    ensures buf[off..off + |bytes|] == bytes
    ensures forall j | 0 <= j < buf.Length && !(off <= j < off + |bytes|) :: buf[j] == old(buf[j])
  {
    var k := 0;
    while k < |bytes|
      invariant 0 <= k <= |bytes|
      invariant buf[off..off + k] == bytes[..k]
      invariant forall j | 0 <= j < buf.Length && !(off <= j < off + k) :: buf[j] == old(buf[j])
    {
      buf[off + k] := bytes[k];
      k := k + 1;
    }
  }

  /** What a section writer leaves behind: it fails exactly when the section does not
      encode, with the same error; otherwise it returns the index of the section's last byte,
      the section's bytes stand from `start` on and nothing after them changes. Nothing
      before `start` changes in either case. */
  ghost predicate SectionWritten(e: Result<seq<u8>>, r: Result<int>, start: nat, orig: seq<u8>, cur: seq<u8>) {
    |orig| == |cur|
    && (r.Ok? <==> e.Ok?) && (r.Err? ==> r.error == e.error)
    && (r.Ok? ==> r.value == start + |e.value| - 1 && start + |e.value| <= |cur|
                  && cur[start..start + |e.value|] == e.value
                  && forall j | start + |e.value| <= j < |cur| :: cur[j] == orig[j])
    && forall j | 0 <= j < start && j < |cur| :: cur[j] == orig[j]
  }

  /** dns_questions_to_buffer: writes the first `qdCount` questions from `start` on and
      reports the index of the last byte written. */
  method DnsQuestionsToBuffer(questions: seq<DnsQuestion>, qdCount: nat, buf: array<u8>, start: nat)
    returns (r: Result<int>)
    requires qdCount <= |questions|
    requires buf.Length == MaxDnsMessageSize && start <= MaxDnsMessageSize
    modifies buf
    ensures SectionWritten(EncodeQuestions(questions, qdCount, start), r, start, old(buf[..]), buf[..])
  {
    ghost var orig := buf[..];
    ghost var written: seq<u8> := [];
    var index := start;
    var i: nat := 0;
    while i < qdCount
      invariant QuestionsWritten(questions, qdCount, start, orig, buf[..], i, index, written)
    {
      ghost var soFar := written;
      var next;
      next, written := AppendQuestion(questions, qdCount, i, buf, start, index, orig, written);
      if next.Err? {
        QuestionsEncodeFail(questions, i, qdCount, start, soFar);
        return Err(next.error);
      }
      index := next.value;
      i := i + 1;
    }
    return Ok(index as int - 1);
  }

  /** The state of dns_questions_to_buffer's loop before question `i`: the questions before
      it are written from `start` on, and outside them `cur` is still the buffer `orig`. */
  ghost predicate QuestionsWritten(qs: seq<DnsQuestion>, count: nat, start: nat, orig: seq<u8>,
                                   cur: seq<u8>, i: nat, index: nat, written: seq<u8>) {
    i <= count <= |qs| && |orig| == |cur| == MaxDnsMessageSize
    && index == start + |written| <= MaxDnsMessageSize
    && EncodeQuestions(qs, i, start) == Ok(written) && cur[start..index] == written
    && (forall j | 0 <= j < start :: cur[j] == orig[j])
    && (forall j | index <= j < |cur| :: cur[j] == orig[j])
  }

  /** A turn of dns_questions_to_buffer's loop seen from the section: question `i` goes after
      the `written` bytes of the questions before it. */
  method AppendQuestion(questions: seq<DnsQuestion>, count: nat, i: nat, buf: array<u8>, start: nat,
                        index: nat, ghost orig: seq<u8>, ghost written: seq<u8>)
    returns (next: Result<nat>, ghost written': seq<u8>)
    requires i < count && buf.Length == MaxDnsMessageSize
    requires QuestionsWritten(questions, count, start, orig, buf[..], i, index, written)
    modifies buf
    ensures next.Err? ==> EncodeQuestion(questions[i], index) == Err(next.error)
                          && forall j | 0 <= j < start :: buf[j] == orig[j]
    ensures next.Ok? ==> QuestionsWritten(questions, count, start, orig, buf[..], i + 1, next.value, written')
  {
    ghost var before := buf[..];
    next := QuestionToBuffer(questions[i], buf, index);
    written' := written;
    if next.Ok? {
      SliceStays(before, buf[..], start, index);
      SliceJoin(buf[..], start, index, next.value);
      QuestionsEncodeStep(questions, i, start, written, buf[index..next.value]);
      written' := written + buf[index..next.value];
    }
  }

  /** One turn of dns_questions_to_buffer's loop: the question at `index`, and the cursor
      after it. Nothing before `index` changes. */
  method QuestionToBuffer(q: DnsQuestion, buf: array<u8>, index: nat) returns (r: Result<nat>)
    requires buf.Length == MaxDnsMessageSize && index <= MaxDnsMessageSize
    modifies buf
    ensures var e := EncodeQuestion(q, index);
            (r.Ok? <==> e.Ok?) && (r.Err? ==> r.error == e.error)
            && (r.Ok? ==> r.value == index + |e.value| && buf[index..r.value] == e.value
                          && forall j | r.value <= j < buf.Length :: buf[j] == old(buf[j]))
    ensures forall j | 0 <= j < index :: buf[j] == old(buf[j])
  {
    var name := DomainToLabelSequence(q.domain);
    if name.None? {
      return Err(NameTooLong);
    }
    var size := |name.value|;
    if size + index + 4 > MaxDnsMessageSize {
      return Err(MessageTooLarge);
    }
    CopyInto(buf, index, name.value);
    ghost var named := buf[..];
    U16ToBigEndianChars(buf, index + size, q.qType);
    U16ToBigEndianChars(buf, index + size + 2, q.qClass);
    QuestionBytes(buf[..], named, index, name.value, q);
    return Ok(index + size + 4);
  }

  /** The bytes of a question: its name, as it stood before the type and the class were
      stored after it. */
  lemma QuestionBytes(b: seq<u8>, named: seq<u8>, off: nat, name: seq<u8>, q: DnsQuestion)
    requires |b| == |named| && off + |name| + 4 <= |b|
    requires named[off..off + |name|] == name
    requires forall j | 0 <= j < off + |name| :: b[j] == named[j]
    requires var f := off + |name|;
             b[f] == U16Bytes(q.qType)[0] && b[f + 1] == U16Bytes(q.qType)[1]
             && b[f + 2] == U16Bytes(q.qClass)[0] && b[f + 3] == U16Bytes(q.qClass)[1]
    ensures b[off..off + |name| + 4] == name + U16Bytes(q.qType) + U16Bytes(q.qClass)
  {
    var w := name + U16Bytes(q.qType) + U16Bytes(q.qClass);
    forall j | 0 <= j < |name| + 4 ensures b[off + j] == w[j] {
      if j < |name| {
        assert b[off + j] == named[off..off + |name|][j];
      }
    }
  }

  /** dns_records_to_buffer: writes the first `count` records from `start` on and reports
      the index of the last byte written. Each record's data is its own; see
      RecordAsWritten for the source. */
  method DnsRecordsToBuffer(records: seq<DnsRecord>, count: nat, buf: array<u8>, start: nat)
    returns (r: Result<int>)
    requires count <= |records| && AllHaveData(records, count)
    requires buf.Length == MaxDnsMessageSize && start <= MaxDnsMessageSize
    modifies buf
    ensures SectionWritten(EncodeRecords(records, count, start), r, start, old(buf[..]), buf[..])
  {
    ghost var orig := buf[..];
    ghost var written: seq<u8> := [];
    var index := start;
    var i: nat := 0;
    while i < count
      invariant RecordsWritten(records, count, start, orig, buf[..], i, index, written)
    {
      ghost var soFar := written;
      var next;
      next, written := AppendRecord(records, count, i, buf, start, index, orig, written);
      if next.Err? {
        RecordsEncodeFail(records, i, count, start, soFar);
        return Err(next.error);
      }
      index := next.value;
      i := i + 1;
    }
    return Ok(index as int - 1);
  }

  /** The state of dns_records_to_buffer's loop before record `i`: the records before it are
      written from `start` on, and outside them `cur` is still the buffer `orig`. */
  ghost predicate RecordsWritten(rs: seq<DnsRecord>, count: nat, start: nat, orig: seq<u8>,
                                 cur: seq<u8>, i: nat, index: nat, written: seq<u8>) {
    i <= count <= |rs| && AllHaveData(rs, count) && |orig| == |cur| == MaxDnsMessageSize
    && index == start + |written| <= MaxDnsMessageSize
    && EncodeRecords(rs, i, start) == Ok(written) && cur[start..index] == written
    && (forall j | 0 <= j < start :: cur[j] == orig[j])
    && (forall j | index <= j < |cur| :: cur[j] == orig[j])
  }

  /** A turn of dns_records_to_buffer's loop seen from the section: record `i` goes after the
      `written` bytes of the records before it. */
  method AppendRecord(records: seq<DnsRecord>, count: nat, i: nat, buf: array<u8>, start: nat,
                      index: nat, ghost orig: seq<u8>, ghost written: seq<u8>)
    returns (next: Result<nat>, ghost written': seq<u8>)
    requires i < count && buf.Length == MaxDnsMessageSize
    requires RecordsWritten(records, count, start, orig, buf[..], i, index, written)
    modifies buf
    ensures next.Err? ==> EncodeRecord(records[i], index) == Err(next.error)
                          && forall j | 0 <= j < start :: buf[j] == orig[j]
    ensures next.Ok? ==> RecordsWritten(records, count, start, orig, buf[..], i + 1, next.value, written')
  {
    ghost var before := buf[..];
    next := RecordToBuffer(records[i], buf, index);
    written' := written;
    if next.Ok? {
      SliceStays(before, buf[..], start, index);
      SliceJoin(buf[..], start, index, next.value);
      RecordsEncodeStep(records, i, start, written, buf[index..next.value]);
      written' := written + buf[index..next.value];
    }
  }

  /** One turn of dns_records_to_buffer's loop: the record at `index`, and the cursor after
      it. Nothing before `index` changes; on the data check's failure the name and the fixed
      part are already written. */
  method RecordToBuffer(rec: DnsRecord, buf: array<u8>, index: nat) returns (r: Result<nat>)
    requires HasData(rec)
    requires buf.Length == MaxDnsMessageSize && index <= MaxDnsMessageSize
    modifies buf
    ensures var e := EncodeRecord(rec, index);
            (r.Ok? <==> e.Ok?) && (r.Err? ==> r.error == e.error)
            && (r.Ok? ==> r.value == index + |e.value| && buf[index..r.value] == e.value
                          && forall j | r.value <= j < buf.Length :: buf[j] == old(buf[j]))
    ensures forall j | 0 <= j < index :: buf[j] == old(buf[j])
  {
    var name := DomainToLabelSequence(rec.domain);
    if name.None? {
      return Err(NameTooLong);
    }
    var size := |name.value|;
    if size + index + 10 > MaxDnsMessageSize {
      return Err(MessageTooLarge);
    }
    CopyInto(buf, index, name.value);
    ghost var named := buf[..];
    StoreRecordFields(rec, buf, index + size);
    SliceStays(named, buf[..], index, index + size);
    var len := rec.rdLength as int;
    if len + (index + size + 10) + 1 > MaxDnsMessageSize {
      return Err(MessageTooLarge);
    }
    ghost var fixed := buf[..];
    CopyInto(buf, index + size + 10, rec.rData[..len]);
    SliceStays(fixed, buf[..], index, index + size + 10);
    SliceJoin(fixed, index, index + size, index + size + 10);
    SliceJoin(buf[..], index, index + size + 10, index + size + 10 + len);
    return Ok(index + size + 10 + len);
  }

  /** The four fixed fields of dns_records_to_buffer's loop, stored at `off`: type, class,
      TTL and data length. */
  method StoreRecordFields(rec: DnsRecord, buf: array<u8>, off: nat)
    requires off + 10 <= buf.Length
    modifies buf
    ensures buf[off..off + 10] == RecordFields(rec)
    ensures forall j | 0 <= j < buf.Length && !(off <= j < off + 10) :: buf[j] == old(buf[j])
  {
    U16ToBigEndianChars(buf, off, rec.rType);
    U16ToBigEndianChars(buf, off + 2, rec.rClass);
    U32ToBigEndianChars(buf, off + 4, rec.ttl);
    ghost var ttl := buf[..];
    U16ToBigEndianChars(buf, off + 8, rec.rdLength);
    SliceStays(ttl, buf[..], off + 4, off + 8);
    assert buf[off..off + 10] == RecordFields(rec) by {
      assert buf[off + 4..off + 8] == U32Bytes(rec.ttl);
      forall j | 0 <= j < 10 ensures buf[off + j] == RecordFields(rec)[j] {
        if 4 <= j < 8 {
          assert buf[off + j] == buf[off + 4..off + 8][j - 4];
        }
      }
    }
  }


  // ---------------------------------------------------------------------------------------
  // Encoding then decoding.

  /** A question whose name the round trip of names covers. */
  predicate ValidQuestion(q: DnsQuestion) {
    ValidDomain(q.domain)
  }

  /** Every question of a section is well formed. */
  predicate ValidQuestions(qs: seq<DnsQuestion>) {
    forall i {:trigger ValidQuestion(qs[i])} | 0 <= i < |qs| :: ValidQuestion(qs[i])
  }

  /** Every record of a section is well formed. */
  predicate ValidRecords(rs: seq<DnsRecord>) {
    forall i {:trigger ValidRecord(rs[i])} | 0 <= i < |rs| :: ValidRecord(rs[i])
  }

  /** A record whose name the round trip covers and whose data is exactly `rdLength` bytes. */
  predicate ValidRecord(r: DnsRecord) {
    ValidDomain(r.domain) && |r.rData| == r.rdLength as int
  }

  /** The label sequence of a valid name, found at `pos`, reads back as the name with the
      cursor just after it. */
  lemma NameRoundTrip(d: seq<u8>, buf: seq<u8>, pos: nat)
    requires ValidDomain(d)
    requires var e := EncodeLabels(SplitLabels(d)); pos + |e| <= |buf| && buf[pos..pos + |e|] == e
    ensures DecodeName(buf, pos) == Ok((d, pos + |EncodeLabels(SplitLabels(d))|))
  {
    LabelSequenceLength(d);
    var labels := SplitLabels(d);
    LabelsOfEncoding(labels, buf, pos, pos);
    SplitJoin(d);
    DecodeNameOk(buf, pos, labels);
  }

  /** The name at `pos` is read when its labels are and are short enough together. */
  lemma DecodeNameOk(buf: seq<u8>, pos: nat, labels: seq<seq<u8>>)
    requires Labels(buf, pos, pos) == Ok(labels) && |Join(labels)| <= MaxDomainSize
    ensures DecodeName(buf, pos) == Ok((Join(labels), RunEnd(buf, pos) + 1))
  {
  }

  /** A question the encoder accepts reads back from wherever its bytes are found: the
      name, the type and the class. */
  lemma QuestionRoundTrip(q: DnsQuestion, buf: seq<u8>, pos: nat, w: seq<u8>)
    requires ValidQuestion(q) && EncodeQuestion(q, pos) == Ok(w)
    requires pos + |w| <= |buf| && buf[pos..pos + |w|] == w
    ensures DecodeQuestion(buf, pos) == Ok((q, pos + |w|))
  {
    var name := EncodeLabels(SplitLabels(q.domain));
    EncodedName(q.domain);
    assert w == name + U16Bytes(q.qType) + U16Bytes(q.qClass);
    SliceParts(buf, pos, name, U16Bytes(q.qType), U16Bytes(q.qClass));
    NameRoundTrip(q.domain, buf, pos);
    var next := pos + |name|;
    U16ReadBack(buf, next, q.qType);
    U16ReadBack(buf, next + 2, q.qClass);
    DecodeQuestionOk(buf, pos, q.domain, next);
    assert DnsQuestion(q.domain, q.qType, q.qClass) == q;
  }

  /** The encoder writes a valid name as its label sequence. */
  lemma EncodedName(d: seq<u8>)
    requires ValidDomain(d)
    ensures LabelSequence(CString(d)) == Some(EncodeLabels(SplitLabels(d)))
  {
    CStringOfNoNul(d);
    LabelSequenceLength(d);
  }

  /** The question at `pos` once its name is read and four more bytes follow. */
  lemma DecodeQuestionOk(buf: seq<u8>, pos: nat, name: seq<u8>, next: nat)
    requires DecodeName(buf, pos) == Ok((name, next)) && next + 4 <= |buf|
    ensures DecodeQuestion(buf, pos)
            == Ok((DnsQuestion(name, BigEndianCharsToU16(buf, next), BigEndianCharsToU16(buf, next + 2)), next + 4))
  {
  }

  /** A record the encoder accepts reads back from wherever its bytes are found: the name,
      the fixed fields with all 32 bits of the TTL, and the data. */
  lemma RecordRoundTrip(r: DnsRecord, buf: seq<u8>, pos: nat, w: seq<u8>)
    requires ValidRecord(r) && EncodeRecord(r, pos) == Ok(w)
    requires pos + |w| <= |buf| && buf[pos..pos + |w|] == w
    ensures DecodeRecord(buf, pos) == Ok((r, pos + |w|))
  {
    var name, fields := EncodeLabels(SplitLabels(r.domain)), RecordFields(r);
    EncodedRecord(r, pos);
    assert buf[pos..pos + |name| + |fields| + |r.rData|] == name + fields + r.rData;
    SliceParts(buf, pos, name, fields, r.rData);
    RecordPartsRead(r, buf, pos, name, fields, |w|);
  }

  /** What the encoder writes for a well-formed record: its name's labels, the fixed part,
      the data. */
  lemma EncodedRecord(r: DnsRecord, pos: nat)
    requires ValidRecord(r) && EncodeRecord(r, pos).Ok?
    ensures EncodeRecord(r, pos).value == EncodeLabels(SplitLabels(r.domain)) + RecordFields(r) + r.rData
    ensures |EncodeRecord(r, pos).value| == |EncodeLabels(SplitLabels(r.domain))| + 10 + |r.rData|
  {
    EncodedName(r.domain);
    assert r.rData[..r.rdLength as int] == r.rData;
  }

  /** A record whose name, fixed part and data stand one after the other from `pos` on. */
  lemma RecordPartsRead(r: DnsRecord, buf: seq<u8>, pos: nat, name: seq<u8>, fields: seq<u8>, size: nat)
    requires ValidRecord(r) && name == EncodeLabels(SplitLabels(r.domain)) && fields == RecordFields(r)
    requires size == |name| + |fields| + |r.rData| && pos + size <= |buf|
    requires buf[pos..pos + |name|] == name && buf[pos + |name|..pos + |name| + |fields|] == fields
    requires buf[pos + |name| + |fields|..pos + |name| + |fields| + |r.rData|] == r.rData
    ensures DecodeRecord(buf, pos) == Ok((r, pos + size))
  {
    NameRoundTrip(r.domain, buf, pos);
    var next := pos + |name|;
    FieldsRoundTrip(r, buf, next);
    var end := next + 10 + r.rdLength;
    assert buf[next + 10..end] == r.rData;
    DecodeRecordOk(buf, pos, r.domain, next, r.rType, r.rClass, r.ttl, r.rdLength, r.rData);
    assert DnsRecord(r.domain, r.rType, r.rClass, r.ttl, r.rdLength, r.rData) == r;
  }

  /** The record at `pos` once its name is read and its fixed part and data follow. */
  lemma DecodeRecordOk(buf: seq<u8>, pos: nat, name: seq<u8>, next: nat,
                       rType: u16, rClass: u16, ttl: u32, rdLength: u16, rData: seq<u8>)
    requires DecodeName(buf, pos) == Ok((name, next)) && next + 10 + rdLength <= |buf|
    requires BigEndianCharsToU16(buf, next) == rType && BigEndianCharsToU16(buf, next + 2) == rClass
    requires BigEndianCharsToU32(buf, next + 4) == ttl && BigEndianCharsToU16(buf, next + 8) == rdLength
    requires buf[next + 10..next + 10 + rdLength] == rData
    ensures DecodeRecord(buf, pos) == Ok((DnsRecord(name, rType, rClass, ttl, rdLength, rData), next + 10 + rdLength))
  {
  }

  /** The fixed part of a record reads back as its type, class, TTL and data length. */
  lemma FieldsRoundTrip(r: DnsRecord, buf: seq<u8>, off: nat)
    requires off + 10 <= |buf| && buf[off..off + 10] == RecordFields(r)
    ensures BigEndianCharsToU16(buf, off) == r.rType && BigEndianCharsToU16(buf, off + 2) == r.rClass
    ensures BigEndianCharsToU32(buf, off + 4) == r.ttl && BigEndianCharsToU16(buf, off + 8) == r.rdLength
  {
    var f := RecordFields(r);
    assert forall k | 0 <= k < 10 :: buf[off + k] == f[k];
    U32RoundTrip(r.ttl);
    assert f[4..8] == U32Bytes(r.ttl);
  }

  /** The first `n` questions are written from `start` on as `w`. */
  ghost predicate QuestionsEncodeTo(qs: seq<DnsQuestion>, n: nat, start: nat, w: seq<u8>)
    requires n <= |qs|
  {
    EncodeQuestions(qs, n, start) == Ok(w)
  }

  /** A section that was written is read back entry by entry: decoding `n` entries from
      where the encoder began gives the entries, and ends where the encoder stopped. */
  lemma QuestionsRoundTrip(qs: seq<DnsQuestion>, n: nat, start: nat, w: seq<u8>, buf: seq<u8>)
    requires n <= |qs| && ValidQuestions(qs)
    requires EncodeQuestions(qs, n, start) == Ok(w)
    requires start + |w| <= |buf| && buf[start..start + |w|] == w
    ensures DecodeQuestions(buf, start, n) == Ok((qs[..n], start + |w|))
  {
    assert QuestionsEncodeTo(qs, n, start, w);
    var ends := QuestionsWrittenAt(qs, n, start, w, buf);
    QuestionsAt(buf, start, qs, n, ends);
  }

  /** Each of the first `n` questions is read back from where `ends` says it begins, and
      ends where the next begins. */
  ghost predicate QuestionsReadAt(buf: seq<u8>, qs: seq<DnsQuestion>, ends: seq<nat>, n: nat)
    requires n <= |qs| && n < |ends|
  {
    forall i {:trigger DecodeQuestion(buf, ends[i])} | 0 <= i < n :: DecodeQuestion(buf, ends[i]) == Ok((qs[i], ends[i + 1]))
  }

  /** Where each of `n` written questions begins, and that it is read back there. */
  lemma {:induction false} QuestionsWrittenAt(qs: seq<DnsQuestion>, n: nat, start: nat, w: seq<u8>, buf: seq<u8>)
    returns (ends: seq<nat>)
    requires n <= |qs| && ValidQuestions(qs)
    requires QuestionsEncodeTo(qs, n, start, w)
    requires start + |w| <= |buf| && buf[start..start + |w|] == w
    ensures |ends| == n + 1 && ends[0] == start && ends[n] == start + |w|
    ensures QuestionsReadAt(buf, qs, ends, n)
    decreases n
  {
    if n == 0 {
      ends := [start];
    } else {
      var front, last := QuestionsSplit(qs, n, start, w);
      SliceSplit(buf, start, w, front, last);
      var before := QuestionsWrittenAt(qs, n - 1, start, front, buf);
      ends := QuestionsReadAtSnoc(buf, qs, n, before, start + |front|, last, start + |w|);
    }
  }

  /** One more question written after those already read back is read back too. */
  lemma QuestionsReadAtSnoc(buf: seq<u8>, qs: seq<DnsQuestion>, n: nat, before: seq<nat>, mid: nat, last: seq<u8>, end: nat)
    returns (ends: seq<nat>)
    requires 0 < n <= |qs| && |before| == n && before[n - 1] == mid && ValidQuestions(qs)
    requires EncodeQuestion(qs[n - 1], mid) == Ok(last)
    requires mid + |last| == end <= |buf| && buf[mid..end] == last
    requires QuestionsReadAt(buf, qs, before, n - 1)
    ensures ends == before + [end]
    ensures QuestionsReadAt(buf, qs, ends, n)
  {
    QuestionRoundTrip(qs[n - 1], buf, mid, last);
    ends := QuestionsReadAtExtend(buf, qs, n, before, mid, end);
  }

  /** One more question read back where the last one read ends. */
  lemma QuestionsReadAtExtend(buf: seq<u8>, qs: seq<DnsQuestion>, n: nat, before: seq<nat>, mid: nat, end: nat)
    returns (ends: seq<nat>)
    requires 0 < n <= |qs| && |before| == n && before[n - 1] == mid
    requires DecodeQuestion(buf, mid) == Ok((qs[n - 1], end))
    requires QuestionsReadAt(buf, qs, before, n - 1)
    ensures ends == before + [end]
    ensures QuestionsReadAt(buf, qs, ends, n)
  {
    ends := before + [end];
    forall i | 0 <= i < n ensures DecodeQuestion(buf, ends[i]) == Ok((qs[i], ends[i + 1])) {
      if i < n - 1 {
        assert ends[i] == before[i] && ends[i + 1] == before[i + 1];
      }
    }
  }

  /** `n` questions that are each read back where the one before ends are read back as a
      section. */
  lemma {:induction false} QuestionsAt(buf: seq<u8>, start: nat, qs: seq<DnsQuestion>, n: nat, ends: seq<nat>)
    requires n <= |qs| && |ends| == n + 1 && ends[0] == start
    requires QuestionsReadAt(buf, qs, ends, n)
    ensures DecodeQuestions(buf, start, n) == Ok((qs[..n], ends[n]))
    decreases n
  {
    if n > 0 {
      var front := ends[..n];
      QuestionsAt(buf, start, qs, n - 1, front);
      QuestionsSnoc(buf, start, qs, n, ends[n - 1], ends[n]);
    } else {
      assert qs[..0] == [];
    }
  }

  /** A slice holding two parts, one after the other, holds each of them. */
  lemma SliceSplit(buf: seq<u8>, pos: nat, w: seq<u8>, x: seq<u8>, y: seq<u8>)
    requires pos + |w| <= |buf| && buf[pos..pos + |w|] == w && w == x + y && |w| == |x| + |y|
    ensures buf[pos..pos + |x|] == x && buf[pos + |x|..pos + |w|] == y
  {
    assert buf[pos..pos + |x|] == w[..|x|];
    assert buf[pos + |x|..pos + |w|] == w[|x|..];
  }

  /** `n` entries decode when the first `n - 1` do and the last follows them. */
  lemma QuestionsSnoc(buf: seq<u8>, start: nat, qs: seq<DnsQuestion>, n: nat, mid: nat, end: nat)
    requires 0 < n <= |qs| && DecodeQuestions(buf, start, n - 1) == Ok((qs[..n - 1], mid))
    requires DecodeQuestion(buf, mid) == Ok((qs[n - 1], end))
    ensures DecodeQuestions(buf, start, n) == Ok((qs[..n], end))
  {
    assert qs[..n - 1] + [qs[n - 1]] == qs[..n];
  }

  /** The bytes of a non-empty question section: those of the entries before the last, then
      those of the last. */
  lemma QuestionsSplit(qs: seq<DnsQuestion>, n: nat, start: nat, w: seq<u8>) returns (front: seq<u8>, last: seq<u8>)
    requires 0 < n <= |qs| && QuestionsEncodeTo(qs, n, start, w)
    ensures QuestionsEncodeTo(qs, n - 1, start, front)
    ensures EncodeQuestion(qs[n - 1], start + |front|) == Ok(last)
    ensures w == front + last && |w| == |front| + |last|
  {
    front := EncodeQuestions(qs, n - 1, start).value;
    last := EncodeQuestion(qs[n - 1], start + |front|).value;
  }

  /** The first `n` records are written from `start` on as `w`. */
  ghost predicate RecordsEncodeTo(rs: seq<DnsRecord>, n: nat, start: nat, w: seq<u8>)
    requires n <= |rs| && AllHaveData(rs, n)
  {
    EncodeRecords(rs, n, start) == Ok(w)
  }

  /** The same for a record section. */
  lemma RecordsRoundTrip(rs: seq<DnsRecord>, n: nat, start: nat, w: seq<u8>, buf: seq<u8>)
    requires n <= |rs| && ValidRecords(rs)
    requires AllHaveData(rs, n) && EncodeRecords(rs, n, start) == Ok(w)
    requires start + |w| <= |buf| && buf[start..start + |w|] == w
    ensures DecodeRecords(buf, start, n) == Ok((rs[..n], start + |w|))
  {
    assert RecordsEncodeTo(rs, n, start, w);
    var ends := RecordsWrittenAt(rs, n, start, w, buf);
    RecordsAt(buf, start, rs, n, ends);
  }

  /** Each of the first `n` records is read back from where `ends` says it begins, and ends
      where the next begins. */
  ghost predicate RecordsReadAt(buf: seq<u8>, rs: seq<DnsRecord>, ends: seq<nat>, n: nat)
    requires n <= |rs| && n < |ends|
  {
    forall i {:trigger DecodeRecord(buf, ends[i])} | 0 <= i < n :: DecodeRecord(buf, ends[i]) == Ok((rs[i], ends[i + 1]))
  }

  /** Where each of `n` written records begins, and that it is read back there. */
  lemma {:induction false} RecordsWrittenAt(rs: seq<DnsRecord>, n: nat, start: nat, w: seq<u8>, buf: seq<u8>)
    returns (ends: seq<nat>)
    requires n <= |rs| && ValidRecords(rs) && AllHaveData(rs, n)
    requires RecordsEncodeTo(rs, n, start, w)
    requires start + |w| <= |buf| && buf[start..start + |w|] == w
    ensures |ends| == n + 1 && ends[0] == start && ends[n] == start + |w|
    ensures RecordsReadAt(buf, rs, ends, n)
    decreases n
  {
    if n == 0 {
      ends := [start];
    } else {
      var front, last := RecordsSplit(rs, n, start, w);
      SliceSplit(buf, start, w, front, last);
      var before := RecordsWrittenAt(rs, n - 1, start, front, buf);
      ends := RecordsReadAtSnoc(buf, rs, n, before, start + |front|, last, start + |w|);
    }
  }

  /** One more record written after those already read back is read back too. */
  lemma RecordsReadAtSnoc(buf: seq<u8>, rs: seq<DnsRecord>, n: nat, before: seq<nat>, mid: nat, last: seq<u8>, end: nat)
    returns (ends: seq<nat>)
    requires 0 < n <= |rs| && |before| == n && before[n - 1] == mid && ValidRecords(rs)
    requires HasData(rs[n - 1]) && EncodeRecord(rs[n - 1], mid) == Ok(last)
    requires mid + |last| == end <= |buf| && buf[mid..end] == last
    requires RecordsReadAt(buf, rs, before, n - 1)
    ensures ends == before + [end]
    ensures RecordsReadAt(buf, rs, ends, n)
  {
    RecordRoundTrip(rs[n - 1], buf, mid, last);
    ends := RecordsReadAtExtend(buf, rs, n, before, mid, end);
  }

  /** One more record read back where the last one read ends. */
  lemma RecordsReadAtExtend(buf: seq<u8>, rs: seq<DnsRecord>, n: nat, before: seq<nat>, mid: nat, end: nat)
    returns (ends: seq<nat>)
    requires 0 < n <= |rs| && |before| == n && before[n - 1] == mid
    requires DecodeRecord(buf, mid) == Ok((rs[n - 1], end))
    requires RecordsReadAt(buf, rs, before, n - 1)
    ensures ends == before + [end]
    ensures RecordsReadAt(buf, rs, ends, n)
  {
    ends := before + [end];
    forall i | 0 <= i < n ensures DecodeRecord(buf, ends[i]) == Ok((rs[i], ends[i + 1])) {
      if i < n - 1 {
        assert ends[i] == before[i] && ends[i + 1] == before[i + 1];
      }
    }
  }

  /** `n` records that are each read back where the one before ends are read back as a
      section. */
  lemma {:induction false} RecordsAt(buf: seq<u8>, start: nat, rs: seq<DnsRecord>, n: nat, ends: seq<nat>)
    requires n <= |rs| && |ends| == n + 1 && ends[0] == start
    requires RecordsReadAt(buf, rs, ends, n)
    ensures DecodeRecords(buf, start, n) == Ok((rs[..n], ends[n]))
    decreases n
  {
    if n > 0 {
      var front := ends[..n];
      RecordsAt(buf, start, rs, n - 1, front);
      RecordsSnoc(buf, start, rs, n, ends[n - 1], ends[n]);
    } else {
      assert rs[..0] == [];
    }
  }

  /** `n` entries decode when the first `n - 1` do and the last follows them. */
  lemma RecordsSnoc(buf: seq<u8>, start: nat, rs: seq<DnsRecord>, n: nat, mid: nat, end: nat)
    requires 0 < n <= |rs| && DecodeRecords(buf, start, n - 1) == Ok((rs[..n - 1], mid))
    requires DecodeRecord(buf, mid) == Ok((rs[n - 1], end))
    ensures DecodeRecords(buf, start, n) == Ok((rs[..n], end))
  {
    assert rs[..n - 1] + [rs[n - 1]] == rs[..n];
  }

  /** The bytes of a non-empty record section: those of the entries before the last, then
      those of the last. */
  lemma RecordsSplit(rs: seq<DnsRecord>, n: nat, start: nat, w: seq<u8>) returns (front: seq<u8>, last: seq<u8>)
    requires 0 < n <= |rs| && AllHaveData(rs, n) && RecordsEncodeTo(rs, n, start, w)
    ensures AllHaveData(rs, n - 1) && RecordsEncodeTo(rs, n - 1, start, front)
    ensures HasData(rs[n - 1]) && EncodeRecord(rs[n - 1], start + |front|) == Ok(last)
    ensures w == front + last && |w| == |front| + |last|
  {
    front := EncodeRecords(rs, n - 1, start).value;
    last := EncodeRecord(rs[n - 1], start + |front|).value;
  }

  // ---------------------------------------------------------------------------------------
  // The source as written, where it differs from the decoders and encoders above.

  /** The array slot entry `i` goes to in parse_dns_questions and parse_dns_records: the
      pointer into the caller's array is advanced by `i` on every turn, so entry `i` lands at
      0 + 1 + ... + i. */
  function SlotAsWritten(i: nat): (slot: nat)
    ensures 2 * slot == i * (i + 1)
  {
    if i == 0 then 0 else SlotAsWritten(i - 1) + i
  }

  /** Only the first two entries land in their own slot, and the slots stay inside an array
      of `count` entries exactly when there are at most two: from a third entry on the source
      writes past the array the message parser allocated. */
  lemma SlotsInBounds(count: nat)
    ensures forall i | 0 <= i < count :: (SlotAsWritten(i) == i <==> i <= 1)
    ensures count <= 2 ==> forall i | 0 <= i < count :: SlotAsWritten(i) < count
    ensures count >= 3 ==> SlotAsWritten(count - 1) >= count
  {
    forall i | 0 <= i < count ensures SlotAsWritten(i) == i <==> i <= 1 {
      if i >= 2 {
        assert i * (i + 1) >= 3 * i;
      }
    }
    if count >= 3 {
      var last := count - 1;
      assert last * (last + 1) >= 2 * count;
    }
  }

  /** The size check of dns_questions_to_buffer: it keeps the name short of the buffer's end
      but leaves out the four bytes of type and class that follow it. */
  predicate QuestionCheckAsWritten(size: nat, index: nat) {
    size + index + 1 > MaxDnsMessageSize
  }

  /** A question as dns_questions_to_buffer writes it, with the check as written. */
  function QuestionAsWritten(q: DnsQuestion, index: nat): (r: Result<seq<u8>>)
    ensures r.Ok? ==> index + |r.value| <= MaxDnsMessageSize + 3
  {
    match LabelSequence(CString(q.domain))
    case None => Err(NameTooLong)
    case Some(name) =>
      if QuestionCheckAsWritten(|name|, index) then Err(MessageTooLarge)
      else Ok(name + U16Bytes(q.qType) + U16Bytes(q.qClass))
  }

  /** The source and the encoder above agree exactly where the written question fits in the
      buffer: beyond that the source writes up to three bytes past its end. */
  lemma QuestionAgreesAsWritten(q: DnsQuestion, index: nat)
    ensures EncodeQuestion(q, index).Ok? ==> QuestionAsWritten(q, index) == EncodeQuestion(q, index)
    ensures QuestionAsWritten(q, index).Ok? && index + |QuestionAsWritten(q, index).value| <= MaxDnsMessageSize
            ==> EncodeQuestion(q, index) == QuestionAsWritten(q, index)
    ensures EncodeQuestion(q, index).Err? && QuestionAsWritten(q, index).Ok?
            ==> index + |QuestionAsWritten(q, index).value| > MaxDnsMessageSize
  {
  }

  /** The question "a" at index 508: the source's check lets its seven bytes through, and
      they end at 515, three bytes past the 512-byte buffer. */
  lemma QuestionOverrunAsWritten()
    ensures var q := DnsQuestion([0x61], 1, 1);
            QuestionAsWritten(q, 508) == Ok([1, 0x61, 0, 0, 1, 0, 1])
            && 508 + 7 > MaxDnsMessageSize
            && EncodeQuestion(q, 508) == Err(MessageTooLarge)
  {
    OneLabelSequence([0x61]);
    assert CString([0x61]) == [0x61];
    assert U16Bytes(1) == [0, 1];
    assert [1 as u8] + [0x61] + [StringEnd] + [0, 1] + [0, 1] == [1, 0x61, 0, 0, 1, 0, 1];
  }

  /** One turn of dns_records_to_buffer's loop as written: the bytes it stores from `index`
      and whether it gives up. The name check leaves out the ten bytes of the fixed part,
      which is stored before the data check; and the data check and the copy use the data of
      the FIRST record, `first`, for every record. */
  function RecordAsWritten(first: DnsRecord, r: DnsRecord, index: nat): (out: (seq<u8>, Option<Error>))
    requires HasData(first)
  {
    match LabelSequence(CString(r.domain))
    case None => ([], Some(NameTooLong))
    case Some(name) =>
      if |name| + index + 1 > MaxDnsMessageSize then ([], Some(MessageTooLarge))
      else
        var fixed := name + RecordFields(r);
        if first.rdLength as int + (index + |fixed|) + 1 > MaxDnsMessageSize then (fixed, Some(MessageTooLarge))
        else (fixed + first.rData[..first.rdLength as int], None)
  }

  /** For the first record, wherever the encoder above succeeds the source writes the same
      bytes and succeeds too. */
  lemma FirstRecordAgreesAsWritten(r: DnsRecord, index: nat)
    requires HasData(r)
    ensures EncodeRecord(r, index).Ok? ==> RecordAsWritten(r, r, index) == (EncodeRecord(r, index).value, None)
  {
  }

  /** The record "a" without data at index 500: the name check passes, the 13 bytes of name
      and fixed part are stored up to index 512, one past the buffer, and only then does the
      data check give up. The encoder above refuses the record before writing. */
  lemma RecordOverrunAsWritten()
    ensures var r := DnsRecord([0x61], 1, 1, 0, 0, []);
            var out := RecordAsWritten(r, r, 500);
            |out.0| == 13 && 500 + |out.0| > MaxDnsMessageSize && out.1 == Some(MessageTooLarge)
            && EncodeRecord(r, 500) == Err(MessageTooLarge)
  {
    OneLabelSequence([0x61]);
    assert CString([0x61]) == [0x61];
  }

  /** Two one-byte records: as the second one of a section, the record with data 9 is
      written with the data 7 of the first. */
  lemma RecordDataAsWritten()
    ensures var first, second := DnsRecord([0x61], 1, 1, 0, 1, [7]), DnsRecord([0x61], 1, 1, 0, 1, [9]);
            var out := RecordAsWritten(first, second, 26);
            out.1 == None && out.0[|out.0| - 1] == 7
            && EncodeRecord(second, 26).Ok? && EncodeRecord(second, 26).value[|out.0| - 1] == 9
            && out.0 != EncodeRecord(second, 26).value
  {
    OneLabelSequence([0x61]);
    assert CString([0x61]) == [0x61];
  }
}
