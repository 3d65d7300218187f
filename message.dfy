/** A whole message (section 4.1 of RFC 1035): parse_dns_message, dns_message_to_buffer and
    free_dns_message of lib/src/celest_dns.c:63-231.

    The message is a class, as the source's DnsMessage is a struct whose section pointers
    the parser sets: an array per section the header counts, null otherwise. Its decoded
    content is the value MessageContents; DecodeMessage and EncodeMessage are the
    functions the two methods are proved against. */
module Message {
  import opened Wire
  import opened Header
  import opened Names
  import opened Sections

  /** The content of a message: its header and the entries of its four sections. */
  datatype MessageContents = MessageContents(
    header: DnsHeader,
    questions: seq<DnsQuestion>,
    answers: seq<DnsRecord>,
    authorities: seq<DnsRecord>,
    additional: seq<DnsRecord>)

  /** Each section holds as many entries as the header counts. */
  predicate Counted(c: MessageContents) {
    |c.questions| == c.header.qdCount && |c.answers| == c.header.anCount
    && |c.authorities| == c.header.nsCount && |c.additional| == c.header.arCount
  }

  /** What the encoder demands of a message: the counts are right and every record holds
      its data. */
  predicate Encodable(c: MessageContents) {
    Counted(c) && AllHaveData(c.answers, |c.answers|)
    && AllHaveData(c.authorities, |c.authorities|) && AllHaveData(c.additional, |c.additional|)
  }

  /** The content the round trip covers: the header's fields are in range and every name
      is one the name codec reproduces. */
  predicate Valid(c: MessageContents) {
    InRange(c.header) && ValidQuestions(c.questions)
    && ValidRecords(c.answers) && ValidRecords(c.authorities) && ValidRecords(c.additional)
  }

  // ---------------------------------------------------------------------------------------
  // Decoding.

  /** The cursor after a section that was read. */
  function Cursor<T>(read: Result<(seq<T>, nat)>): Result<nat> {
    match read
    case Ok((_, next)) => Ok(next)
    case Err(e) => Err(e)
  }

  /** The result of reading each section in turn. */
  datatype SectionReads = SectionReads(
    questions: Result<(seq<DnsQuestion>, nat)>,
    answers: Result<(seq<DnsRecord>, nat)>,
    authorities: Result<(seq<DnsRecord>, nat)>,
    additional: Result<(seq<DnsRecord>, nat)>)

  /** The record section that follows the section read as `prev`: read from where `prev`
      ends, or `prev`'s error when it failed. */
  function Following<T>(buf: seq<u8>, prev: Result<(seq<T>, nat)>, count: nat): (r: Result<(seq<DnsRecord>, nat)>)
    ensures r.Ok? ==> prev.Ok? && |r.value.0| == count
  {
    match prev
    case Err(e) => Err(e)
    case Ok((_, next)) => DecodeRecords(buf, next, count)
  }

  /** The sections of parse_dns_message: the questions right after the header, then the
      answer, authority and additional records, each starting where the one before ends.
      One section's failure is passed along to the ones after it. */
  function ReadSections(buf: seq<u8>): SectionReads
    requires |buf| >= DnsHeaderSize
  {
    var h := ParseDnsHeader(buf);
    var qd := DecodeQuestions(buf, DnsHeaderSize, h.qdCount);
    var an := Following(buf, qd, h.anCount);
    var ns := Following(buf, an, h.nsCount);
    SectionReads(qd, an, ns, Following(buf, ns, h.arCount))
  }

  /** The message the sections make: the first one that fails fails it with its error. */
  function Assemble(h: DnsHeader, s: SectionReads): Result<MessageContents> {
    if s.questions.Err? then Err(s.questions.error)
    else if s.answers.Err? then Err(s.answers.error)
    else if s.authorities.Err? then Err(s.authorities.error)
    else if s.additional.Err? then Err(s.additional.error)
    else Ok(MessageContents(h, s.questions.value.0, s.answers.value.0, s.authorities.value.0,
                            s.additional.value.0))
  }

  /** parse_dns_message: the header, then the four sections one after the other; the first
      section that fails fails the message with its error. The source reads the header from
      any pointer; a buffer shorter than the header is Truncated here. Bytes after the last
      section are ignored. */
  function DecodeMessage(buf: seq<u8>): (r: Result<MessageContents>)
    ensures r.Ok? ==> Counted(r.value) && InRange(r.value.header)
  {
    if |buf| < DnsHeaderSize then Err(Truncated) else Assemble(ParseDnsHeader(buf), ReadSections(buf))
  }

  /** What parse_dns_message does to a section's field: leaves it alone (the section is
      never reached), sets it to null (no entries, or the section failed), stores a new
      array holding the entries, or, as written, leaves a new array whose reading failed
      part way (`Allocated`). */
  datatype Slot<T> = Untouched | Cleared | Filled(entries: seq<T>) | Allocated

  /** The fields parse_dns_message leaves behind, section by section. */
  datatype ParseOutcome = ParseOutcome(questions: Slot<DnsQuestion>, answers: Slot<DnsRecord>,
                                       authorities: Slot<DnsRecord>, additional: Slot<DnsRecord>)

  /** The field of a section that was read: the entries, or null when there are none or
      the section failed. */
  function SlotOf<T>(read: Result<(seq<T>, nat)>): Slot<T> {
    if read.Ok? && |read.value.0| > 0 then Filled(read.value.0) else Cleared
  }

  /** The fields the sections leave: every section up to the first that fails is stored,
      the failing one is cleared, and the ones after it are not reached. */
  function OutcomeOf(s: SectionReads): ParseOutcome {
    if s.questions.Err? then ParseOutcome(Cleared, Untouched, Untouched, Untouched)
    else if s.answers.Err? then ParseOutcome(SlotOf(s.questions), Cleared, Untouched, Untouched)
    else if s.authorities.Err? then ParseOutcome(SlotOf(s.questions), SlotOf(s.answers), Cleared, Untouched)
    else ParseOutcome(SlotOf(s.questions), SlotOf(s.answers), SlotOf(s.authorities), SlotOf(s.additional))
  }

  /** The fields after parse_dns_message; nothing is touched when the buffer is shorter
      than a header. */
  function ParseOutcomeOf(buf: seq<u8>): ParseOutcome {
    if |buf| < DnsHeaderSize then ParseOutcome(Untouched, Untouched, Untouched, Untouched)
    else OutcomeOf(ReadSections(buf))
  }

  /** The field a section's entries are stored in: null when there are none. */
  function SlotFor<T>(entries: seq<T>): Slot<T> {
    if |entries| > 0 then Filled(entries) else Cleared
  }

  /** When a message decodes, every section is reached and each field holds that section's
      entries, or null when it has none. */
  lemma OutcomeOfDecoded(buf: seq<u8>)
    requires DecodeMessage(buf).Ok?
    ensures var c := DecodeMessage(buf).value;
            ParseOutcomeOf(buf)
            == ParseOutcome(SlotFor(c.questions), SlotFor(c.answers), SlotFor(c.authorities), SlotFor(c.additional))
  {
  }

  // ---------------------------------------------------------------------------------------
  // Encoding.

  /** The 512-byte buffer dns_message_to_buffer allocates with calloc, holding `w` at its
      start and zeros after it. */
  function Padded(w: seq<u8>): (b: seq<u8>)
    requires |w| <= MaxDnsMessageSize
    ensures |b| == MaxDnsMessageSize && b[..|w|] == w
    ensures forall j | |w| <= j < MaxDnsMessageSize :: b[j] == 0
  {
    w + seq(MaxDnsMessageSize - |w|, _ => 0)
  }

  /** The question section written after the bytes `w`. */
  function WithQuestions(w: seq<u8>, qs: seq<DnsQuestion>): (r: Result<seq<u8>>)
    requires |w| <= MaxDnsMessageSize
    ensures r.Ok? ==> |w| <= |r.value| <= MaxDnsMessageSize && r.value[..|w|] == w
  {
    match EncodeQuestions(qs, |qs|, |w|)
    case Err(e) => Err(e)
    case Ok(e) =>
      assert (w + e)[..|w|] == w;
      Ok(w + e)
  }

  /** A record section written after the bytes `prefix` holds, or `prefix`'s error. */
  function WithRecords(prefix: Result<seq<u8>>, rs: seq<DnsRecord>): (r: Result<seq<u8>>)
    requires AllHaveData(rs, |rs|) && (prefix.Ok? ==> |prefix.value| <= MaxDnsMessageSize)
    ensures prefix.Err? ==> r == prefix
    ensures r.Ok? ==> prefix.Ok? && |prefix.value| <= |r.value| <= MaxDnsMessageSize
                      && r.value[..|prefix.value|] == prefix.value
  {
    match prefix
    case Err(e) => Err(e)
    case Ok(w) =>
      match EncodeRecords(rs, |rs|, |w|)
      case Err(e) => Err(e)
      case Ok(e) =>
        assert (w + e)[..|w|] == w;
        Ok(w + e)
  }

  /** dns_message_to_buffer: the header's 12 bytes, then the four sections, each written
      from where the one before ends; the first section that fails fails the message. A
      section the header counts no entries for is not written. */
  function EncodeMessage(c: MessageContents): (r: Result<seq<u8>>)
    requires Encodable(c)
    ensures r.Ok? ==> DnsHeaderSize <= |r.value| <= MaxDnsMessageSize
    ensures r.Ok? ==> r.value[..DnsHeaderSize] == HeaderBytes(c.header)
  {
    var h := HeaderBytes(c.header);
    var qd := WithQuestions(h, c.questions);
    var an := WithRecords(qd, c.answers);
    var ns := WithRecords(an, c.authorities);
    var ar := WithRecords(ns, c.additional);
    if ar.Ok? then
      PrefixesOf(ar.value, ns.value, an.value, qd.value, h);
      ar
    else ar
  }

  /** A prefix of a prefix of `a` is a prefix of `a`. */
  lemma PrefixesOf(a: seq<u8>, b: seq<u8>, c: seq<u8>, d: seq<u8>, e: seq<u8>)
    requires |e| <= |d| <= |c| <= |b| <= |a|
    requires a[..|b|] == b && b[..|c|] == c && c[..|d|] == d && d[..|e|] == e
    ensures a[..|e|] == e
  {
    assert a[..|e|] == b[..|e|] == c[..|e|] == d[..|e|];
  }

  // ---------------------------------------------------------------------------------------
  // Encoding then decoding.

  /** A message the encoder accepts decodes back to itself from any buffer that starts with
      its bytes, in particular from the zero-padded buffer dns_message_to_buffer returns. */
  lemma MessageRoundTrip(c: MessageContents, w: seq<u8>, buf: seq<u8>)
    requires Encodable(c) && Valid(c)
    requires EncodeMessage(c) == Ok(w)
    requires |w| <= |buf| && buf[..|w|] == w
    ensures DecodeMessage(buf) == Ok(c)
  {
    var h := HeaderBytes(c.header);
    var e1 := WithQuestions(h, c.questions);
    var e2 := WithRecords(e1, c.answers);
    var e3 := WithRecords(e2, c.authorities);
    assert WithRecords(e3, c.additional) == Ok(w);
    var qd := EncodeQuestions(c.questions, |c.questions|, |h|).value;
    var an := EncodeRecords(c.answers, |c.answers|, |h + qd|).value;
    var ns := EncodeRecords(c.authorities, |c.authorities|, |h + qd + an|).value;
    var ar := EncodeRecords(c.additional, |c.additional|, |h + qd + an + ns|).value;
    assert w == h + qd + an + ns + ar;
    PrefixOf(buf, w, h + qd + an + ns, ar);
    PrefixOf(buf, h + qd + an + ns, h + qd + an, ns);
    PrefixOf(buf, h + qd + an, h + qd, an);
    PrefixOf(buf, h + qd, h, qd);
    HeaderOfBuffer(c.header, buf);
    LastPart(buf, h, qd);
    LastPart(buf, h + qd, an);
    LastPart(buf, h + qd + an, ns);
    LastPart(buf, h + qd + an + ns, ar);
    SectionsOfBuffer(c, buf, qd, an, ns, ar, |h + qd|, |h + qd + an|, |h + qd + an + ns|, |w|);
  }

  /** A buffer that starts with the bytes of a header in range holds that header. */
  lemma HeaderOfBuffer(h: DnsHeader, buf: seq<u8>)
    requires InRange(h) && DnsHeaderSize <= |buf| && buf[..DnsHeaderSize] == HeaderBytes(h)
    ensures ParseDnsHeader(buf) == h
  {
    HeaderRoundTrip(h);
    assert HeaderBytes(h)[..DnsHeaderSize] == HeaderBytes(h);
  }

  /** The sections of an encoded message, found one after the other after its header and
      ending at `p1` to `p4`, read back as the message's sections. */
  lemma SectionsOfBuffer(c: MessageContents, buf: seq<u8>, qd: seq<u8>, an: seq<u8>, ns: seq<u8>,
                         ar: seq<u8>, p1: nat, p2: nat, p3: nat, p4: nat)
    requires Encodable(c) && Valid(c) && |buf| >= DnsHeaderSize && ParseDnsHeader(buf) == c.header
    requires p1 == DnsHeaderSize + |qd| && p2 == p1 + |an| && p3 == p2 + |ns| && p4 == p3 + |ar| <= |buf|
    requires EncodeQuestions(c.questions, |c.questions|, DnsHeaderSize) == Ok(qd)
    requires EncodeRecords(c.answers, |c.answers|, p1) == Ok(an)
    requires EncodeRecords(c.authorities, |c.authorities|, p2) == Ok(ns)
    requires EncodeRecords(c.additional, |c.additional|, p3) == Ok(ar)
    requires buf[DnsHeaderSize..p1] == qd && buf[p1..p2] == an && buf[p2..p3] == ns && buf[p3..p4] == ar
    ensures DecodeMessage(buf) == Ok(c)
  {
    QuestionSectionOfBuffer(c.questions, buf, qd, p1);
    RecordSectionOfBuffer(c.answers, buf, p1, an, p2);
    RecordSectionOfBuffer(c.authorities, buf, p2, ns, p3);
    RecordSectionOfBuffer(c.additional, buf, p3, ar, p4);
    SectionsAt(buf, c, p1, p2, p3, p4);
    SectionsAllRead(ReadSections(buf), c.header);
  }

  /** Sections read one after the other from the header on, as the header counts them. */
  lemma SectionsAt(buf: seq<u8>, c: MessageContents, p1: nat, p2: nat, p3: nat, p4: nat)
    requires Counted(c) && |buf| >= DnsHeaderSize && ParseDnsHeader(buf) == c.header
    requires DecodeQuestions(buf, DnsHeaderSize, |c.questions|) == Ok((c.questions, p1))
    requires DecodeRecords(buf, p1, |c.answers|) == Ok((c.answers, p2))
    requires DecodeRecords(buf, p2, |c.authorities|) == Ok((c.authorities, p3))
    requires DecodeRecords(buf, p3, |c.additional|) == Ok((c.additional, p4))
    ensures ReadSections(buf)
            == SectionReads(Ok((c.questions, p1)), Ok((c.answers, p2)), Ok((c.authorities, p3)),
                            Ok((c.additional, p4)))
  {
  }

  /** The question section written right after the header reads back from there, ending
      at `end`, where its bytes end. */
  lemma QuestionSectionOfBuffer(qs: seq<DnsQuestion>, buf: seq<u8>, e: seq<u8>, end: nat)
    requires ValidQuestions(qs) && EncodeQuestions(qs, |qs|, DnsHeaderSize) == Ok(e)
    requires end == DnsHeaderSize + |e| <= |buf| && buf[DnsHeaderSize..end] == e
    ensures DecodeQuestions(buf, DnsHeaderSize, |qs|) == Ok((qs, end))
  {
    QuestionsRoundTrip(qs, |qs|, DnsHeaderSize, e, buf);
    var d := DecodeQuestions(buf, DnsHeaderSize, |qs|);
    assert qs[..|qs|] == qs;
    assert d.Ok? && d.value.0 == qs && d.value.1 == end;
  }

  /** A record section written at `start` reads back from there, ending at `end`, where its
      bytes end. */
  lemma RecordSectionOfBuffer(rs: seq<DnsRecord>, buf: seq<u8>, start: nat, e: seq<u8>, end: nat)
    requires ValidRecords(rs) && AllHaveData(rs, |rs|)
    requires EncodeRecords(rs, |rs|, start) == Ok(e)
    requires end == start + |e| <= |buf| && buf[start..end] == e
    ensures DecodeRecords(buf, start, |rs|) == Ok((rs, end))
  {
    RecordsRoundTrip(rs, |rs|, start, e, buf);
    var d := DecodeRecords(buf, start, |rs|);
    assert rs[..|rs|] == rs;
    assert d.Ok? && d.value.0 == rs && d.value.1 == end;
  }

  /** A buffer that starts with `p + t` starts with `p`. */
  lemma PrefixOf(buf: seq<u8>, w: seq<u8>, p: seq<u8>, t: seq<u8>)
    requires w == p + t && |w| <= |buf| && buf[..|w|] == w
    ensures buf[..|p|] == p
  {
    assert buf[..|p|] == buf[..|w|][..|p|];
  }

  /** A buffer that starts with `p + m` holds `m` right after `p`. */
  lemma LastPart(buf: seq<u8>, p: seq<u8>, m: seq<u8>)
    requires |p + m| <= |buf| && buf[..|p + m|] == p + m
    ensures buf[|p|..|p| + |m|] == m
  {
    assert buf[|p|..|p| + |m|] == buf[..|p + m|][|p|..];
  }

  /** The zero-padded buffer dns_message_to_buffer returns reads back as the message. */
  lemma BufferRoundTrip(c: MessageContents)
    requires Encodable(c) && Valid(c) && EncodeMessage(c).Ok?
    ensures DecodeMessage(Padded(EncodeMessage(c).value)) == Ok(c)
  {
    MessageRoundTrip(c, EncodeMessage(c).value, Padded(EncodeMessage(c).value));
  }

  /** The size dns_message_to_buffer reports: 12 bytes of header, the name and four bytes
      of every question, and the name, ten bytes and the data of every record. */
  lemma MessageLength(c: MessageContents)
    requires Encodable(c) && EncodeMessage(c).Ok?
    ensures |EncodeMessage(c).value|
            == DnsHeaderSize + QuestionsSize(c.questions, |c.questions|) + RecordsSize(c.answers, |c.answers|)
               + RecordsSize(c.authorities, |c.authorities|) + RecordsSize(c.additional, |c.additional|)
  {
    var h := HeaderBytes(c.header);
    var qd := WithQuestions(h, c.questions);
    var an := WithRecords(qd, c.answers);
    var ns := WithRecords(an, c.authorities);
    var ar := WithRecords(ns, c.additional);
    assert ar == EncodeMessage(c);
    RecordsAppendedLength(ns, c.additional, ar);
    RecordsAppendedLength(an, c.authorities, ns);
    RecordsAppendedLength(qd, c.answers, an);
    AppendedLength(h, c.questions, qd);
  }

  /** The question section adds its size to the bytes before it. */
  lemma AppendedLength(w: seq<u8>, qs: seq<DnsQuestion>, r: Result<seq<u8>>)
    requires |w| <= MaxDnsMessageSize && r == WithQuestions(w, qs) && r.Ok?
    ensures |r.value| == |w| + QuestionsSize(qs, |qs|)
  {
    QuestionsLength(qs, |qs|, |w|);
  }

  /** A record section adds its size to the bytes before it. */
  lemma RecordsAppendedLength(prefix: Result<seq<u8>>, rs: seq<DnsRecord>, r: Result<seq<u8>>)
    requires AllHaveData(rs, |rs|) && (prefix.Ok? ==> |prefix.value| <= MaxDnsMessageSize)
    requires r == WithRecords(prefix, rs)
    ensures r.Ok? ==> prefix.Ok? && |r.value| == |prefix.value| + RecordsSize(rs, |rs|)
  {
    if r.Ok? {
      RecordsLength(rs, |rs|, |prefix.value|);
    }
  }

  // ---------------------------------------------------------------------------------------
  // The message object.

  /** The entries of a section as dns_message_to_buffer takes them: the first `count` of its
      array, none when the header counts none. */
  function Entries<T>(a: array?<T>, count: nat): (s: seq<T>)
    reads a
    requires count > 0 ==> a != null && count <= a.Length
    ensures |s| == count
  {
    if count == 0 then [] else a[..count]
  }

  /** A section's field, `a`, as `s` says parse_dns_message leaves it; `before` is what it
      held before. */
  ghost predicate Left<T>(a: array?<T>, before: array?<T>, s: Slot<T>)
    reads a
  {
    if s.Untouched? then a == before else Stored(a, s)
  }

  /** A field the parser has set: null, or an array holding the entries. */
  ghost predicate Stored<T>(a: array?<T>, s: Slot<T>)
    reads a
  {
    if s.Filled? then a != null && a[..] == s.entries
    else if s.Allocated? then a != null
    else a == null
  }

  /** The entries of a section stored by the parser are the ones dns_message_to_buffer
      takes back. */
  lemma EntriesOfStored<T>(a: array?<T>, entries: seq<T>)
    requires Stored(a, SlotOf(Ok((entries, 0))))
    ensures |entries| > 0 ==> a != null && |entries| <= a.Length
    ensures Entries(a, |entries|) == entries
  {
    if |entries| > 0 {
      assert a[..|entries|] == a[..];
    }
  }

  /** Success or the error, without the content. */
  function Status<T>(r: Result<T>): Result<()> {
    match r
    case Ok(_) => Ok(())
    case Err(e) => Err(e)
  }

  /** DnsMessage: the header and one array per section. */
  class DnsMessage {
    var header: DnsHeader
    var questions: array?<DnsQuestion>
    var answers: array?<DnsRecord>
    var authorities: array?<DnsRecord>
    var additional: array?<DnsRecord>

    /** A message with the given header and no sections. */
    constructor (h: DnsHeader)
      ensures header == h
      ensures questions == null && answers == null && authorities == null && additional == null
    {
      header := h;
      questions := null;
      answers := null;
      authorities := null;
      additional := null;
    }

    /** Every section the header counts entries for has an array with at least that many:
        what dns_message_to_buffer reads without checking. */
    predicate Supplied()
      reads this
    {
      (header.qdCount > 0 ==> questions != null && header.qdCount <= questions.Length)
      && (header.anCount > 0 ==> answers != null && header.anCount <= answers.Length)
      && (header.nsCount > 0 ==> authorities != null && header.nsCount <= authorities.Length)
      && (header.arCount > 0 ==> additional != null && header.arCount <= additional.Length)
    }

    /** The message's content: its header and the entries its header counts. */
    function Contents(): (c: MessageContents)
      reads this, questions, answers, authorities, additional
      requires Supplied()
      ensures Counted(c) && c.header == header
    {
      MessageContents(header, Entries(questions, header.qdCount), Entries(answers, header.anCount),
                      Entries(authorities, header.nsCount), Entries(additional, header.arCount))
    }

    /** free_dns_message: each section the header counts entries for is released and its
        field set to null; the others are left as they are. */
    method FreeDnsMessage()
      modifies this
      ensures header == old(header)
      ensures questions == if header.qdCount > 0 then null else old(questions)
      ensures answers == if header.anCount > 0 then null else old(answers)
      ensures authorities == if header.nsCount > 0 then null else old(authorities)
      ensures additional == if header.arCount > 0 then null else old(additional)
    {
      if header.qdCount > 0 {
        questions := null;
      }
      if header.anCount > 0 {
        answers := null;
      }
      if header.nsCount > 0 {
        authorities := null;
      }
      if header.arCount > 0 {
        additional := null;
      }
    }
  }

  // ---------------------------------------------------------------------------------------
  // Parsing in place.

  /** parse_dns_message into `m`. It fails exactly when DecodeMessage does, with the same
      error. The header is stored first; then each section in turn gets a new array
      holding its entries, or null when the header counts none. A section that fails
      leaves its own field null and the fields of the sections after it untouched; see
      OutcomeAsWritten for the fields the source leaves. */
  method ParseDnsMessage(buf: seq<u8>, m: DnsMessage) returns (r: Result<()>)
    modifies m
    ensures r == Status(DecodeMessage(buf))
    ensures r.Ok? ==> m.Supplied() && m.Contents() == DecodeMessage(buf).value
    ensures m.header == if |buf| < DnsHeaderSize then old(m.header) else ParseDnsHeader(buf)
    ensures var o := ParseOutcomeOf(buf);
            Left(m.questions, old(m.questions), o.questions) && Left(m.answers, old(m.answers), o.answers)
            && Left(m.authorities, old(m.authorities), o.authorities)
            && Left(m.additional, old(m.additional), o.additional)
    ensures m.questions == old(m.questions) || m.questions == null || fresh(m.questions)
    ensures m.answers == old(m.answers) || m.answers == null || fresh(m.answers)
    ensures m.authorities == old(m.authorities) || m.authorities == null || fresh(m.authorities)
    ensures m.additional == old(m.additional) || m.additional == null || fresh(m.additional)
  {
    if |buf| < DnsHeaderSize {
      return Err(Truncated);
    }
    m.header := ParseDnsHeader(buf);
    r := ParseSections(buf, m);
  }

  /** The section blocks of parse_dns_message, once the header is stored: the questions,
      then the records. */
  method ParseSections(buf: seq<u8>, m: DnsMessage) returns (r: Result<()>)
    requires |buf| >= DnsHeaderSize && m.header == ParseDnsHeader(buf)
    modifies m
    ensures m.header == old(m.header)
    ensures r == Status(Assemble(m.header, ReadSections(buf)))
    ensures r.Ok? ==> m.Supplied() && m.Contents() == Assemble(m.header, ReadSections(buf)).value
    ensures var o := OutcomeOf(ReadSections(buf));
            Left(m.questions, old(m.questions), o.questions) && Left(m.answers, old(m.answers), o.answers)
            && Left(m.authorities, old(m.authorities), o.authorities)
            && Left(m.additional, old(m.additional), o.additional)
    ensures m.questions == old(m.questions) || m.questions == null || fresh(m.questions)
    ensures m.answers == old(m.answers) || m.answers == null || fresh(m.answers)
    ensures m.authorities == old(m.authorities) || m.authorities == null || fresh(m.authorities)
    ensures m.additional == old(m.additional) || m.additional == null || fresh(m.additional)
  {
    ghost var s := ReadSections(buf);
    ghost var qd := DecodeQuestions(buf, DnsHeaderSize, m.header.qdCount);
    assert s.questions == qd;
    var questions, next := ParseQuestionSection(buf, m.header.qdCount);
    m.questions := questions;
    if next.Err? {
      QuestionsFail(s, m.header);
      return Err(next.error);
    }
    r := ParseFromAnswers(buf, m, next.value);
    QuestionsStored(s, m.header);
    if r.Ok? {
      EntriesOfStored(questions, qd.value.0);
    }
  }

  /** The record blocks of parse_dns_message, once the questions are read and end at
      `start`: the answers, then the rest. */
  method ParseFromAnswers(buf: seq<u8>, m: DnsMessage, start: nat) returns (r: Result<()>)
    requires |buf| >= DnsHeaderSize && m.header == ParseDnsHeader(buf)
    requires var s := ReadSections(buf); s.questions.Ok? && s.questions.value.1 == start
    modifies m
    ensures m.header == old(m.header) && m.questions == old(m.questions)
    ensures r == Status(Assemble(m.header, ReadSections(buf)))
    ensures var o := OutcomeOf(ReadSections(buf));
            Left(m.answers, old(m.answers), o.answers) && Left(m.authorities, old(m.authorities), o.authorities)
            && Left(m.additional, old(m.additional), o.additional)
    ensures r.Ok? ==> var c := Assemble(m.header, ReadSections(buf)).value;
                      (m.header.anCount > 0 ==> m.answers != null && m.header.anCount <= m.answers.Length)
                      && Entries(m.answers, m.header.anCount) == c.answers
                      && (m.header.nsCount > 0 ==> m.authorities != null && m.header.nsCount <= m.authorities.Length)
                      && Entries(m.authorities, m.header.nsCount) == c.authorities
                      && (m.header.arCount > 0 ==> m.additional != null && m.header.arCount <= m.additional.Length)
                      && Entries(m.additional, m.header.arCount) == c.additional
    ensures m.answers == old(m.answers) || m.answers == null || fresh(m.answers)
    ensures m.authorities == old(m.authorities) || m.authorities == null || fresh(m.authorities)
    ensures m.additional == old(m.additional) || m.additional == null || fresh(m.additional)
  {
    ghost var s := ReadSections(buf);
    ghost var an := DecodeRecords(buf, start, m.header.anCount);
    assert s.answers == an;
    var answers, next := ParseRecordSection(buf, start, m.header.anCount);
    m.answers := answers;
    if next.Err? {
      AnswersFail(s, m.header);
      return Err(next.error);
    }
    r := ParseFromAuthorities(buf, m, next.value);
    AnswersStored(s, m.header);
    if r.Ok? {
      EntriesOfStored(answers, an.value.0);
    }
  }

  /** The authority and additional blocks of parse_dns_message, once the answers are read
      and end at `start`. */
  method ParseFromAuthorities(buf: seq<u8>, m: DnsMessage, start: nat) returns (r: Result<()>)
    requires |buf| >= DnsHeaderSize && m.header == ParseDnsHeader(buf)
    requires var s := ReadSections(buf); s.questions.Ok? && s.answers.Ok? && s.answers.value.1 == start
    modifies m
    ensures m.header == old(m.header) && m.questions == old(m.questions) && m.answers == old(m.answers)
    ensures r == Status(Assemble(m.header, ReadSections(buf)))
    ensures var o := OutcomeOf(ReadSections(buf));
            Left(m.authorities, old(m.authorities), o.authorities) && Left(m.additional, old(m.additional), o.additional)
    ensures r.Ok? ==> var c := Assemble(m.header, ReadSections(buf)).value;
                      (m.header.nsCount > 0 ==> m.authorities != null && m.header.nsCount <= m.authorities.Length)
                      && Entries(m.authorities, m.header.nsCount) == c.authorities
                      && (m.header.arCount > 0 ==> m.additional != null && m.header.arCount <= m.additional.Length)
                      && Entries(m.additional, m.header.arCount) == c.additional
    ensures m.authorities == old(m.authorities) || m.authorities == null || fresh(m.authorities)
    ensures m.additional == old(m.additional) || m.additional == null || fresh(m.additional)
  {
    ghost var s := ReadSections(buf);
    ghost var ns := DecodeRecords(buf, start, m.header.nsCount);
    assert s.authorities == ns;
    var authorities, next := ParseRecordSection(buf, start, m.header.nsCount);
    m.authorities := authorities;
    if next.Err? {
      AuthoritiesFail(s, m.header);
      return Err(next.error);
    }
    ghost var ar := DecodeRecords(buf, next.value, m.header.arCount);
    assert s.additional == ar;
    var additional, last := ParseRecordSection(buf, next.value, m.header.arCount);
    m.additional := additional;
    if last.Err? {
      AdditionalFail(s, m.header);
      return Err(last.error);
    }
    SectionsAllRead(s, m.header);
    EntriesOfStored(authorities, ns.value.0);
    EntriesOfStored(additional, ar.value.0);
    return Ok(());
  }

  /** The question section fails: so does the message, and only the questions' field is
      set. */
  lemma QuestionsFail(s: SectionReads, h: DnsHeader)
    requires s.questions.Err?
    ensures Assemble(h, s) == Err(s.questions.error)
    ensures OutcomeOf(s) == ParseOutcome(Cleared, Untouched, Untouched, Untouched)
  {
  }

  /** Once the questions are read, their field is set whatever follows. */
  lemma QuestionsStored(s: SectionReads, h: DnsHeader)
    requires s.questions.Ok?
    ensures OutcomeOf(s).questions == SlotOf(s.questions)
    ensures Assemble(h, s).Ok? ==> Assemble(h, s).value.questions == s.questions.value.0
  {
  }

  /** The answer section fails after the questions are read. */
  lemma AnswersFail(s: SectionReads, h: DnsHeader)
    requires s.questions.Ok? && s.answers.Err?
    ensures Assemble(h, s) == Err(s.answers.error)
    ensures OutcomeOf(s) == ParseOutcome(SlotOf(s.questions), Cleared, Untouched, Untouched)
  {
  }

  /** Once the answers are read, their field is set whatever follows. */
  lemma AnswersStored(s: SectionReads, h: DnsHeader)
    requires s.questions.Ok? && s.answers.Ok?
    ensures OutcomeOf(s).answers == SlotOf(s.answers)
    ensures Assemble(h, s).Ok? ==> Assemble(h, s).value.answers == s.answers.value.0
  {
  }

  /** The authority section fails after the questions and answers are read. */
  lemma AuthoritiesFail(s: SectionReads, h: DnsHeader)
    requires s.questions.Ok? && s.answers.Ok? && s.authorities.Err?
    ensures Assemble(h, s) == Err(s.authorities.error)
    ensures OutcomeOf(s) == ParseOutcome(SlotOf(s.questions), SlotOf(s.answers), Cleared, Untouched)
  {
  }

  /** The additional section fails after the other three are read. */
  lemma AdditionalFail(s: SectionReads, h: DnsHeader)
    requires s.questions.Ok? && s.answers.Ok? && s.authorities.Ok? && s.additional.Err?
    ensures Assemble(h, s) == Err(s.additional.error)
    ensures OutcomeOf(s) == ParseOutcome(SlotOf(s.questions), SlotOf(s.answers), SlotOf(s.authorities), Cleared)
  {
  }

  /** All four sections are read: the message is their entries. */
  lemma SectionsAllRead(s: SectionReads, h: DnsHeader)
    requires s.questions.Ok? && s.answers.Ok? && s.authorities.Ok? && s.additional.Ok?
    ensures Assemble(h, s) == Ok(MessageContents(h, s.questions.value.0, s.answers.value.0,
                                                 s.authorities.value.0, s.additional.value.0))
    ensures OutcomeOf(s)
            == ParseOutcome(SlotOf(s.questions), SlotOf(s.answers), SlotOf(s.authorities), SlotOf(s.additional))
  {
  }

  /** The question block of parse_dns_message: no array when the header counts no
      questions; otherwise a new array of that many, filled by parse_dns_questions and
      released when it fails. The cursor returned is one past the section's last byte. */
  method ParseQuestionSection(buf: seq<u8>, count: u16) returns (a: array?<DnsQuestion>, r: Result<nat>)
    requires |buf| >= DnsHeaderSize && count == QuestionCount(buf)
    ensures r == Cursor(DecodeQuestions(buf, DnsHeaderSize, count))
    ensures Stored(a, SlotOf(DecodeQuestions(buf, DnsHeaderSize, count)))
    ensures a == null || fresh(a)
  {
    if count == 0 {
      return null, Ok(DnsHeaderSize);
    }
    a := new DnsQuestion[count];
    var end := ParseDnsQuestions(buf, a);
    if end.Err? {
      return null, Err(end.error);
    }
    r := Ok(end.value + 1);
  }

  /** A record block of parse_dns_message: no array when the header counts no records;
      otherwise a new array of that many, filled by parse_dns_records from `start` on and
      released when it fails. */
  method ParseRecordSection(buf: seq<u8>, start: nat, count: u16) returns (a: array?<DnsRecord>, r: Result<nat>)
    ensures r == Cursor(DecodeRecords(buf, start, count))
    ensures Stored(a, SlotOf(DecodeRecords(buf, start, count)))
    ensures a == null || fresh(a)
  {
    if count == 0 {
      return null, Ok(start);
    }
    a := new DnsRecord[count];
    var end := ParseDnsRecords(buf, a, start, count);
    if end.Err? {
      return null, Err(end.error);
    }
    r := Ok(end.value + 1);
  }

  // ---------------------------------------------------------------------------------------
  // Writing in place.

  /** dns_message_to_buffer: a new zeroed 512-byte buffer, the header, then each section the
      header counts entries for. It fails exactly when EncodeMessage does, with the same
      error; otherwise the buffer holds the message's bytes followed by zeros and the size
      reported is their number. */
  method DnsMessageToBuffer(m: DnsMessage) returns (r: Result<(array<u8>, nat)>)
    requires m.Supplied() && Encodable(m.Contents())
    ensures var e := EncodeMessage(m.Contents());
            (r.Ok? <==> e.Ok?) && (r.Err? ==> r.error == e.error)
            && (r.Ok? ==> fresh(r.value.0) && r.value.1 == |e.value| && r.value.0[..] == Padded(e.value))
  {
    ghost var c := m.Contents();
    var buf := new u8[MaxDnsMessageSize](_ => 0);
    ghost var zeros := buf[..];
    DnsHeaderToBuffer(m.header, buf);
    ghost var h := HeaderBytes(m.header);
    ZerosAfterHeader(zeros, buf[..], h);
    ghost var e1 := WithQuestions(h, c.questions);
    var qd := WriteQuestionSection(Entries(m.questions, m.header.qdCount), buf, DnsHeaderSize, h);
    if qd.Err? {
      return Err(qd.error);
    }
    ghost var e2 := WithRecords(e1, c.answers);
    var an := WriteRecordSection(Entries(m.answers, m.header.anCount), buf, qd.value, e1.value);
    if an.Err? {
      return Err(an.error);
    }
    ghost var e3 := WithRecords(e2, c.authorities);
    var ns := WriteRecordSection(Entries(m.authorities, m.header.nsCount), buf, an.value, e2.value);
    if ns.Err? {
      return Err(ns.error);
    }
    var ar := WriteRecordSection(Entries(m.additional, m.header.arCount), buf, ns.value, e3.value);
    if ar.Err? {
      return Err(ar.error);
    }
    return Ok((buf, ar.value));
  }

  /** The zeroed buffer once the header is stored holds the header and zeros. */
  lemma ZerosAfterHeader(zeros: seq<u8>, cur: seq<u8>, h: seq<u8>)
    requires |zeros| == |cur| == MaxDnsMessageSize && forall j | 0 <= j < |zeros| :: zeros[j] == 0
    requires |h| == DnsHeaderSize && cur[..DnsHeaderSize] == h
    requires cur[DnsHeaderSize..] == zeros[DnsHeaderSize..]
    ensures cur == Padded(h)
  {
    forall j | 0 <= j < MaxDnsMessageSize ensures cur[j] == Padded(h)[j] {
      if j >= DnsHeaderSize {
        assert cur[j] == cur[DnsHeaderSize..][j - DnsHeaderSize];
      } else {
        assert cur[j] == cur[..DnsHeaderSize][j];
      }
    }
  }

  /** The question block of dns_message_to_buffer, after the `w` bytes already written: a
      section the header counts no questions for is skipped; otherwise the size becomes one
      past the index of the last byte written. */
  method WriteQuestionSection(qs: seq<DnsQuestion>, buf: array<u8>, size: nat, ghost w: seq<u8>)
    returns (r: Result<nat>)
    requires buf.Length == MaxDnsMessageSize && size == |w| <= MaxDnsMessageSize && buf[..] == Padded(w)
    modifies buf
    ensures var e := WithQuestions(w, qs);
            (r.Ok? <==> e.Ok?) && (r.Err? ==> r.error == e.error)
            && (r.Ok? ==> r.value == |e.value| && buf[..] == Padded(e.value))
  {
    if |qs| == 0 {
      assert w + [] == w;
      return Ok(size);
    }
    ghost var orig := buf[..];
    var end := DnsQuestionsToBuffer(qs, |qs|, buf, size);
    if end.Err? {
      return Err(end.error);
    }
    PaddedAppend(orig, buf[..], w, EncodeQuestions(qs, |qs|, |w|).value);
    return Ok(end.value + 1);
  }

  /** A record block of dns_message_to_buffer, after the `w` bytes already written. */
  method WriteRecordSection(rs: seq<DnsRecord>, buf: array<u8>, size: nat, ghost w: seq<u8>)
    returns (r: Result<nat>)
    requires AllHaveData(rs, |rs|)
    requires buf.Length == MaxDnsMessageSize && size == |w| <= MaxDnsMessageSize && buf[..] == Padded(w)
    modifies buf
    ensures var e := WithRecords(Ok(w), rs);
            (r.Ok? <==> e.Ok?) && (r.Err? ==> r.error == e.error)
            && (r.Ok? ==> r.value == |e.value| && buf[..] == Padded(e.value))
  {
    if |rs| == 0 {
      assert w + [] == w;
      return Ok(size);
    }
    ghost var orig := buf[..];
    var end := DnsRecordsToBuffer(rs, |rs|, buf, size);
    if end.Err? {
      return Err(end.error);
    }
    PaddedAppend(orig, buf[..], w, EncodeRecords(rs, |rs|, |w|).value);
    return Ok(end.value + 1);
  }

  /** Writing `e` right after `w` in the zero-padded buffer of `w`, and nothing else, gives
      the zero-padded buffer of `w + e`. */
  lemma PaddedAppend(orig: seq<u8>, cur: seq<u8>, w: seq<u8>, e: seq<u8>)
    requires |w| <= MaxDnsMessageSize && orig == Padded(w) && |cur| == MaxDnsMessageSize
    requires |w| + |e| <= |cur| && cur[|w|..|w| + |e|] == e
    requires forall j | 0 <= j < |w| && j < |cur| :: cur[j] == orig[j]
    requires forall j | |w| + |e| <= j < |cur| :: cur[j] == orig[j]
    ensures cur == Padded(w + e)
  {
    var p := Padded(w + e);
    forall j | 0 <= j < MaxDnsMessageSize ensures cur[j] == p[j] {
      if j < |w| {
        assert cur[j] == orig[..|w|][j] == w[j] == p[..|w + e|][j];
      } else if j < |w| + |e| {
        assert cur[j] == cur[|w|..|w| + |e|][j - |w|] == e[j - |w|] == p[..|w + e|][j];
      }
    }
  }

  // ---------------------------------------------------------------------------------------
  // The source as written.

  /** The fields parse_dns_message leaves as written. A failing question or answer section
      frees and clears its own field, but the failure branch of the authority and of the
      additional section frees and clears the answers: the answers already read are lost,
      and the failing section's new array stays allocated. */
  function OutcomeAsWritten(s: SectionReads): ParseOutcome {
    if s.questions.Err? || s.answers.Err? then OutcomeOf(s)
    else if s.authorities.Err? then ParseOutcome(SlotOf(s.questions), Cleared, Allocated, Untouched)
    else if s.additional.Err? then ParseOutcome(SlotOf(s.questions), Cleared, SlotOf(s.authorities), Allocated)
    else OutcomeOf(s)
  }

  /** As written, the fields are the ones the model leaves exactly when the message does not
      fail in the authority or additional section. */
  lemma OutcomeAsWrittenAgrees(s: SectionReads)
    ensures OutcomeAsWritten(s) == OutcomeOf(s)
            <==> s.questions.Err? || s.answers.Err? || (s.authorities.Ok? && s.additional.Ok?)
  {
  }

  /** A failure in the authority or additional section, as written, clears the answers that
      were read, where the model keeps them, and leaves the failing section's array
      allocated, where the model clears it. */
  lemma OutcomeAsWrittenLosesAnswers(s: SectionReads)
    requires s.questions.Ok? && s.answers.Ok? && (s.authorities.Err? || s.additional.Err?)
    ensures OutcomeAsWritten(s).answers == Cleared && OutcomeOf(s).answers == SlotOf(s.answers)
    ensures s.authorities.Err? ==> OutcomeAsWritten(s).authorities == Allocated && OutcomeOf(s).authorities == Cleared
    ensures s.authorities.Ok? ==> OutcomeAsWritten(s).additional == Allocated && OutcomeOf(s).additional == Cleared
  {
  }
}
