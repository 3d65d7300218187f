/** lib/src/compass_dns.c: the earlier, questions-only revision of the codec.

    Its name walk (calc_domain_size and retrieve_domain, compass_dns.c:16-78) and its header
    codec (parse_dns_header and dns_header_to_buffer, compass_dns.c:80-112) are the same
    code as lib/src/celest_dns.c's, and are modelled once, by Names.CalcDomainSize,
    Names.RetrieveDomain, Header.ParseDnsHeader and Header.DnsHeaderToBuffer. What this
    revision does differently is modelled here: its two-byte helpers take and write single
    bytes, a question keeps the size calc_domain_size reported, and parse_dns_questions sets
    no limit on a name's length. */
module Compass {
  import opened Wire
  import opened Header
  import opened Names
  import Sections

  /** big_endian_chars_to_short: the 16-bit value whose base-256 digits are the two bytes,
      the most significant first. */
  function BigEndianCharsToShort(mostSig: u8, leastSig: u8): (v: u16)
    ensures v / 256 == mostSig && v % 256 == leastSig
  {
    mostSig * 256 + leastSig
  }

  /** short_to_big_endian_chars, writing at `off`: the low byte first, as `value % 256`, then
      the high byte from what is left. The two bytes read back as the value, and nothing
      else in the buffer changes. */
  method ShortToBigEndianChars(buf: array<u8>, off: nat, value: u16)
    requires off + 2 <= buf.Length
    modifies buf
    ensures BigEndianCharsToShort(buf[off], buf[off + 1]) == value
    ensures forall i | 0 <= i < buf.Length && i != off && i != off + 1 :: buf[i] == old(buf[i])
  {
    buf[off + 1] := value % 256;
    buf[off] := (value - buf[off + 1]) / 256;
  }

  /** Writing a value's bytes and reading them back gives the value; reading two bytes and
      writing the value gives the two bytes. */
  lemma ShortRoundTrip(mostSig: u8, leastSig: u8, value: u16)
    ensures U16Bytes(BigEndianCharsToShort(mostSig, leastSig)) == [mostSig, leastSig]
    ensures BigEndianCharsToShort(U16Bytes(value)[0], U16Bytes(value)[1]) == value
  {
  }

  /** The two-byte reader of this revision and the pointer-style reader of celest_dns.c
      agree on every pair of bytes. */
  lemma ShortAgrees(b: seq<u8>, off: nat)
    requires off + 2 <= |b|
    ensures BigEndianCharsToShort(b[off], b[off + 1]) == BigEndianCharsToU16(b, off)
  {
  }

  /** A question as compass_dns.h declares it: besides the name, its type and its class,
      the size calc_domain_size reported for the name, which parse_dns_questions keeps. */
  datatype CompassQuestion = CompassQuestion(domain: seq<u8>, domainSize: nat, qType: u16, qClass: u16)

  /** One question as parse_dns_questions reads it from `pos`: the name, whatever its
      length, with the size of its string; then the type and the class. The cursor after the
      name is one past where retrieve_domain says it ends. */
  function DecodeQuestion(buf: seq<u8>, pos: nat): (r: Result<(CompassQuestion, nat)>)
    ensures r.Ok? ==> pos + 5 <= r.value.1 <= |buf|
    ensures r.Ok? ==> r.value.0.domainSize == |r.value.0.domain| + 1
  {
    match Labels(buf, pos, pos)
    case Err(e) => Err(e)
    case Ok(labels) =>
      RunEndInBounds(buf, pos, pos);
      var next := RunEnd(buf, pos) + 1;
      if next + 4 > |buf| then Err(Truncated)
      else Ok((CompassQuestion(Join(labels), |Join(labels)| + 1,
                               BigEndianCharsToShort(buf[next], buf[next + 1]),
                               BigEndianCharsToShort(buf[next + 2], buf[next + 3])),
               next + 4))
  }

  /** `count` questions from `pos` on, each starting where the one before ended. */
  function DecodeQuestions(buf: seq<u8>, pos: nat, count: nat): (r: Result<(seq<CompassQuestion>, nat)>)
    ensures r.Ok? ==> |r.value.0| == count && pos + 5 * count <= r.value.1
    ensures r.Ok? && count > 0 ==> r.value.1 <= |buf|
  {
    if count == 0 then Ok(([], pos))
    else
      match DecodeQuestions(buf, pos, count - 1)
      case Err(e) => Err(e)
      case Ok((front, next)) =>
        match DecodeQuestion(buf, next)
        case Err(e) => Err(e)
        case Ok((q, end)) => Ok((front + [q], end))
  }

  /** The question count parse_dns_questions reads from bytes 4 and 5 of the header. */
  function QdCount(buf: seq<u8>): u16
    requires |buf| >= DnsHeaderSize
  {
    BigEndianCharsToShort(buf[4], buf[5])
  }

  /** The questions parse_dns_questions reads: as many as the header counts, from the end of
      the header on. */
  function ParsedQuestions(buf: seq<u8>): Result<(seq<CompassQuestion>, nat)>
    requires |buf| >= DnsHeaderSize
  {
    DecodeQuestions(buf, DnsHeaderSize, QdCount(buf))
  }

  /** Once a question fails to decode, so does every longer section. */
  lemma {:induction false} QuestionsErrPersists(buf: seq<u8>, pos: nat, k: nat, n: nat)
    requires k <= n && DecodeQuestions(buf, pos, k).Err?
    ensures DecodeQuestions(buf, pos, n) == DecodeQuestions(buf, pos, k)
    decreases n
  {
    if n > k {
      QuestionsErrPersists(buf, pos, k, n - 1);
    }
  }

  /** One more question after `n` decoded ones: it is appended, or its error is the
      section's. */
  lemma QuestionsStep(buf: seq<u8>, pos: nat, n: nat, front: seq<CompassQuestion>, index: nat)
    requires DecodeQuestions(buf, pos, n) == Ok((front, index))
    ensures DecodeQuestion(buf, index).Err? ==>
              DecodeQuestions(buf, pos, n + 1) == Err(DecodeQuestion(buf, index).error)
    ensures DecodeQuestion(buf, index).Ok? ==>
              DecodeQuestions(buf, pos, n + 1)
              == Ok((front + [DecodeQuestion(buf, index).value.0], DecodeQuestion(buf, index).value.1))
  {
  }

  /** parse_dns_questions: reads the count from bytes 4 and 5 and fills the caller's array
      from offset 12 on; each turn takes the name's size with calc_domain_size and the name
      with retrieve_domain, with no check of the size in between, then the type and the
      class. The result is the index of the last byte read, which the source stores through
      its third parameter. Entry `i` goes to slot `i`; Sections.SlotAsWritten gives where
      the source puts it. */
  method ParseDnsQuestions(buf: seq<u8>, questions: array<CompassQuestion>) returns (r: Result<int>)
    requires |buf| >= DnsHeaderSize
    requires questions.Length == QdCount(buf)
    modifies questions
    ensures r == Sections.EndIndex(ParsedQuestions(buf))
    ensures r.Ok? ==> questions[..] == ParsedQuestions(buf).value.0
  {
    var qdCount: nat := BigEndianCharsToShort(buf[4], buf[5]);
    var index: nat := DnsHeaderSize;
    var i: nat := 0;
    ghost var front: seq<CompassQuestion> := [];
    while i < qdCount
      invariant i <= qdCount == questions.Length
      invariant questions[..i] == front
      invariant DecodeQuestions(buf, DnsHeaderSize, i) == Ok((front, index))
    {
      QuestionsStep(buf, DnsHeaderSize, i, front, index);
      var size := CalcDomainSize(buf, index);
      if size.Err? {
        QuestionsErrPersists(buf, DnsHeaderSize, i + 1, qdCount);
        return Err(size.error);
      }
      var retrieved := RetrieveDomain(buf, index);
      RunEndInBounds(buf, index, index);
      var domain, domainEnd := retrieved.value.0, retrieved.value.1;
      index := domainEnd + 1;
      if index + 4 > |buf| {
        QuestionsErrPersists(buf, DnsHeaderSize, i + 1, qdCount);
        return Err(Truncated);
      }
      var qType := BigEndianCharsToShort(buf[index], buf[index + 1]);
      index := index + 2;
      var qClass := BigEndianCharsToShort(buf[index], buf[index + 1]);
      index := index + 2;
      var q := CompassQuestion(domain, size.value, qType, qClass);
      questions[i] := q;
      front := front + [q];
      assert questions[..i + 1] == front;
      i := i + 1;
    }
    assert questions[..] == front;
    return Ok(index - 1);
  }

  // ---------------------------------------------------------------------------------------
  // The two revisions side by side.

  /** What celest_dns.c keeps of a question: everything but the size. */
  function Celest(q: CompassQuestion): Sections.DnsQuestion {
    Sections.DnsQuestion(q.domain, q.qType, q.qClass)
  }

  function CelestAll(qs: seq<CompassQuestion>): (cs: seq<Sections.DnsQuestion>)
    ensures |cs| == |qs| && forall i | 0 <= i < |qs| :: cs[i] == Celest(qs[i])
  {
    if |qs| == 0 then [] else CelestAll(qs[..|qs| - 1]) + [Celest(qs[|qs| - 1])]
  }

  /** Every name is within the limit celest_dns.c enforces. */
  predicate WithinLimit(qs: seq<CompassQuestion>) {
    forall i | 0 <= i < |qs| :: |qs[i].domain| <= MaxDomainSize
  }

  /** One question read by both revisions from the same place: what celest_dns.c accepts,
      this revision reads alike, with the name's size; what this revision reads with a name
      within the limit, celest_dns.c reads alike; a longer name celest_dns.c rejects; and
      where this revision fails, so does celest_dns.c. */
  lemma QuestionAgrees(buf: seq<u8>, pos: nat)
    ensures Sections.DecodeQuestion(buf, pos).Ok? ==>
              DecodeQuestion(buf, pos).Ok?
              && Celest(DecodeQuestion(buf, pos).value.0) == Sections.DecodeQuestion(buf, pos).value.0
              && DecodeQuestion(buf, pos).value.1 == Sections.DecodeQuestion(buf, pos).value.1
    ensures DecodeQuestion(buf, pos).Ok? && |DecodeQuestion(buf, pos).value.0.domain| <= MaxDomainSize ==>
              Sections.DecodeQuestion(buf, pos)
              == Ok((Celest(DecodeQuestion(buf, pos).value.0), DecodeQuestion(buf, pos).value.1))
    ensures DecodeQuestion(buf, pos).Ok? && |DecodeQuestion(buf, pos).value.0.domain| > MaxDomainSize ==>
              Sections.DecodeQuestion(buf, pos) == Err(NameTooLong)
    ensures DecodeQuestion(buf, pos).Err? ==> Sections.DecodeQuestion(buf, pos).Err?
  {
    if Labels(buf, pos, pos).Ok? {
      RunEndInBounds(buf, pos, pos);
      var next := RunEnd(buf, pos) + 1;
      if next + 4 <= |buf| {
        ShortAgrees(buf, next);
        ShortAgrees(buf, next + 2);
      }
    }
  }

  /** Whole sections read by both revisions: what celest_dns.c accepts this revision reads
      alike; what this revision reads with every name within the limit celest_dns.c reads
      alike; and where this revision fails, so does celest_dns.c. */
  lemma {:induction false} QuestionsAgree(buf: seq<u8>, pos: nat, n: nat)
    ensures Sections.DecodeQuestions(buf, pos, n).Ok? ==>
              DecodeQuestions(buf, pos, n).Ok?
              && CelestAll(DecodeQuestions(buf, pos, n).value.0) == Sections.DecodeQuestions(buf, pos, n).value.0
              && DecodeQuestions(buf, pos, n).value.1 == Sections.DecodeQuestions(buf, pos, n).value.1
    ensures DecodeQuestions(buf, pos, n).Ok? && WithinLimit(DecodeQuestions(buf, pos, n).value.0) ==>
              Sections.DecodeQuestions(buf, pos, n)
              == Ok((CelestAll(DecodeQuestions(buf, pos, n).value.0), DecodeQuestions(buf, pos, n).value.1))
    ensures DecodeQuestions(buf, pos, n).Err? ==> Sections.DecodeQuestions(buf, pos, n).Err?
  {
    if n > 0 {
      QuestionsAgree(buf, pos, n - 1);
      var mine, theirs := DecodeQuestions(buf, pos, n - 1), Sections.DecodeQuestions(buf, pos, n - 1);
      if mine.Ok? {
        var front, next := mine.value.0, mine.value.1;
        QuestionAgrees(buf, next);
        if DecodeQuestion(buf, next).Ok? && WithinLimit(front + [DecodeQuestion(buf, next).value.0]) {
          assert WithinLimit(front) by {
            forall i | 0 <= i < |front|
              ensures |front[i].domain| <= MaxDomainSize
            {
              assert (front + [DecodeQuestion(buf, next).value.0])[i] == front[i];
            }
          }
          assert |DecodeQuestion(buf, next).value.0.domain| <= MaxDomainSize by {
            assert (front + [DecodeQuestion(buf, next).value.0])[|front|] == DecodeQuestion(buf, next).value.0;
          }
        }
      }
    }
  }

  /** A section this revision reads but with a name over the limit is one celest_dns.c
      rejects as too long: the first long name stops it. */
  lemma {:induction false} QuestionsRejectLong(buf: seq<u8>, pos: nat, n: nat)
    requires DecodeQuestions(buf, pos, n).Ok? && !WithinLimit(DecodeQuestions(buf, pos, n).value.0)
    ensures Sections.DecodeQuestions(buf, pos, n) == Err(NameTooLong)
  {
    var front, next := DecodeQuestions(buf, pos, n - 1).value.0, DecodeQuestions(buf, pos, n - 1).value.1;
    var q := DecodeQuestion(buf, next).value.0;
    assert DecodeQuestions(buf, pos, n).value.0 == front + [q];
    if WithinLimit(front) {
      QuestionsAgree(buf, pos, n - 1);
      QuestionAgrees(buf, next);
      assert |q.domain| > MaxDomainSize by {
        var i :| 0 <= i < |front + [q]| && |(front + [q])[i].domain| > MaxDomainSize;
      }
    } else {
      QuestionsRejectLong(buf, pos, n - 1);
    }
  }

  /** The size a question keeps is its name's length plus the string end, so the string
      retrieve_domain writes always fits the buffer calloc'd for it. */
  lemma SizeFitsDomain(buf: seq<u8>)
    requires |buf| >= DnsHeaderSize && ParsedQuestions(buf).Ok?
    ensures forall q | q in ParsedQuestions(buf).value.0 :: q.domainSize == |q.domain| + 1
  {
    QuestionSizes(buf, DnsHeaderSize, QdCount(buf));
  }

  lemma {:induction false} QuestionSizes(buf: seq<u8>, pos: nat, n: nat)
    requires DecodeQuestions(buf, pos, n).Ok?
    ensures forall q | q in DecodeQuestions(buf, pos, n).value.0 :: q.domainSize == |q.domain| + 1
  {
    if n > 0 {
      QuestionSizes(buf, pos, n - 1);
      var front, next := DecodeQuestions(buf, pos, n - 1).value.0, DecodeQuestions(buf, pos, n - 1).value.1;
      assert DecodeQuestions(buf, pos, n).value.0 == front + [DecodeQuestion(buf, next).value.0];
    }
  }
}
