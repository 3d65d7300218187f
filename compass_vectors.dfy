/** The question tests of lib/test/compass_dns_test.c, stated about Compass.ParsedQuestions,
    the function Compass.ParseDnsQuestions is proved against. The buffers are those of the
    celest_dns.c tests, so each question is first read the celest_dns.c way (Vectors) and
    then carried over by Compass.QuestionAgrees. The end index each test expects is
    `sizeof(buffer) - 1`: the cursor after the section is the buffer's length. */
module CompassVectors {
  import opened Wire
  import opened Names
  import Sections
  import V = Vectors
  import opened Compass

  /** A question this revision reads: celest_dns.c's question with the size of its name. */
  function Sized(q: Sections.DnsQuestion): CompassQuestion {
    CompassQuestion(q.domain, |q.domain| + 1, q.qType, q.qClass)
  }

  /** Where celest_dns.c reads a question, this revision reads it too, with its size. */
  lemma SizedAt(buf: seq<u8>, pos: nat, q: Sections.DnsQuestion, end: nat)
    requires Sections.DecodeQuestion(buf, pos) == Ok((q, end))
    ensures DecodeQuestion(buf, pos) == Ok((Sized(q), end))
  {
    QuestionAgrees(buf, pos);
  }

  /** "test.com" A IN right after a header: the size kept is 9, the eight characters and the
      string end. */
  lemma FirstQuestion(buf: seq<u8>, hb: seq<u8>, rest: seq<u8>)
    requires |hb| == 12 && buf == hb + (V.TestComAIn + rest)
    ensures DecodeQuestion(buf, 12) == Ok((CompassQuestion(V.TestCom, 9, V.TypeA, V.ClassIn), 26))
    ensures Labels(buf, 12, 12) == Ok([V.Test, V.Com])
  {
    V.FirstTestComAIn(buf, hb, rest);
    SizedAt(buf, 12, Sections.DnsQuestion(V.TestCom, V.TypeA, V.ClassIn), 26);
  }

  /** A section of two questions starting after the header, the second at `mid`. */
  lemma TwoAt(buf: seq<u8>, q1: CompassQuestion, mid: nat, q2: CompassQuestion, end: nat)
    requires DecodeQuestion(buf, 12) == Ok((q1, mid)) && DecodeQuestion(buf, mid) == Ok((q2, end))
    ensures DecodeQuestions(buf, 12, 2) == Ok(([q1, q2], end))
  {
    assert DecodeQuestions(buf, 12, 1) == Ok(([q1], mid)) by {
      assert [] + [q1] == [q1];
    }
    assert [q1] + [q2] == [q1, q2];
  }

  /** Two questions counted, "test.com" A IN first, the second whatever `rest` holds. */
  lemma TestComThen(rest: seq<u8>, q2: CompassQuestion, end: nat)
    requires DecodeQuestion(V.TwoQuestionHeader + (V.TestComAIn + rest), 26) == Ok((q2, end))
    ensures ParsedQuestions(V.TwoQuestionHeader + (V.TestComAIn + rest))
            == Ok(([CompassQuestion(V.TestCom, 9, V.TypeA, V.ClassIn), q2], end))
  {
    var buf := V.TwoQuestionHeader + (V.TestComAIn + rest);
    assert QdCount(buf) == 2;
    FirstQuestion(buf, V.TwoQuestionHeader, rest);
    TwoAt(buf, CompassQuestion(V.TestCom, 9, V.TypeA, V.ClassIn), 26, q2, end);
  }

  /** lib/test/compass_dns_test.c:58-74: one question, "test.com" type A class IN, ending on
      the buffer's last byte. */
  lemma SingleQuestionVector()
    ensures ParsedQuestions(V.SingleQuestion) == Ok(([CompassQuestion(V.TestCom, 9, V.TypeA, V.ClassIn)], 26))
    ensures Sections.EndIndex(ParsedQuestions(V.SingleQuestion)) == Ok(|V.SingleQuestion| - 1)
  {
    var buf := V.OneQuestionHeader + (V.TestComAIn + []);
    assert buf == V.SingleQuestion;
    assert QdCount(buf) == 1;
    FirstQuestion(buf, V.OneQuestionHeader, []);
    var q := CompassQuestion(V.TestCom, 9, V.TypeA, V.ClassIn);
    assert DecodeQuestions(buf, 12, 1) == Ok(([q], 26)) by {
      assert [] + [q] == [q];
    }
  }

  /** lib/test/compass_dns_test.c:76-97: "test.com" A IN, then "www.ab.en" CNAME CS. */
  lemma TwoQuestionsVector()
    ensures ParsedQuestions(V.TwoQuestionBuffer)
            == Ok(([CompassQuestion(V.TestCom, 9, V.TypeA, V.ClassIn),
                    CompassQuestion(V.WwwAbEn, 10, V.TypeCname, V.ClassCs)], 41))
    ensures Sections.EndIndex(ParsedQuestions(V.TwoQuestionBuffer)) == Ok(|V.TwoQuestionBuffer| - 1)
  {
    var buf := V.TwoQuestionHeader + (V.TestComAIn + V.WwwAbEnCnameCs);
    assert buf[26..41] == V.WwwAbEnCnameCs;
    V.WwwAbEnLabels();
    V.QuestionAt(buf, 26, [V.Www, V.Ab, V.En], V.TypeCname, V.ClassCs, 41);
    SizedAt(buf, 26, Sections.DnsQuestion(V.WwwAbEn, V.TypeCname, V.ClassCs), 41);
    TestComThen(V.WwwAbEnCnameCs, CompassQuestion(V.WwwAbEn, 10, V.TypeCname, V.ClassCs), 41);
  }

  /** lib/test/compass_dns_test.c:99-119: the second name is a pointer to the first. */
  lemma PointerVector()
    ensures ParsedQuestions(V.PointerQuestions)
            == Ok(([CompassQuestion(V.TestCom, 9, V.TypeA, V.ClassIn),
                    CompassQuestion(V.TestCom, 9, V.TypeCname, V.ClassCs)], 32))
    ensures Sections.EndIndex(ParsedQuestions(V.PointerQuestions)) == Ok(|V.PointerQuestions| - 1)
  {
    var buf := V.TwoQuestionHeader + (V.TestComAIn + V.PointerCnameCs);
    V.FirstTestComAIn(buf, V.TwoQuestionHeader, V.PointerCnameCs);
    V.TestComLabels();
    assert buf[26..32] == V.PointerCnameCs;
    assert PointerOffset(buf[26], buf[27]) == 12;
    assert U16Bytes(V.TypeCname) == [0, 5] && U16Bytes(V.ClassCs) == [0, 2];
    assert buf[28..32] == U16Bytes(V.TypeCname) + U16Bytes(V.ClassCs);
    V.PointerQuestionAt(buf, 26, 12, [V.Test, V.Com], V.TypeCname, V.ClassCs);
    SizedAt(buf, 26, Sections.DnsQuestion(V.TestCom, V.TypeCname, V.ClassCs), 32);
    TestComThen(V.PointerCnameCs, CompassQuestion(V.TestCom, 9, V.TypeCname, V.ClassCs), 32);
  }

  /** lib/test/compass_dns_test.c:121-141: the second name is "www" and a pointer to the
      first, "www.test.com", whose size is 13. */
  lemma EndPointerVector()
    ensures ParsedQuestions(V.EndPointerQuestions)
            == Ok(([CompassQuestion(V.TestCom, 9, V.TypeA, V.ClassIn),
                    CompassQuestion(V.WwwTestCom, 13, V.TypeCname, V.ClassCs)], 36))
    ensures Sections.EndIndex(ParsedQuestions(V.EndPointerQuestions)) == Ok(|V.EndPointerQuestions| - 1)
  {
    var buf := V.TwoQuestionHeader + (V.TestComAIn + V.WwwPointerCnameCs);
    V.FirstTestComAIn(buf, V.TwoQuestionHeader, V.WwwPointerCnameCs);
    assert buf[26..36] == V.WwwPointerCnameCs;
    V.WwwPointerQuestion(buf);
    SizedAt(buf, 26, Sections.DnsQuestion(V.WwwTestCom, V.TypeCname, V.ClassCs), 36);
    TestComThen(V.WwwPointerCnameCs, CompassQuestion(V.WwwTestCom, 13, V.TypeCname, V.ClassCs), 36);
  }

  /** Where the long name of the celest_dns.c test sits in its buffer. */
  lemma LongQuestionBytes()
    ensures |V.LongName| == 256 && |V.TooLongQuestion| == 272
    ensures V.TooLongQuestion[12..268] == V.LongName
    ensures V.TooLongQuestion[268..272] == [0x00, 0x01, 0x00, 0x01]
    ensures QdCount(V.TooLongQuestion) == 1
  {
  }

  /** The 254-character name that lib/test/celest_dns_test.c:136-159 expects celest_dns.c
      to refuse is read by this revision, which has no size check, as a question whose size
      is 255; celest_dns.c refuses the same bytes. */
  lemma LongNameAccepted()
    ensures ParsedQuestions(V.TooLongQuestion).Ok?
    ensures var qs := ParsedQuestions(V.TooLongQuestion).value.0;
            |qs| == 1 && |qs[0].domain| == 254 && qs[0].domainSize == 255
            && qs[0].qType == V.TypeA && qs[0].qClass == V.ClassIn
    ensures Sections.DecodeQuestions(V.TooLongQuestion, 12, 1) == Err(NameTooLong)
  {
    var buf := V.TooLongQuestion;
    var labels := [V.Xs, V.Xs, V.Xs, V.Xs, V.De];
    V.LongLabels();
    LongQuestionBytes();
    LabelsOfEncoding(labels, buf, 12, 12);
    assert BigEndianCharsToShort(buf[268], buf[269]) == V.TypeA;
    assert BigEndianCharsToShort(buf[270], buf[271]) == V.ClassIn;
    var q := DecodeQuestion(buf, 12).value.0;
    assert DecodeQuestions(buf, 12, 1) == Ok(([q], 272)) by {
      assert [] + [q] == [q];
    }
    V.NameTooLongAt(buf, 12, labels);
  }
}
