/** The vectors of lib/test/celest_dns_test.c, stated on the functions the parser and the
    writer are proved against: parse_dns_message stores DecodeMessage's content (or fails
    with its error), and dns_message_to_buffer returns EncodeMessage's bytes, zero-padded,
    with their number as the size. */
module Vectors {
  import opened Wire
  import opened Header
  import opened Names
  import opened Sections
  import opened Message

  // Words of the test names, as bytes.
  const Test: seq<u8> := [0x74, 0x65, 0x73, 0x74]
  const Com: seq<u8> := [0x63, 0x6F, 0x6D]
  const De: seq<u8> := [0x64, 0x65]
  const Www: seq<u8> := [0x77, 0x77, 0x77]
  const Ab: seq<u8> := [0x61, 0x62]
  const En: seq<u8> := [0x65, 0x6E]

  /** "test.com" */
  const TestCom: seq<u8> := [0x74, 0x65, 0x73, 0x74, 0x2E, 0x63, 0x6F, 0x6D]
  /** "test.de" */
  const TestDe: seq<u8> := [0x74, 0x65, 0x73, 0x74, 0x2E, 0x64, 0x65]
  /** "www.ab.en" */
  const WwwAbEn: seq<u8> := [0x77, 0x77, 0x77, 0x2E, 0x61, 0x62, 0x2E, 0x65, 0x6E]
  /** "www.test.com" */
  const WwwTestCom: seq<u8> := [0x77, 0x77, 0x77, 0x2E, 0x74, 0x65, 0x73, 0x74, 0x2E, 0x63, 0x6F, 0x6D]

  const TypeA: u16 := 1
  const TypeCname: u16 := 5
  const ClassIn: u16 := 1
  const ClassCs: u16 := 2
  const TypeAll: u16 := 255
  const ClassAny: u16 := 255

  /** The labels of two words, joined and encoded. */
  lemma TwoWords(a: seq<u8>, b: seq<u8>)
    requires 1 <= |a| <= 63 && 1 <= |b| <= 63
    ensures LabelsFit([a, b])
    ensures Join([a, b]) == a + [DomainSeparator] + b
    ensures EncodeLabels([a, b]) == [|a| as u8] + a + [|b| as u8] + b + [StringEnd]
  {
    assert [a, b][1..] == [b];
    BodyOfFew(a, b);
  }

  /** A name written without pointers, found at `pos`, reads back as its joined labels. */
  lemma PlainName(buf: seq<u8>, pos: nat, labels: seq<seq<u8>>)
    requires LabelsFit(labels) && |Join(labels)| <= MaxDomainSize
    requires pos + |EncodeLabels(labels)| <= |buf| && buf[pos..pos + |EncodeLabels(labels)|] == EncodeLabels(labels)
    ensures DecodeName(buf, pos) == Ok((Join(labels), pos + |EncodeLabels(labels)|))
  {
    LabelsOfEncoding(labels, buf, pos, pos);
    DecodeNameOk(buf, pos, labels);
  }

  /** A question written without pointers, found at `pos`, reads back with its name, type
      and class; it ends at `end`. */
  lemma QuestionAt(buf: seq<u8>, pos: nat, labels: seq<seq<u8>>, qType: u16, qClass: u16, end: nat)
    requires LabelsFit(labels) && |Join(labels)| <= MaxDomainSize
    requires end == pos + |EncodeLabels(labels)| + 4 <= |buf|
    requires buf[pos..end] == EncodeLabels(labels) + (U16Bytes(qType) + U16Bytes(qClass))
    ensures DecodeQuestion(buf, pos) == Ok((DnsQuestion(Join(labels), qType, qClass), end))
  {
    var name := EncodeLabels(labels);
    SliceTwo(buf, pos, name, U16Bytes(qType) + U16Bytes(qClass));
    PlainName(buf, pos, labels);
    QuestionFieldsAt(buf, pos, Join(labels), pos + |name|, qType, qClass);
  }

  /** A slice holding two parts holds each of them. */
  lemma SliceTwo(buf: seq<u8>, pos: nat, x: seq<u8>, y: seq<u8>)
    requires pos + |x| + |y| <= |buf| && buf[pos..pos + |x| + |y|] == x + y
    ensures buf[pos..pos + |x|] == x && buf[pos + |x|..pos + |x| + |y|] == y
  {
    var w := buf[pos..pos + |x| + |y|];
    assert buf[pos..pos + |x|] == w[..|x|];
    assert buf[pos + |x|..pos + |x| + |y|] == w[|x|..];
  }

  /** After a name that ends at `next`, the type and the class complete the question. */
  lemma QuestionFieldsAt(buf: seq<u8>, pos: nat, name: seq<u8>, next: nat, qType: u16, qClass: u16)
    requires DecodeName(buf, pos) == Ok((name, next)) && next + 4 <= |buf|
    requires buf[next..next + 4] == U16Bytes(qType) + U16Bytes(qClass)
    ensures DecodeQuestion(buf, pos) == Ok((DnsQuestion(name, qType, qClass), next + 4))
  {
    SliceTwo(buf, next, U16Bytes(qType), U16Bytes(qClass));
    U16ReadBack(buf, next, qType);
    U16ReadBack(buf, next + 2, qClass);
    DecodeQuestionOk(buf, pos, name, next);
  }

  /** A section of one question. */
  lemma OneQuestion(buf: seq<u8>, pos: nat, q: DnsQuestion, end: nat)
    requires DecodeQuestion(buf, pos) == Ok((q, end))
    ensures DecodeQuestions(buf, pos, 1) == Ok(([q], end))
  {
    assert [] + [q] == [q];
  }

  /** A section of two questions, the second starting at `mid`. */
  lemma TwoQuestions(buf: seq<u8>, pos: nat, q1: DnsQuestion, mid: nat, q2: DnsQuestion, end: nat)
    requires DecodeQuestion(buf, pos) == Ok((q1, mid)) && DecodeQuestion(buf, mid) == Ok((q2, end))
    ensures DecodeQuestions(buf, pos, 2) == Ok(([q1, q2], end))
  {
    OneQuestion(buf, pos, q1, mid);
    assert [q1] + [q2] == [q1, q2];
  }

  /** A message of questions only whose sections end at `end`. */
  lemma QuestionsOnly(buf: seq<u8>, h: DnsHeader, qs: seq<DnsQuestion>, end: nat)
    requires |buf| >= DnsHeaderSize && ParseDnsHeader(buf) == h
    requires h.qdCount == |qs| && h.anCount == 0 && h.nsCount == 0 && h.arCount == 0
    requires DecodeQuestions(buf, DnsHeaderSize, |qs|) == Ok((qs, end))
    ensures DecodeMessage(buf) == Ok(MessageContents(h, qs, [], [], []))
  {
    SectionsAt(buf, MessageContents(h, qs, [], [], []), end, end, end, end);
    SectionsAllRead(ReadSections(buf), h);
  }

  /** "test.com" is the labels "test" and "com". */
  lemma TestComLabels()
    ensures LabelsFit([Test, Com]) && Join([Test, Com]) == TestCom
    ensures EncodeLabels([Test, Com]) == [4, 0x74, 0x65, 0x73, 0x74, 3, 0x63, 0x6F, 0x6D, 0]
  {
    TwoWords(Test, Com);
  }

  /** A buffer made of a header's bytes and what follows holds that header and, from
      byte 12 on, what follows. */
  lemma HeaderThen(hb: seq<u8>, rest: seq<u8>)
    requires |hb| == DnsHeaderSize
    ensures ParseDnsHeader(hb + rest) == ParseDnsHeader(hb)
    ensures (hb + rest)[DnsHeaderSize..] == rest
  {
    var b := hb + rest;
    assert b[0] == hb[0] && b[1] == hb[1] && b[2] == hb[2] && b[3] == hb[3];
    assert b[4] == hb[4] && b[5] == hb[5] && b[6] == hb[6] && b[7] == hb[7];
    assert b[8] == hb[8] && b[9] == hb[9] && b[10] == hb[10] && b[11] == hb[11];
  }

  /** "test.com" type A class IN, as a question's bytes. */
  const TestComAIn: seq<u8> := [4, 0x74, 0x65, 0x73, 0x74, 3, 0x63, 0x6F, 0x6D, 0, 0x00, 0x01, 0x00, 0x01]

  /** The buffer of lib/test/celest_dns_test.c:60-66: one question, "test.com" A IN. */
  const SingleQuestion: seq<u8> := OneQuestionHeader + TestComAIn

  /** The header of the one-question tests. */
  lemma OneQuestionHeaderFields()
    ensures ParseDnsHeader(OneQuestionHeader) == DnsHeader(5, 1, 1, 1, 1, 1, 1, 3, 3, 1, 0, 0, 0)
  {
  }

  /** lib/test/celest_dns_test.c:59-73: the question is "test.com", type A, class IN. */
  lemma SingleQuestionVector()
    ensures DecodeMessage(SingleQuestion)
            == Ok(MessageContents(DnsHeader(5, 1, 1, 1, 1, 1, 1, 3, 3, 1, 0, 0, 0),
                                  [DnsQuestion(TestCom, TypeA, ClassIn)], [], [], []))
  {
    var buf := OneQuestionHeader + TestComAIn;
    var h := DnsHeader(5, 1, 1, 1, 1, 1, 1, 3, 3, 1, 0, 0, 0);
    assert buf == OneQuestionHeader + (TestComAIn + []);
    HeaderThen(OneQuestionHeader, TestComAIn);
    OneQuestionHeaderFields();
    FirstTestComAIn(buf, OneQuestionHeader, []);
    OneQuestion(buf, 12, DnsQuestion(TestCom, TypeA, ClassIn), 26);
    QuestionsOnly(buf, h, [DnsQuestion(TestCom, TypeA, ClassIn)], 26);
  }

  /** One more label in front: its length byte and bytes come first, and a separator joins
      it to what follows. */
  lemma ConsLabel(l: seq<u8>, rest: seq<seq<u8>>)
    requires rest != []
    ensures Body([l] + rest) == [LengthByte(|l|)] + l + Body(rest)
    ensures Join([l] + rest) == l + [DomainSeparator] + Join(rest)
    ensures EncodeLabels([l] + rest) == [LengthByte(|l|)] + l + EncodeLabels(rest)
  {
    assert ([l] + rest)[0] == l;
    assert ([l] + rest)[1..] == rest;
  }

  /** The labels of three words, joined and encoded. */
  lemma ThreeWords(a: seq<u8>, b: seq<u8>, c: seq<u8>)
    requires 1 <= |a| <= 63 && 1 <= |b| <= 63 && 1 <= |c| <= 63
    ensures LabelsFit([a, b, c])
    ensures Join([a, b, c]) == a + [DomainSeparator] + Join([b, c])
    ensures EncodeLabels([a, b, c]) == [|a| as u8] + a + EncodeLabels([b, c])
  {
    assert [a] + [b, c] == [a, b, c];
    ConsLabel(a, [b, c]);
    TwoWords(b, c);
    var la: u8 := |a|;
    assert LengthByte(|a|) == la;
    var bc := Body([b, c]);
    assert ([la] + a + bc) + [StringEnd] == [la] + a + (bc + [StringEnd]);
  }

  /** A question whose name is a single pointer, at `pos`, to a name read from `target`. */
  lemma PointerQuestionAt(buf: seq<u8>, pos: nat, target: nat, labels: seq<seq<u8>>, qType: u16, qClass: u16)
    requires pos + 6 <= |buf| && IsPointer(buf[pos]) && PointerOffset(buf[pos], buf[pos + 1]) == target < pos
    requires Labels(buf, target, target) == Ok(labels) && |Join(labels)| <= MaxDomainSize
    requires buf[pos + 2..pos + 6] == U16Bytes(qType) + U16Bytes(qClass)
    ensures DecodeQuestion(buf, pos) == Ok((DnsQuestion(Join(labels), qType, qClass), pos + 6))
  {
    assert Labels(buf, pos, pos) == Ok(labels);
    assert RunEnd(buf, pos) == pos + 1;
    DecodeNameOk(buf, pos, labels);
    QuestionFieldsAt(buf, pos, Join(labels), pos + 2, qType, qClass);
  }

  /** A name made of one label `l` and then the pointer `hi lo` to a name read from an
      earlier offset. */
  lemma LabelPointerName(buf: seq<u8>, pos: nat, l: seq<u8>, hi: u8, lo: u8, labels: seq<seq<u8>>)
    requires 1 <= |l| <= 63 && pos + |l| + 3 <= |buf|
    requires buf[pos..pos + |l| + 3] == [|l| as u8] + l + [hi, lo]
    requires IsPointer(hi) && PointerOffset(hi, lo) < pos
    requires Labels(buf, PointerOffset(hi, lo), PointerOffset(hi, lo)) == Ok(labels)
    requires |Join([l] + labels)| <= MaxDomainSize
    ensures DecodeName(buf, pos) == Ok((Join([l] + labels), pos + |l| + 3))
  {
    LabelPointerRun(buf, pos, l, hi, lo, labels);
    DecodeNameOk(buf, pos, [l] + labels);
  }

  /** The labels and the end of a name made of one label and then a pointer. */
  lemma LabelPointerRun(buf: seq<u8>, pos: nat, l: seq<u8>, hi: u8, lo: u8, labels: seq<seq<u8>>)
    requires 1 <= |l| <= 63 && pos + |l| + 3 <= |buf|
    requires buf[pos..pos + |l| + 3] == [|l| as u8] + l + [hi, lo]
    requires IsPointer(hi) && PointerOffset(hi, lo) < pos
    requires Labels(buf, PointerOffset(hi, lo), PointerOffset(hi, lo)) == Ok(labels)
    ensures Labels(buf, pos, pos) == Ok([l] + labels)
    ensures RunEnd(buf, pos) + 1 == pos + |l| + 3
  {
    var p := pos + 1 + |l|;
    SliceParts(buf, pos, [|l| as u8], l, [hi, lo]);
    assert buf[pos] == |l| as u8 && buf[p] == hi && buf[p + 1] == lo;
    assert Labels(buf, p, pos) == Ok(labels);
    LabelsStep(buf, pos, pos, l);
    RunEndStep(buf, pos);
    RunEndStep(buf, p);
  }

  /** A question whose name is one label `l` and then the pointer `hi lo`. */
  lemma LabelPointerQuestionAt(buf: seq<u8>, pos: nat, l: seq<u8>, hi: u8, lo: u8, labels: seq<seq<u8>>,
                               qType: u16, qClass: u16)
    requires 1 <= |l| <= 63 && pos + |l| + 7 <= |buf|
    requires buf[pos..pos + |l| + 7] == ([|l| as u8] + l + [hi, lo]) + (U16Bytes(qType) + U16Bytes(qClass))
    requires IsPointer(hi) && PointerOffset(hi, lo) < pos
    requires Labels(buf, PointerOffset(hi, lo), PointerOffset(hi, lo)) == Ok(labels)
    requires |Join([l] + labels)| <= MaxDomainSize
    ensures DecodeQuestion(buf, pos) == Ok((DnsQuestion(Join([l] + labels), qType, qClass), pos + |l| + 7))
  {
    SliceTwo(buf, pos, [|l| as u8] + l + [hi, lo], U16Bytes(qType) + U16Bytes(qClass));
    LabelPointerName(buf, pos, l, hi, lo, labels);
    QuestionFieldsAt(buf, pos, Join([l] + labels), pos + |l| + 3, qType, qClass);
  }

  /** The buffer of lib/test/celest_dns_test.c:37-40: a header with no sections. */
  const HeaderOnly: seq<u8> := [0x00, 0x05, 0x8f, 0xb3, 0x00, 0x00, 0x00, 0x00, 0x00, 0x00, 0x00, 0x00]

  /** lib/test/celest_dns_test.c:36-57: id 5, every flag 1, z and rcode 3, no sections. */
  lemma HeaderOnlyVector()
    ensures DecodeMessage(HeaderOnly)
            == Ok(MessageContents(DnsHeader(5, 1, 1, 1, 1, 1, 1, 3, 3, 0, 0, 0, 0), [], [], [], []))
  {
    var h := DnsHeader(5, 1, 1, 1, 1, 1, 1, 3, 3, 0, 0, 0, 0);
    assert ParseDnsHeader(HeaderOnly) == h;
    QuestionsOnly(HeaderOnly, h, [], DnsHeaderSize);
  }

  /** A header counting two questions and nothing else. */
  const TwoQuestionHeader: seq<u8> := [0x00, 0x05, 0x8f, 0xb3, 0x00, 0x02, 0x00, 0x00, 0x00, 0x00, 0x00, 0x00]

  /** "www.ab.en" type CNAME class CS, as a question's bytes. */
  const WwwAbEnCnameCs: seq<u8> :=
    [3, 0x77, 0x77, 0x77, 2, 0x61, 0x62, 2, 0x65, 0x6E, 0, 0x00, 0x05, 0x00, 0x02]

  /** The buffer of lib/test/celest_dns_test.c:76-84. */
  const TwoQuestionBuffer: seq<u8> := TwoQuestionHeader + (TestComAIn + WwwAbEnCnameCs)

  /** lib/test/celest_dns_test.c:75-94: "test.com" A IN, then "www.ab.en" CNAME CS. */
  lemma TwoQuestionsVector()
    ensures DecodeMessage(TwoQuestionBuffer)
            == Ok(MessageContents(DnsHeader(5, 1, 1, 1, 1, 1, 1, 3, 3, 2, 0, 0, 0),
                                  [DnsQuestion(TestCom, TypeA, ClassIn), DnsQuestion(WwwAbEn, TypeCname, ClassCs)],
                                  [], [], []))
  {
    var buf := TwoQuestionHeader + (TestComAIn + WwwAbEnCnameCs);
    assert buf[26..41] == WwwAbEnCnameCs;
    WwwAbEnLabels();
    QuestionAt(buf, 26, [Www, Ab, En], TypeCname, ClassCs, 41);
    TestComThenOne(WwwAbEnCnameCs, DnsQuestion(WwwAbEn, TypeCname, ClassCs), 41);
  }

  /** The labels of "www.ab.en", and the question bytes they start. */
  lemma WwwAbEnLabels()
    ensures LabelsFit([Www, Ab, En]) && Join([Www, Ab, En]) == WwwAbEn
    ensures WwwAbEnCnameCs == EncodeLabels([Www, Ab, En]) + (U16Bytes(TypeCname) + U16Bytes(ClassCs))
  {
    ThreeWords(Www, Ab, En);
    TwoWords(Ab, En);
    var e := EncodeLabels([Www, Ab, En]);
    assert e == [3, 0x77, 0x77, 0x77, 2, 0x61, 0x62, 2, 0x65, 0x6E, 0];
    assert U16Bytes(TypeCname) == [0, 5] && U16Bytes(ClassCs) == [0, 2];
  }

  /** The header of the two-question tests. */
  lemma TwoQuestionHeaderFields()
    ensures ParseDnsHeader(TwoQuestionHeader) == DnsHeader(5, 1, 1, 1, 1, 1, 1, 3, 3, 2, 0, 0, 0)
  {
  }

  /** A message of two questions, "test.com" A IN and then whatever question `rest` holds. */
  lemma TestComThenOne(rest: seq<u8>, q2: DnsQuestion, end: nat)
    requires DecodeQuestion(TwoQuestionHeader + (TestComAIn + rest), 26) == Ok((q2, end))
    ensures DecodeMessage(TwoQuestionHeader + (TestComAIn + rest))
            == Ok(MessageContents(DnsHeader(5, 1, 1, 1, 1, 1, 1, 3, 3, 2, 0, 0, 0),
                                  [DnsQuestion(TestCom, TypeA, ClassIn), q2], [], [], []))
  {
    var buf := TwoQuestionHeader + (TestComAIn + rest);
    var h := DnsHeader(5, 1, 1, 1, 1, 1, 1, 3, 3, 2, 0, 0, 0);
    HeaderThen(TwoQuestionHeader, TestComAIn + rest);
    TwoQuestionHeaderFields();
    var q1 := DnsQuestion(TestCom, TypeA, ClassIn);
    FirstTestComAIn(buf, TwoQuestionHeader, rest);
    TwoQuestions(buf, 12, q1, 26, q2, end);
    QuestionsOnly(buf, h, [q1, q2], end);
  }

  /** "test.com" A IN right after a header reads back, ending at 26. */
  lemma FirstTestComAIn(buf: seq<u8>, hb: seq<u8>, rest: seq<u8>)
    requires |hb| == DnsHeaderSize && buf == hb + (TestComAIn + rest)
    ensures DecodeQuestion(buf, 12) == Ok((DnsQuestion(TestCom, TypeA, ClassIn), 26))
    ensures Labels(buf, 12, 12) == Ok([Test, Com])
  {
    TestComAInBytes();
    HeaderThen(hb, TestComAIn + rest);
    assert buf[12..26] == (TestComAIn + rest)[..14] == TestComAIn;
    QuestionAt(buf, 12, [Test, Com], TypeA, ClassIn, 26);
    SliceTwo(buf, 12, EncodeLabels([Test, Com]), U16Bytes(TypeA) + U16Bytes(ClassIn));
    LabelsOfEncoding([Test, Com], buf, 12, 12);
  }

  /** The pieces of the bytes "test.com" A IN. */
  lemma TestComAInBytes()
    ensures LabelsFit([Test, Com]) && Join([Test, Com]) == TestCom && |TestCom| <= MaxDomainSize
    ensures TestComAIn == EncodeLabels([Test, Com]) + (U16Bytes(TypeA) + U16Bytes(ClassIn))
  {
    TestComLabels();
    assert U16Bytes(TypeA) == [0, 1] && U16Bytes(ClassIn) == [0, 1];
  }

  /** A pointer to offset 12, then type CNAME class CS. */
  const PointerCnameCs: seq<u8> := [0xc0, 0x0c, 0x00, 0x05, 0x00, 0x02]

  /** The buffer of lib/test/celest_dns_test.c:97-104. */
  const PointerQuestions: seq<u8> := TwoQuestionHeader + (TestComAIn + PointerCnameCs)

  /** lib/test/celest_dns_test.c:96-114: the second name is a pointer to the first. */
  lemma PointerVector()
    ensures DecodeMessage(PointerQuestions)
            == Ok(MessageContents(DnsHeader(5, 1, 1, 1, 1, 1, 1, 3, 3, 2, 0, 0, 0),
                                  [DnsQuestion(TestCom, TypeA, ClassIn), DnsQuestion(TestCom, TypeCname, ClassCs)],
                                  [], [], []))
  {
    var buf := TwoQuestionHeader + (TestComAIn + PointerCnameCs);
    FirstTestComAIn(buf, TwoQuestionHeader, PointerCnameCs);
    TestComLabels();
    assert buf[26..32] == PointerCnameCs;
    assert PointerOffset(buf[26], buf[27]) == 12;
    assert U16Bytes(TypeCname) == [0, 5] && U16Bytes(ClassCs) == [0, 2];
    assert buf[28..32] == U16Bytes(TypeCname) + U16Bytes(ClassCs);
    PointerQuestionAt(buf, 26, 12, [Test, Com], TypeCname, ClassCs);
    TestComThenOne(PointerCnameCs, DnsQuestion(TestCom, TypeCname, ClassCs), 32);
  }

  /** The label "www", a pointer to offset 12, then type CNAME class CS. */
  const WwwPointerCnameCs: seq<u8> := [3, 0x77, 0x77, 0x77, 0xc0, 0x0c, 0x00, 0x05, 0x00, 0x02]

  /** The buffer of lib/test/celest_dns_test.c:117-122. */
  const EndPointerQuestions: seq<u8> := TwoQuestionHeader + (TestComAIn + WwwPointerCnameCs)

  /** lib/test/celest_dns_test.c:116-134: the second name is "www" followed by a pointer to
      the first, so it reads "www.test.com". */
  lemma EndPointerVector()
    ensures DecodeMessage(EndPointerQuestions)
            == Ok(MessageContents(DnsHeader(5, 1, 1, 1, 1, 1, 1, 3, 3, 2, 0, 0, 0),
                                  [DnsQuestion(TestCom, TypeA, ClassIn), DnsQuestion(WwwTestCom, TypeCname, ClassCs)],
                                  [], [], []))
  {
    var buf := TwoQuestionHeader + (TestComAIn + WwwPointerCnameCs);
    FirstTestComAIn(buf, TwoQuestionHeader, WwwPointerCnameCs);
    assert buf[26..36] == WwwPointerCnameCs;
    WwwPointerQuestion(buf);
    TestComThenOne(WwwPointerCnameCs, DnsQuestion(WwwTestCom, TypeCname, ClassCs), 36);
  }

  /** "www" and then a pointer to "test.com" at offset 12 read as "www.test.com". */
  lemma WwwPointerQuestion(buf: seq<u8>)
    requires 36 <= |buf| && buf[26..36] == WwwPointerCnameCs && Labels(buf, 12, 12) == Ok([Test, Com])
    ensures DecodeQuestion(buf, 26) == Ok((DnsQuestion(WwwTestCom, TypeCname, ClassCs), 36))
  {
    WwwPointerBytes();
    WwwTestComJoin();
    LabelPointerQuestionAt(buf, 26, Www, 0xc0, 0x0c, [Test, Com], TypeCname, ClassCs);
  }

  /** The pieces of the bytes "www", pointer to 12, CNAME, CS. */
  lemma WwwPointerBytes()
    ensures WwwPointerCnameCs == ([3] + Www + [0xc0, 0x0c]) + (U16Bytes(TypeCname) + U16Bytes(ClassCs))
    ensures IsPointer(0xc0) && PointerOffset(0xc0, 0x0c) == 12
  {
    assert U16Bytes(TypeCname) == [0, 5] && U16Bytes(ClassCs) == [0, 2];
  }

  /** "www" in front of "test.com" joins to "www.test.com". */
  lemma WwwTestComJoin()
    ensures Join([Www] + [Test, Com]) == WwwTestCom && |WwwTestCom| <= MaxDomainSize
  {
    assert [Www] + [Test, Com] == [Www, Test, Com];
    ThreeWords(Www, Test, Com);
    TestComLabels();
  }

  /** A header counting one question and nothing else. */
  const OneQuestionHeader: seq<u8> := [0x00, 0x05, 0x8f, 0xb3, 0x00, 0x01, 0x00, 0x00, 0x00, 0x00, 0x00, 0x00]

  /** Sixty-two 'x' characters, and the label that holds them. */
  const Xs: seq<u8> := seq(62, _ => 0x78)
  const XsLabel: seq<u8> := [62] + Xs

  /** The label "de" and the terminator. */
  const DeEnd: seq<u8> := [2, 0x64, 0x65, 0]

  /** Four labels of 62 'x' and then "de": 254 characters once joined. */
  const LongName: seq<u8> := XsLabel + (XsLabel + (XsLabel + (XsLabel + DeEnd)))

  /** The bytes lib/test/celest_dns_test.c:137-154 writes: the header, the long name, type A
      and class IN. */
  const TooLongQuestion: seq<u8> := OneQuestionHeader + LongName + [0x00, 0x01, 0x00, 0x01]

  /** The labels of the long name, their joined length and their encoding. */
  lemma LongLabels()
    ensures LabelsFit([Xs, Xs, Xs, Xs, De]) && |Join([Xs, Xs, Xs, Xs, De])| == 254
    ensures EncodeLabels([Xs, Xs, Xs, Xs, De]) == LongName
  {
    var l1 := [De];
    var l2 := [Xs] + l1;
    var l3 := [Xs] + l2;
    var l4 := [Xs] + l3;
    var l5 := [Xs] + l4;
    assert l5 == [Xs, Xs, Xs, Xs, De];
    assert Join(l1) == De;
    assert Body(l1) == [2] + De by {
      BodyOfFew(De, De);
    }
    assert EncodeLabels(l1) == DeEnd;
    assert LengthByte(|Xs|) == 62;
    ConsLabel(Xs, l1);
    ConsLabel(Xs, l2);
    ConsLabel(Xs, l3);
    ConsLabel(Xs, l4);
  }

  /** A name whose labels decode but join to more than MaxDomainSize characters fails the
      question, and with it a section of one question. */
  lemma NameTooLongAt(buf: seq<u8>, pos: nat, labels: seq<seq<u8>>)
    requires Labels(buf, pos, pos) == Ok(labels) && |Join(labels)| > MaxDomainSize
    ensures DecodeQuestion(buf, pos) == Err(NameTooLong)
    ensures DecodeQuestions(buf, pos, 1) == Err(NameTooLong)
  {
  }

  /** lib/test/celest_dns_test.c:136-159: a question name of 254 characters fails the parse,
      and the question field is left null. The two bytes the test leaves uninitialised, and
      any other bytes after the question, are `tail`. */
  lemma TooLongNameVector(tail: seq<u8>)
    ensures DecodeMessage(TooLongQuestion + tail) == Err(NameTooLong)
    ensures ParseOutcomeOf(TooLongQuestion + tail).questions == Cleared
  {
    var rest := LongName + [0x00, 0x01, 0x00, 0x01] + tail;
    var buf := OneQuestionHeader + rest;
    assert TooLongQuestion + tail == buf;
    HeaderThen(OneQuestionHeader, rest);
    OneQuestionHeaderFields();
    var h := ParseDnsHeader(buf);
    LongLabels();
    var n := |LongName|;
    assert buf[12..12 + n] == rest[..n] == LongName;
    LabelsOfEncoding([Xs, Xs, Xs, Xs, De], buf, 12, 12);
    NameTooLongAt(buf, 12, [Xs, Xs, Xs, Xs, De]);
    QuestionsFail(ReadSections(buf), h);
  }

  /** A header counting one answer and nothing else. */
  const OneAnswerHeader: seq<u8> := [0x00, 0x05, 0x8f, 0xb3, 0x00, 0x00, 0x00, 0x01, 0x00, 0x00, 0x00, 0x00]

  /** "test.com" A IN, TTL 257, four bytes of data, as a record's bytes. */
  const TestComARecord: seq<u8> :=
    [4, 0x74, 0x65, 0x73, 0x74, 3, 0x63, 0x6F, 0x6D, 0, 0x00, 0x01, 0x00, 0x01,
     0x00, 0x00, 0x01, 0x01, 0x00, 0x04, 0x01, 0x02, 0x03, 0x04]

  /** The buffer of lib/test/celest_dns_test.c:162-169. */
  const SingleAnswer: seq<u8> := OneAnswerHeader + TestComARecord

  /** A record written without pointers, at `pos`: its labels, its fixed part and its data
      read back as the record. */
  lemma RecordAt(buf: seq<u8>, pos: nat, labels: seq<seq<u8>>, r: DnsRecord, end: nat)
    requires LabelsFit(labels) && |Join(labels)| <= MaxDomainSize && r.domain == Join(labels)
    requires |r.rData| == r.rdLength as int
    requires end == pos + |EncodeLabels(labels)| + 10 + |r.rData| <= |buf|
    requires buf[pos..end] == EncodeLabels(labels) + (RecordFields(r) + r.rData)
    ensures DecodeRecord(buf, pos) == Ok((r, end))
  {
    var name, rest := EncodeLabels(labels), RecordFields(r) + r.rData;
    var next := pos + |name|;
    assert end == next + |rest|;
    SliceTwo(buf, pos, name, rest);
    PlainName(buf, pos, labels);
    RecordFieldsAt(buf, pos, next, r, end);
  }

  /** After a name that ends at `next`, the fixed part and the data complete the record,
      which ends at `end`. */
  lemma RecordFieldsAt(buf: seq<u8>, pos: nat, next: nat, r: DnsRecord, end: nat)
    requires DecodeName(buf, pos) == Ok((r.domain, next)) && |r.rData| == r.rdLength as int
    requires end == next + 10 + |r.rData| <= |buf| && buf[next..end] == RecordFields(r) + r.rData
    ensures DecodeRecord(buf, pos) == Ok((r, end))
  {
    SliceTwo(buf, next, RecordFields(r), r.rData);
    FieldsRoundTrip(r, buf, next);
    DecodeRecordOk(buf, pos, r.domain, next, r.rType, r.rClass, r.ttl, r.rdLength, r.rData);
  }

  /** The answer of the single-answer test and its bytes. */
  lemma TestComARecordBytes()
    ensures TestComARecord
            == EncodeLabels([Test, Com]) + (RecordFields(DnsRecord(TestCom, TypeA, ClassIn, 257, 4, [1, 2, 3, 4]))
                                            + [1, 2, 3, 4])
  {
    TestComLabels();
    var f := RecordFields(DnsRecord(TestCom, TypeA, ClassIn, 257, 4, [1, 2, 3, 4]));
    assert U32Bytes(257) == [0, 0, 1, 1];
    assert f == [0, 1, 0, 1, 0, 0, 1, 1, 0, 4];
  }

  /** lib/test/celest_dns_test.c:161-180: one answer, "test.com" A IN, TTL 257, data 1 2 3 4. */
  lemma SingleAnswerVector()
    ensures DecodeMessage(SingleAnswer)
            == Ok(MessageContents(DnsHeader(5, 1, 1, 1, 1, 1, 1, 3, 3, 0, 1, 0, 0), [],
                                  [DnsRecord(TestCom, TypeA, ClassIn, 257, 4, [1, 2, 3, 4])], [], []))
  {
    var buf := OneAnswerHeader + TestComARecord;
    var r := DnsRecord(TestCom, TypeA, ClassIn, 257, 4, [1, 2, 3, 4]);
    HeaderThen(OneAnswerHeader, TestComARecord);
    OneAnswerHeaderFields();
    TestComLabels();
    TestComARecordBytes();
    assert buf[12..36] == TestComARecord;
    RecordAt(buf, 12, [Test, Com], r, 36);
    AnswersOnly(buf, DnsHeader(5, 1, 1, 1, 1, 1, 1, 3, 3, 0, 1, 0, 0), r, 36);
  }

  /** The header of the single-answer test. */
  lemma OneAnswerHeaderFields()
    ensures ParseDnsHeader(OneAnswerHeader) == DnsHeader(5, 1, 1, 1, 1, 1, 1, 3, 3, 0, 1, 0, 0)
  {
  }

  /** A message whose header counts one answer and nothing else holds that answer. */
  lemma AnswersOnly(buf: seq<u8>, h: DnsHeader, r: DnsRecord, end: nat)
    requires |buf| >= DnsHeaderSize && ParseDnsHeader(buf) == h
    requires h.qdCount == 0 && h.anCount == 1 && h.nsCount == 0 && h.arCount == 0
    requires DecodeRecord(buf, DnsHeaderSize) == Ok((r, end))
    ensures DecodeMessage(buf) == Ok(MessageContents(h, [], [r], [], []))
  {
    assert DecodeRecords(buf, DnsHeaderSize, 1) == Ok(([r], end)) by {
      assert [] + [r] == [r];
    }
    SectionsAt(buf, MessageContents(h, [], [r], [], []), DnsHeaderSize, end, end, end);
    SectionsAllRead(ReadSections(buf), h);
  }

  // ---------------------------------------------------------------------------------------
  // Encoding.

  /** No record section adds nothing. */
  lemma NoRecords(w: seq<u8>)
    requires |w| <= MaxDnsMessageSize
    ensures WithRecords(Ok(w), []) == Ok(w)
  {
    assert w + [] == w;
  }

  /** A message of questions only is its header and then its questions. */
  lemma QuestionsOnlyEncoded(c: MessageContents, w: seq<u8>)
    requires Encodable(c) && c.answers == [] && c.authorities == [] && c.additional == []
    requires WithQuestions(HeaderBytes(c.header), c.questions) == Ok(w)
    ensures EncodeMessage(c) == Ok(w)
  {
    NoRecords(w);
  }

  /** A message of answers only is its header and then its answers. */
  lemma AnswersOnlyEncoded(c: MessageContents, w: seq<u8>)
    requires Encodable(c) && c.questions == [] && c.authorities == [] && c.additional == []
    requires WithRecords(Ok(HeaderBytes(c.header)), c.answers) == Ok(w)
    ensures EncodeMessage(c) == Ok(w)
  {
    assert HeaderBytes(c.header) + [] == HeaderBytes(c.header);
    NoRecords(w);
  }

  /** The header of lib/test/celest_dns_test.c:183-189 (with counts `qd` and `an`): id 257,
      opcode STATUS, z 1, rcode REFUSED, every other flag 1. */
  function StatusRefused(qd: u16, an: u16): DnsHeader {
    DnsHeader(257, 1, 2, 1, 1, 1, 1, 1, 5, qd, an, 0, 0)
  }

  /** lib/test/celest_dns_test.c:182-208: a header alone is written as its 12 bytes. */
  lemma HeaderEncodeVector()
    ensures EncodeMessage(MessageContents(StatusRefused(0, 0), [], [], [], []))
            == Ok([0x01, 0x01, 0x97, 0x95, 0x00, 0x00, 0x00, 0x00, 0x00, 0x00, 0x00, 0x00])
  {
    var h := HeaderBytes(StatusRefused(0, 0));
    HeaderBytesVector();
    assert h + [] == h;
    QuestionsOnlyEncoded(MessageContents(StatusRefused(0, 0), [], [], [], []), h);
  }

  /** A question written as its label sequence, its type and its class. */
  lemma QuestionEncoded(q: DnsQuestion, index: nat, name: seq<u8>)
    requires LabelSequence(CString(q.domain)) == Some(name) && |name| + index + 4 <= MaxDnsMessageSize
    ensures EncodeQuestion(q, index) == Ok(name + U16Bytes(q.qType) + U16Bytes(q.qClass))
  {
  }

  /** "test.com" ALL ANY and "test.de" A IN, as the questions' bytes. */
  const TestComAllAny: seq<u8> := [4, 0x74, 0x65, 0x73, 0x74, 3, 0x63, 0x6F, 0x6D, 0, 0x00, 0xff, 0x00, 0xff]
  const TestDeAIn: seq<u8> := [4, 0x74, 0x65, 0x73, 0x74, 2, 0x64, 0x65, 0, 0x00, 0x01, 0x00, 0x01]

  /** The header bytes of StatusRefused(2, 0). */
  const StatusRefusedTwoQuestions: seq<u8> := [0x01, 0x01, 0x97, 0x95, 0x00, 0x02, 0x00, 0x00, 0x00, 0x00, 0x00, 0x00]

  /** The label sequences of "test.com" and "test.de". */
  const TestComName: seq<u8> := [4, 0x74, 0x65, 0x73, 0x74, 3, 0x63, 0x6F, 0x6D, 0]
  const TestDeName: seq<u8> := [4, 0x74, 0x65, 0x73, 0x74, 2, 0x64, 0x65, 0]

  /** The encoder's view of the two test names: no zero byte, and these label sequences. */
  lemma TestNamesEncoded()
    ensures LabelSequence(CString(TestCom)) == Some(TestComName)
    ensures LabelSequence(CString(TestDe)) == Some(TestDeName)
  {
    assert NoNul(TestCom) && NoNul(TestDe);
    CStringOfNoNul(TestCom);
    CStringOfNoNul(TestDe);
    LabelSequenceVectorCom(TestCom);
    LabelSequenceVectorDe(TestDe);
  }

  /** The bytes of the two questions of the encoding test. */
  lemma QuestionBytes()
    ensures TestComName + U16Bytes(TypeAll) + U16Bytes(ClassAny) == TestComAllAny
    ensures TestDeName + U16Bytes(TypeA) + U16Bytes(ClassIn) == TestDeAIn
  {
    assert U16Bytes(TypeAll) == [0, 0xff] && U16Bytes(TypeA) == [0, 1];
  }

  /** The two questions of the encoding test, one at a time. */
  lemma TestComAndDeEncoded()
    ensures EncodeQuestion(DnsQuestion(TestCom, TypeAll, ClassAny), DnsHeaderSize) == Ok(TestComAllAny)
    ensures EncodeQuestion(DnsQuestion(TestDe, TypeA, ClassIn), DnsHeaderSize + 14) == Ok(TestDeAIn)
  {
    TestNamesEncoded();
    QuestionBytes();
    QuestionEncoded(DnsQuestion(TestCom, TypeAll, ClassAny), DnsHeaderSize, TestComName);
    QuestionEncoded(DnsQuestion(TestDe, TypeA, ClassIn), DnsHeaderSize + 14, TestDeName);
  }

  /** lib/test/celest_dns_test.c:210-249: "test.com" ALL ANY and "test.de" A IN are written
      after the header, 39 bytes in all. */
  lemma QuestionsEncodeVector()
    ensures EncodeMessage(MessageContents(StatusRefused(2, 0),
                                          [DnsQuestion(TestCom, TypeAll, ClassAny), DnsQuestion(TestDe, TypeA, ClassIn)],
                                          [], [], []))
            == Ok(StatusRefusedTwoQuestions + TestComAllAny + TestDeAIn)
    ensures |StatusRefusedTwoQuestions + TestComAllAny + TestDeAIn| == 39
  {
    var qs := [DnsQuestion(TestCom, TypeAll, ClassAny), DnsQuestion(TestDe, TypeA, ClassIn)];
    var h := HeaderBytes(StatusRefused(2, 0));
    assert h == StatusRefusedTwoQuestions;
    TestComAndDeEncoded();
    assert EncodeQuestions(qs, 1, DnsHeaderSize) == Ok(TestComAllAny) by {
      assert [] + TestComAllAny == TestComAllAny;
    }
    assert EncodeQuestions(qs, 2, DnsHeaderSize) == Ok(TestComAllAny + TestDeAIn);
    assert h + (TestComAllAny + TestDeAIn) == StatusRefusedTwoQuestions + TestComAllAny + TestDeAIn;
    QuestionsOnlyEncoded(MessageContents(StatusRefused(2, 0), qs, [], [], []),
                         StatusRefusedTwoQuestions + TestComAllAny + TestDeAIn);
  }

  /** The header bytes of StatusRefused(0, 1). */
  const StatusRefusedOneAnswer: seq<u8> := [0x01, 0x01, 0x97, 0x95, 0x00, 0x00, 0x00, 0x01, 0x00, 0x00, 0x00, 0x00]

  /** "test.com" A IN, TTL 65537, data 1 2 3 4, as the record's bytes. */
  const TestComAnswerOut: seq<u8> :=
    [4, 0x74, 0x65, 0x73, 0x74, 3, 0x63, 0x6F, 0x6D, 0, 0x00, 0x01, 0x00, 0x01,
     0x00, 0x01, 0x00, 0x01, 0x00, 0x04, 0x01, 0x02, 0x03, 0x04]

  /** The bytes of the record of the encoding test. */
  lemma AnswerBytes(r: DnsRecord)
    requires r == DnsRecord(TestCom, TypeA, ClassIn, 65537, 4, [1, 2, 3, 4])
    ensures TestComName + RecordFields(r) + r.rData[..4] == TestComAnswerOut
  {
    assert U32Bytes(65537) == [0, 1, 0, 1];
    assert RecordFields(r) == [0, 1, 0, 1, 0, 1, 0, 1, 0, 4];
    assert r.rData[..4] == [1, 2, 3, 4];
  }

  /** The record of the encoding test, on its own. */
  lemma TestComAnswerEncoded()
    ensures EncodeRecord(DnsRecord(TestCom, TypeA, ClassIn, 65537, 4, [1, 2, 3, 4]), DnsHeaderSize)
            == Ok(TestComAnswerOut)
  {
    var r := DnsRecord(TestCom, TypeA, ClassIn, 65537, 4, [1, 2, 3, 4]);
    TestNamesEncoded();
    AnswerBytes(r);
  }

  /** lib/test/celest_dns_test.c:251-291: the answer "test.com" A IN, TTL 65537, data
      1 2 3 4 is written after the header, 36 bytes in all. */
  lemma AnswerEncodeVector()
    ensures EncodeMessage(MessageContents(StatusRefused(0, 1), [],
                                          [DnsRecord(TestCom, TypeA, ClassIn, 65537, 4, [1, 2, 3, 4])], [], []))
            == Ok(StatusRefusedOneAnswer + TestComAnswerOut)
    ensures |StatusRefusedOneAnswer + TestComAnswerOut| == 36
  {
    var r := DnsRecord(TestCom, TypeA, ClassIn, 65537, 4, [1, 2, 3, 4]);
    var h := HeaderBytes(StatusRefused(0, 1));
    assert h == StatusRefusedOneAnswer;
    TestComAnswerEncoded();
    assert EncodeRecords([r], 1, DnsHeaderSize) == Ok(TestComAnswerOut) by {
      assert [] + TestComAnswerOut == TestComAnswerOut;
    }
    AnswersOnlyEncoded(MessageContents(StatusRefused(0, 1), [], [r], [], []), h + TestComAnswerOut);
  }
}
