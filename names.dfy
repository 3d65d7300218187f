/** Domain names on the wire (sections 3.1 and 4.1.4 of RFC 1035): the two-pass decoder
    calc_domain_size / retrieve_domain of lib/src/celest_dns.c:424-490 (and its earlier copy
    lib/src/compass_dns.c:16-78), and the encoder domain_to_label_sequence of
    lib/src/celest_dns.c:492-520.

    A name is a run of labels, each a length byte and that many bytes, ended by a zero byte or
    by a two-byte compression pointer whose low 14 bits give the offset where the name goes
    on. The source neither checks that it stays inside the buffer nor that pointers make
    progress. The decoder here is given the buffer's length and adds both checks: a read past
    the end is `Truncated`, and a pointer must lead strictly before the start of the label
    run it ends (the name's own start, or the previous pointer's target), else `BadPointer`.
    So the decoder reads only names whose pointers each lead strictly backwards, below the
    run they end; on those, when the source stays inside the buffer, the decoded name and
    the cursor are the source's. A forward pointer, or one back into its own run, is refused
    even where the source decodes the name it leads to (`ForwardPointerRefused`). */
module Names {
  import opened Wire

  const MaxDomainSize: nat := 253
  const DomainSeparator: u8 := 0x2E
  const StringEnd: u8 := 0

  /** The source's pointer test masks the indicator with 0xC0: EITHER of the
      top two bits set makes a pointer, so a length byte of 64 or more is never read as a
      label length. */
  predicate IsPointer(indicator: u8) {
    indicator >= 64
  }

  /** The offset a pointer leads to: the source passes the indicator's low six bits and the
      next byte to big_endian_chars_to_u_int16, whose arithmetic is written out here, so the
      offset is the pointer's low 14 bits. */
  function PointerOffset(indicator: u8, next: u8): (offset: nat)
    ensures offset < 16384
  {
    (indicator % 64) * 256 + next
  }

  /** A byte that is neither the terminator nor a pointer is a label length in 1..63. */
  lemma LabelLengthBound(indicator: u8)
    requires indicator != 0 && !IsPointer(indicator)
    ensures 1 <= indicator as int <= 63
  {
  }

  function Prepend(part: seq<u8>, rest: Result<seq<seq<u8>>>): Result<seq<seq<u8>>> {
    match rest
    case Ok(labels) => Ok([part] + labels)
    case Err(e) => Err(e)
  }

  function Extend(done: seq<seq<u8>>, rest: Result<seq<seq<u8>>>): Result<seq<seq<u8>>> {
    match rest
    case Ok(labels) => Ok(done + labels)
    case Err(e) => Err(e)
  }

  lemma ExtendNil(rest: Result<seq<seq<u8>>>)
    ensures Extend([], rest) == rest
  {
    if rest.Ok? {
      assert [] + rest.value == rest.value;
    }
  }

  lemma ExtendPrepend(done: seq<seq<u8>>, part: seq<u8>, rest: Result<seq<seq<u8>>>)
    ensures Extend(done, Prepend(part, rest)) == Extend(done + [part], rest)
  {
    if rest.Ok? {
      assert done + ([part] + rest.value) == (done + [part]) + rest.value;
    }
  }

  /** The labels of the name at `pos`, following pointers; `limit` is the start of the run
      being read, which the next pointer must lead below. Every label has 1 to 63 bytes. */
  function Labels(buf: seq<u8>, pos: nat, limit: nat): (r: Result<seq<seq<u8>>>)
    decreases limit, |buf| - pos
  {
    if pos >= |buf| then Err(Truncated)
    else if buf[pos] == StringEnd then Ok([])
    else if IsPointer(buf[pos]) then
      if pos + 1 >= |buf| then Err(Truncated)
      else
        var offset := PointerOffset(buf[pos], buf[pos + 1]);
        if offset >= limit then Err(BadPointer) else Labels(buf, offset, offset)
    else
      var len := buf[pos] as int;
      LabelLengthBound(buf[pos]);
      if pos + 1 + len > |buf| then Err(Truncated)
      else Prepend(buf[pos + 1..pos + 1 + len], Labels(buf, pos + 1 + len, limit))
  }

  /** The labels joined with '.', as retrieve_domain writes them. */
  function Join(labels: seq<seq<u8>>): seq<u8> {
    if |labels| == 0 then []
    else if |labels| == 1 then labels[0]
    else labels[0] + [DomainSeparator] + Join(labels[1..])
  }

  /** Joining one more label adds a separator only when there was a label before. */
  lemma {:induction false} JoinSnoc(labels: seq<seq<u8>>, part: seq<u8>)
    ensures Join(labels + [part])
            == if labels == [] then part else Join(labels) + [DomainSeparator] + part
  {
    if |labels| == 0 {
      assert labels + [part] == [part];
    } else if |labels| == 1 {
      assert labels + [part] == [labels[0], part];
      assert [labels[0], part][1..] == [part];
    } else {
      assert (labels + [part])[1..] == labels[1..] + [part];
      JoinSnoc(labels[1..], part);
    }
  }

  /** The step of retrieve_domain that adds a label to the name decoded so far: a separator
      first unless the name is still empty. */
  lemma JoinStep(done: seq<seq<u8>>, name: seq<u8>, part: seq<u8>)
    requires name == Join(done) && (|name| == 0) == (done == [])
    requires |part| >= 1
    ensures var joined := (if |name| > 0 then name + [DomainSeparator] else name) + part;
            joined == Join(done + [part]) && |joined| > 0
  {
    JoinSnoc(done, part);
  }

  /** A name made of non-empty labels is empty exactly when it has no label. */
  lemma JoinEmpty(labels: seq<seq<u8>>)
    requires forall l | l in labels :: |l| >= 1
    ensures (|Join(labels)| == 0) == (labels == [])
  {
    if |labels| >= 1 {
      assert labels[0] in labels;
    }
  }

  /** Where the name at `pos` ends in place: the index of its terminating zero, or of the
      second byte of the first pointer met. Pointer targets do not move it. */
  function RunEnd(buf: seq<u8>, pos: nat): nat
    decreases |buf| - pos
  {
    if pos >= |buf| || buf[pos] == StringEnd then pos
    else if IsPointer(buf[pos]) then pos + 1
    else RunEnd(buf, pos + 1 + buf[pos] as int)
  }

  /** A name that decodes ends inside the buffer, on its terminator or on the second byte of
      a pointer. */
  lemma {:induction false} RunEndInBounds(buf: seq<u8>, pos: nat, limit: nat)
    requires Labels(buf, pos, limit).Ok?
    ensures pos <= RunEnd(buf, pos) < |buf|
    ensures buf[RunEnd(buf, pos)] == StringEnd
            || (RunEnd(buf, pos) >= 1 && IsPointer(buf[RunEnd(buf, pos) - 1]))
    decreases |buf| - pos
  {
    if buf[pos] != StringEnd && !IsPointer(buf[pos]) {
      RunEndInBounds(buf, pos + 1 + buf[pos] as int, limit);
    }
  }

  /** The decoding so far, `done`, followed by the run at `pos`, when `pos` holds a label
      length: the label is added, or the read runs off the buffer. */
  lemma StepLabel(buf: seq<u8>, pos: nat, limit: nat, done: seq<seq<u8>>)
    requires pos < |buf| && buf[pos] != StringEnd && !IsPointer(buf[pos])
    ensures var next := pos + 1 + buf[pos] as int;
            next < |buf| ==> Extend(done, Labels(buf, pos, limit))
                             == Extend(done + [buf[pos + 1..next]], Labels(buf, next, limit))
    ensures pos + 1 + buf[pos] as int >= |buf| ==> Extend(done, Labels(buf, pos, limit)) == Err(Truncated)
  {
    var next := pos + 1 + buf[pos] as int;
    if next <= |buf| {
      ExtendPrepend(done, buf[pos + 1..next], Labels(buf, next, limit));
    }
  }

  /** A label of the run, when it fits in the buffer, is the first of the decoded labels. */
  lemma LabelsStep(buf: seq<u8>, pos: nat, limit: nat, part: seq<u8>)
    requires pos < |buf| && buf[pos] != StringEnd && !IsPointer(buf[pos]) && buf[pos] == |part|
    requires pos + 1 + |part| <= |buf| && buf[pos + 1..pos + 1 + |part|] == part
    ensures Labels(buf, pos, limit) == Prepend(part, Labels(buf, pos + 1 + |part|, limit))
  {
  }

  /** The same when `pos` holds a pointer: the decoding goes on at the target, or fails. */
  lemma StepPointer(buf: seq<u8>, pos: nat, limit: nat, done: seq<seq<u8>>)
    requires pos < |buf| && buf[pos] != StringEnd && IsPointer(buf[pos])
    ensures pos + 1 >= |buf| ==> Extend(done, Labels(buf, pos, limit)) == Err(Truncated)
    ensures pos + 1 < |buf| ==>
              var offset := PointerOffset(buf[pos], buf[pos + 1]);
              Extend(done, Labels(buf, pos, limit))
              == if offset >= limit then Err(BadPointer) else Extend(done, Labels(buf, offset, offset))
  {
  }

  /** Where the run ends does not change over a label, and is the second byte of a pointer. */
  lemma RunEndStep(buf: seq<u8>, pos: nat)
    requires pos < |buf| && buf[pos] != StringEnd
    ensures !IsPointer(buf[pos]) ==> RunEnd(buf, pos) == RunEnd(buf, pos + 1 + buf[pos] as int)
    ensures IsPointer(buf[pos]) ==> RunEnd(buf, pos) == pos + 1
  {
  }

  /** The same at the terminator: the decoding is `done`. */
  lemma StepEnd(buf: seq<u8>, pos: nat, limit: nat, done: seq<seq<u8>>)
    requires pos < |buf| && buf[pos] == StringEnd
    ensures Extend(done, Labels(buf, pos, limit)) == Ok(done)
  {
    assert done + [] == done;
  }

  /** What calc_domain_size reports for a decoding: the length of the dotted name and its end. */
  function DomainSize(labels: Result<seq<seq<u8>>>): Result<nat> {
    match labels
    case Ok(ls) => Ok(|Join(ls)| + 1)
    case Err(e) => Err(e)
  }

  /** What retrieve_domain reports for a decoding: the dotted name and where it ends. */
  function Retrieved(labels: Result<seq<seq<u8>>>, end: nat): Result<(seq<u8>, nat)> {
    match labels
    case Ok(ls) => Ok((Join(ls), end))
    case Err(e) => Err(e)
  }

  /** The two passes agree: calc_domain_size fails exactly where retrieve_domain does, and
      otherwise reports the length of the name retrieve_domain copies, plus one. */
  lemma SizeMatchesRetrieved(buf: seq<u8>, start: nat)
    ensures DomainSize(Labels(buf, start, start)).Ok? <==> Retrieved(Labels(buf, start, start), RunEnd(buf, start)).Ok?
    ensures DomainSize(Labels(buf, start, start)).Ok? ==>
              DomainSize(Labels(buf, start, start)).value
              == |Retrieved(Labels(buf, start, start), RunEnd(buf, start)).value.0| + 1
  {
  }

  /** calc_domain_size: the length of the decoded name plus one for the string end. The walk
      is the source's loop; a failed check stops it with the error the decoder reports. */
  method CalcDomainSize(buf: seq<u8>, start: nat) returns (r: Result<nat>)
    ensures r == DomainSize(Labels(buf, start, start))
  {
    if start >= |buf| {
      return Err(Truncated);
    }
    var domainLength: nat := 0;
    var indicator := buf[start];
    var index: nat := start + 1;
    var limit: nat := start;
    ghost var done: seq<seq<u8>> := [];
    ExtendNil(Labels(buf, start, start));
    while indicator > 0
      invariant 1 <= index <= |buf| && indicator == buf[index - 1]
      invariant CalcInvariant(buf, start, index, limit, done, domainLength)
      decreases limit, |buf| - index
    {
      ghost var index0, limit0, domainLength0 := index, limit, domainLength;
      if IsPointer(indicator) {
        CalcPointerFails(buf, start, index, limit, done, domainLength);
        if index >= |buf| {
          return Err(Truncated);
        }
        var offset := PointerOffset(indicator, buf[index]);
        if offset >= limit {
          return Err(BadPointer);
        }
        index := offset;
        limit := offset;
        indicator := buf[index];
        index := index + 1;
        CalcPointerStep(buf, start, index0, limit0, done, domainLength, index, limit);
        continue;
      }
      CalcLabelFails(buf, start, index, limit, done, domainLength);
      ghost var done0 := done;
      var len := indicator as int;
      if index + len >= |buf| {
        return Err(Truncated);
      }
      if domainLength > 0 {
        domainLength := domainLength + 1;
      }
      domainLength := domainLength + len;
      done := done + [buf[index..index + len]];
      index := index + len;
      indicator := buf[index];
      index := index + 1;
      CalcLabelStep(buf, start, index0, limit, done0, domainLength0, index, done, domainLength);
    }
    CalcEndStep(buf, start, index, limit, done, domainLength);
    return Ok(domainLength + 1);
  }

  /** What holds before each turn of calc_domain_size's loop: the labels still to read, after
      those counted in `domainLength`, are the whole name. */
  ghost predicate CalcInvariant(buf: seq<u8>, start: nat, index: nat, limit: nat,
                                done: seq<seq<u8>>, domainLength: nat)
  {
    1 <= index <= |buf| && limit <= start < |buf|
    && Labels(buf, start, start) == Extend(done, Labels(buf, index - 1, limit))
    && domainLength == |Join(done)| && (domainLength == 0) == (done == [])
  }

  /** The end of calc_domain_size's loop, at the terminator. */
  lemma CalcEndStep(buf: seq<u8>, start: nat, index: nat, limit: nat,
                    done: seq<seq<u8>>, domainLength: nat)
    requires CalcInvariant(buf, start, index, limit, done, domainLength)
    requires buf[index - 1] == StringEnd
    ensures DomainSize(Labels(buf, start, start)) == Ok(domainLength + 1)
  {
    StepEnd(buf, index - 1, limit, done);
  }

  /** The checks of calc_domain_size's loop at a pointer. */
  lemma CalcPointerFails(buf: seq<u8>, start: nat, index: nat, limit: nat,
                         done: seq<seq<u8>>, domainLength: nat)
    requires CalcInvariant(buf, start, index, limit, done, domainLength)
    requires IsPointer(buf[index - 1])
    ensures index >= |buf| ==> DomainSize(Labels(buf, start, start)) == Err(Truncated)
    ensures index < |buf| && PointerOffset(buf[index - 1], buf[index]) >= limit ==>
              DomainSize(Labels(buf, start, start)) == Err(BadPointer)
  {
    StepPointer(buf, index - 1, limit, done);
  }

  /** A turn of calc_domain_size's loop at a pointer: the walk goes on at the target. */
  lemma CalcPointerStep(buf: seq<u8>, start: nat, index: nat, limit: nat,
                        done: seq<seq<u8>>, domainLength: nat, index': nat, limit': nat)
    requires CalcInvariant(buf, start, index, limit, done, domainLength)
    requires IsPointer(buf[index - 1]) && index < |buf|
    requires limit' == PointerOffset(buf[index - 1], buf[index]) < limit && index' == limit' + 1
    ensures CalcInvariant(buf, start, index', limit', done, domainLength)
  {
    StepPointer(buf, index - 1, limit, done);
    assert Labels(buf, start, start) == Extend(done, Labels(buf, limit', limit'));
  }

  /** The check of calc_domain_size's loop at a label. */
  lemma CalcLabelFails(buf: seq<u8>, start: nat, index: nat, limit: nat,
                       done: seq<seq<u8>>, domainLength: nat)
    requires CalcInvariant(buf, start, index, limit, done, domainLength)
    requires buf[index - 1] != StringEnd && !IsPointer(buf[index - 1])
    ensures index + buf[index - 1] as int >= |buf| ==> DomainSize(Labels(buf, start, start)) == Err(Truncated)
  {
    LabelLengthBound(buf[index - 1]);
    StepLabel(buf, index - 1, limit, done);
  }

  /** A turn of calc_domain_size's loop at a label: its length is counted after a separator. */
  lemma CalcLabelStep(buf: seq<u8>, start: nat, index: nat, limit: nat,
                      done: seq<seq<u8>>, domainLength: nat,
                      index': nat, done': seq<seq<u8>>, domainLength': nat)
    requires CalcInvariant(buf, start, index, limit, done, domainLength)
    requires buf[index - 1] != StringEnd && !IsPointer(buf[index - 1])
    requires index' == index + buf[index - 1] as int + 1 <= |buf|
    requires done' == done + [buf[index..index' - 1]]
    requires domainLength' == (if domainLength > 0 then domainLength + 1 else domainLength) + buf[index - 1] as int
    ensures CalcInvariant(buf, start, index', limit, done', domainLength')
  {
    var part := buf[index..index' - 1];
    LabelLengthBound(buf[index - 1]);
    StepLabel(buf, index - 1, limit, done);
    assert Labels(buf, start, start) == Extend(done', Labels(buf, index' - 1, limit));
    JoinSnoc(done, part);
    assert |Join(done')| == domainLength';
  }

  /** retrieve_domain: the decoded name and the index where the name ends in place (the
      source stores one less than the cursor it stops at). As in calc_domain_size the walk
      is the source's loop; the end is taken from the FIRST pointer met. */
  method RetrieveDomain(buf: seq<u8>, start: nat) returns (r: Result<(seq<u8>, nat)>)
    ensures r == Retrieved(Labels(buf, start, start), RunEnd(buf, start))
  {
    if start >= |buf| {
      return Err(Truncated);
    }
    var domain: seq<u8> := [];
    var pointerEnd: nat := 0;
    var indicator := buf[start];
    var index: nat := start + 1;
    var limit: nat := start;
    ghost var done: seq<seq<u8>> := [];
    ExtendNil(Labels(buf, start, start));
    while indicator > 0
      invariant 1 <= index <= |buf| && indicator == buf[index - 1]
      invariant RetrieveInvariant(buf, start, index, limit, done, domain, pointerEnd)
      decreases limit, |buf| - index
    {
      ghost var index0, limit0, done0, domain0, pointerEnd0 := index, limit, done, domain, pointerEnd;
      if IsPointer(indicator) {
        RetrievePointerFails(buf, start, index, limit, done, domain, pointerEnd);
        if index >= |buf| {
          return Err(Truncated);
        }
        var offset := PointerOffset(indicator, buf[index]);
        if offset >= limit {
          return Err(BadPointer);
        }
        if pointerEnd == 0 {
          pointerEnd := index + 1;
        }
        index := offset;
        limit := offset;
        indicator := buf[index];
        index := index + 1;
        RetrievePointerStep(buf, start, index0, limit0, done, domain, pointerEnd0, index, limit, pointerEnd);
        continue;
      }
      RetrieveLabelFails(buf, start, index, limit, done, domain, pointerEnd);
      var len := indicator as int;
      if index + len >= |buf| {
        return Err(Truncated);
      }
      if |domain| > 0 {
        domain := domain + [DomainSeparator];
      }
      domain := domain + buf[index..index + len];
      done := done + [buf[index..index + len]];
      index := index + len;
      indicator := buf[index];
      index := index + 1;
      RetrieveLabelStep(buf, start, index0, limit, done0, domain0, pointerEnd, index, done, domain);
    }
    RetrieveEndStep(buf, start, index, limit, done, domain, pointerEnd);
    if pointerEnd > 0 {
      index := pointerEnd;
    }
    return Ok((domain, index - 1));
  }

  /** What holds before each turn of retrieve_domain's loop: the labels still to read, after
      those copied into `domain`, are the whole name, and the end is known once a pointer
      was met. */
  ghost predicate RetrieveInvariant(buf: seq<u8>, start: nat, index: nat, limit: nat,
                                    done: seq<seq<u8>>, domain: seq<u8>, pointerEnd: nat)
  {
    1 <= index <= |buf| && limit <= start < |buf|
    && Labels(buf, start, start) == Extend(done, Labels(buf, index - 1, limit))
    && domain == Join(done) && (|domain| == 0) == (done == [])
    && RunEnd(buf, start) == if pointerEnd == 0 then RunEnd(buf, index - 1) else pointerEnd - 1
  }

  /** The checks of retrieve_domain's loop at a pointer. */
  lemma RetrievePointerFails(buf: seq<u8>, start: nat, index: nat, limit: nat,
                             done: seq<seq<u8>>, domain: seq<u8>, pointerEnd: nat)
    requires RetrieveInvariant(buf, start, index, limit, done, domain, pointerEnd)
    requires IsPointer(buf[index - 1])
    ensures index >= |buf| ==> Retrieved(Labels(buf, start, start), RunEnd(buf, start)) == Err(Truncated)
    ensures index < |buf| && PointerOffset(buf[index - 1], buf[index]) >= limit ==>
              Retrieved(Labels(buf, start, start), RunEnd(buf, start)) == Err(BadPointer)
  {
    StepPointer(buf, index - 1, limit, done);
  }

  /** A turn of retrieve_domain's loop at a pointer: the walk goes on at the target, and the
      end is the first pointer's. */
  lemma RetrievePointerStep(buf: seq<u8>, start: nat, index: nat, limit: nat,
                            done: seq<seq<u8>>, domain: seq<u8>, pointerEnd: nat,
                            index': nat, limit': nat, pointerEnd': nat)
    requires RetrieveInvariant(buf, start, index, limit, done, domain, pointerEnd)
    requires IsPointer(buf[index - 1]) && index < |buf|
    requires limit' == PointerOffset(buf[index - 1], buf[index]) < limit && index' == limit' + 1
    requires pointerEnd' == if pointerEnd == 0 then index + 1 else pointerEnd
    ensures RetrieveInvariant(buf, start, index', limit', done, domain, pointerEnd')
  {
    StepPointer(buf, index - 1, limit, done);
    assert Labels(buf, start, start) == Extend(done, Labels(buf, limit', limit'));
    RunEndStep(buf, index - 1);
    assert RunEnd(buf, start) == pointerEnd' - 1;
  }

  /** The check of retrieve_domain's loop at a label. */
  lemma RetrieveLabelFails(buf: seq<u8>, start: nat, index: nat, limit: nat,
                           done: seq<seq<u8>>, domain: seq<u8>, pointerEnd: nat)
    requires RetrieveInvariant(buf, start, index, limit, done, domain, pointerEnd)
    requires buf[index - 1] != StringEnd && !IsPointer(buf[index - 1])
    ensures index + buf[index - 1] as int >= |buf| ==>
              Retrieved(Labels(buf, start, start), RunEnd(buf, start)) == Err(Truncated)
  {
    LabelLengthBound(buf[index - 1]);
    StepLabel(buf, index - 1, limit, done);
  }

  /** A turn of retrieve_domain's loop at a label: it is copied after a separator. */
  lemma RetrieveLabelStep(buf: seq<u8>, start: nat, index: nat, limit: nat,
                          done: seq<seq<u8>>, domain: seq<u8>, pointerEnd: nat,
                          index': nat, done': seq<seq<u8>>, domain': seq<u8>)
    requires RetrieveInvariant(buf, start, index, limit, done, domain, pointerEnd)
    requires buf[index - 1] != StringEnd && !IsPointer(buf[index - 1])
    requires index' == index + buf[index - 1] as int + 1 <= |buf|
    requires done' == done + [buf[index..index' - 1]]
    requires domain' == (if |domain| > 0 then domain + [DomainSeparator] else domain) + buf[index..index' - 1]
    ensures RetrieveInvariant(buf, start, index', limit, done', domain', pointerEnd)
  {
    LabelLengthBound(buf[index - 1]);
    StepLabel(buf, index - 1, limit, done);
    RunEndStep(buf, index - 1);
    JoinStep(done, domain, buf[index..index' - 1]);
  }

  /** The end of retrieve_domain's loop, at the terminator. */
  lemma RetrieveEndStep(buf: seq<u8>, start: nat, index: nat, limit: nat,
                        done: seq<seq<u8>>, domain: seq<u8>, pointerEnd: nat)
    requires RetrieveInvariant(buf, start, index, limit, done, domain, pointerEnd)
    requires buf[index - 1] == StringEnd
    ensures Retrieved(Labels(buf, start, start), RunEnd(buf, start))
            == Ok((domain, (if pointerEnd > 0 then pointerEnd else index) - 1))
  {
    StepEnd(buf, index - 1, limit, done);
  }

  // ---------------------------------------------------------------------------------------
  // The source as written, where it differs from the decoder above.

  /** The cursor end as retrieve_domain computes it: domain_pointer_end_index is overwritten
      at EVERY pointer, so after a chain of pointers it is the end of the last one, which lies
      in an earlier part of the message. The walk and its checks are those of `Labels`. */
  function EndIndexAsWritten(buf: seq<u8>, pos: nat, limit: nat, pointerEnd: nat): (r: Result<nat>)
    ensures r.Ok? ==> Labels(buf, pos, limit).Ok?
    decreases limit, |buf| - pos
  {
    if pos >= |buf| then Err(Truncated)
    else if buf[pos] == StringEnd then Ok(if pointerEnd > 0 then pointerEnd - 1 else pos)
    else if IsPointer(buf[pos]) then
      if pos + 1 >= |buf| then Err(Truncated)
      else
        var offset := PointerOffset(buf[pos], buf[pos + 1]);
        if offset >= limit then Err(BadPointer)
        else EndIndexAsWritten(buf, offset, offset, pos + 2)
    else
      var len := buf[pos] as int;
      if pos + 1 + len > |buf| then Err(Truncated)
      else EndIndexAsWritten(buf, pos + 1 + len, limit, pointerEnd)
  }

  /** `03 c o m 00 01 a C0 00 C0 05`: "com" at 0, and at 5 the label "a" followed by a
      pointer to 0; at 9 a pointer to 5. */
  const ChainedNames: seq<u8> := [3, 0x63, 0x6F, 0x6D, 0, 1, 0x61, 0xC0, 0, 0xC0, 5]

  /** The name at 9 is "a.com", reached through two pointers, and it ends at index 10, on
      the second byte of the first pointer. */
  lemma ChainedPointerEnd()
    ensures Labels(ChainedNames, 9, 9) == Ok([[0x61], [0x63, 0x6F, 0x6D]])
    ensures RunEnd(ChainedNames, 9) == 10
  {
    var buf := ChainedNames;
    assert PointerOffset(buf[9], buf[10]) == 5;
    assert PointerOffset(buf[7], buf[8]) == 0;
    assert Labels(buf, 4, 0) == Ok([]);
    assert buf[1..4] == [0x63, 0x6F, 0x6D];
    assert [buf[1..4]] + [] == [[0x63, 0x6F, 0x6D]];
    assert Labels(buf, 0, 0) == Prepend(buf[1..4], Labels(buf, 4, 0)) == Ok([[0x63, 0x6F, 0x6D]]);
    assert Labels(buf, 7, 5) == Labels(buf, 0, 0);
    assert buf[6..7] == [0x61];
    assert [buf[6..7]] + [[0x63, 0x6F, 0x6D]] == [[0x61], [0x63, 0x6F, 0x6D]];
    assert Labels(buf, 5, 5) == Prepend(buf[6..7], Labels(buf, 7, 5));
    assert Labels(buf, 9, 9) == Labels(buf, 5, 5);
  }

  /** The source's end index for the name at 9 is 8, the second byte of the SECOND pointer,
      so the next field would be read from inside the name. */
  lemma ChainedPointerEndAsWritten()
    ensures EndIndexAsWritten(ChainedNames, 9, 9, 0) == Ok(8)
  {
    var buf := ChainedNames;
    assert PointerOffset(buf[9], buf[10]) == 5;
    assert PointerOffset(buf[7], buf[8]) == 0;
    assert EndIndexAsWritten(buf, 0, 0, 9) == EndIndexAsWritten(buf, 4, 0, 9);
    assert EndIndexAsWritten(buf, 5, 5, 11) == EndIndexAsWritten(buf, 7, 5, 11);
  }

  /** One turn of the loop of calc_domain_size and retrieve_domain as written: no bound
      check, and a pointer is followed wherever it leads. The state is the cursor (one past
      the indicator) and the indicator. */
  function StepAsWritten(buf: seq<u8>, index: nat, indicator: u8): (next: (nat, u8))
    requires indicator != 0
    requires IsPointer(indicator) ==> index < |buf| && PointerOffset(indicator, buf[index]) < |buf|
    requires !IsPointer(indicator) ==> index + indicator as int < |buf|
    ensures 1 <= next.0 <= |buf| && next.1 == buf[next.0 - 1]
  {
    if IsPointer(indicator) then
      var offset := PointerOffset(indicator, buf[index]);
      (offset + 1, buf[offset])
    else
      (index + indicator as int + 1, buf[index + indicator as int])
  }

  /** A pointer to itself: the source's loop returns to the same state for ever, while the
      decoder here reports `BadPointer`. */
  lemma SelfPointerLoops()
    ensures var buf: seq<u8> := [0, 0, 0, 0, 0, 0, 0, 0, 0, 0, 0, 0, 0xC0, 0x0C];
            StepAsWritten(buf, 13, 0xC0) == (13, 0xC0)
            && Labels(buf, 12, 12) == Err(BadPointer)
  {
  }

  /** A forward pointer: the name at 12 is `C0 0E`, leading to the name "a" at 14. The
      source's loop follows it and stops on the zero byte at 16, reading "a"; the decoder
      here refuses the pointer, since 14 is not below the run's start of 12. */
  lemma ForwardPointerRefused()
    ensures var buf: seq<u8> := [0, 0, 0, 0, 0, 0, 0, 0, 0, 0, 0, 0, 0xC0, 0x0E, 0x01, 0x61, 0x00, 0, 1, 0, 1];
            StepAsWritten(buf, 13, 0xC0) == (15, 0x01)
            && StepAsWritten(buf, 15, 0x01) == (17, 0x00)
            && Labels(buf, 14, 14) == Ok([[0x61]])
            && Labels(buf, 12, 12) == Err(BadPointer)
  {
    var buf: seq<u8> := [0, 0, 0, 0, 0, 0, 0, 0, 0, 0, 0, 0, 0xC0, 0x0E, 0x01, 0x61, 0x00, 0, 1, 0, 1];
    assert Labels(buf, 16, 14) == Ok([]);
    assert buf[15..16] == [0x61];
    assert [buf[15..16]] + [] == [[0x61]];
    assert Labels(buf, 14, 14) == Prepend(buf[15..16], Labels(buf, 16, 14));
  }

  // ---------------------------------------------------------------------------------------
  // The encoder.

  /** The character at `i` of a C string held in `d`: past the end it is the terminator. */
  function At(d: seq<u8>, i: nat): u8 {
    if i < |d| then d[i] else StringEnd
  }

  predicate NoNul(d: seq<u8>) {
    forall i | 0 <= i < |d| :: d[i] != StringEnd
  }

  /** The string a `char *` holding `d` denotes: everything before the first zero byte. */
  function CString(d: seq<u8>): (s: seq<u8>)
    ensures NoNul(s) && |s| <= |d| && s == d[..|s|]
    ensures |s| < |d| ==> d[|s|] == StringEnd
  {
    if d == [] || d[0] == StringEnd then [] else [d[0]] + CString(d[1..])
  }

  /** A buffer without a zero byte holds its whole self as the string. */
  lemma {:induction false} CStringOfNoNul(d: seq<u8>)
    requires NoNul(d)
    ensures CString(d) == d
  {
    if d != [] {
      assert NoNul(d[1..]) by {
        forall i | 0 <= i < |d[1..]| ensures d[1..][i] != StringEnd {
          assert d[1..][i] == d[i + 1];
        }
      }
      CStringOfNoNul(d[1..]);
      assert [d[0]] + d[1..] == d;
    }
  }

  /** Reading the string through the buffer that holds it. */
  lemma AtCString(d: seq<u8>, i: nat)
    requires i <= |CString(d)|
    ensures At(d, i) == At(CString(d), i)
  {
  }

  /** The labels the encoder cuts from `d`: `st` is where the current label starts and `p`
      the next character to look at. Every '.' and the end close a label, so a trailing or a
      doubled '.' gives an empty label. */
  function ScanLabels(d: seq<u8>, st: nat, p: nat): (labels: seq<seq<u8>>)
    requires st <= p <= |d|
    ensures |labels| >= 1
    decreases |d| - p
  {
    if p == |d| then [d[st..p]]
    else if d[p] == DomainSeparator then [d[st..p]] + ScanLabels(d, p + 1, p + 1)
    else ScanLabels(d, st, p + 1)
  }

  /** The labels of a dotted name. domain_to_label_sequence looks for the first separator
      from the SECOND character on, so a leading '.' belongs to the first label. */
  function SplitLabels(d: seq<u8>): seq<seq<u8>> {
    if d == [] then [] else ScanLabels(d, 0, 1)
  }

  /** The length byte of a label of `n` characters: the encoder counts the characters in a
      u_int8_t, so the count wraps past 255. Below 256 it is `n`. */
  function LengthByte(n: nat): (b: u8)
    ensures n < 256 ==> b == n
  {
    n % 256
  }

  /** Each label as its length byte and its bytes. */
  function Body(labels: seq<seq<u8>>): seq<u8> {
    if labels == [] then []
    else [LengthByte(|labels[0]|)] + labels[0] + Body(labels[1..])
  }

  /** The label sequence: the labels, then the zero byte that ends the name. */
  function EncodeLabels(labels: seq<seq<u8>>): seq<u8> {
    Body(labels) + [StringEnd]
  }

  /** What domain_to_label_sequence returns for a string: its label sequence, or no sequence
      when that would be longer than MaxDomainSize + 1 bytes. */
  function LabelSequence(d: seq<u8>): Option<seq<u8>> {
    var encoded := EncodeLabels(SplitLabels(d));
    if |encoded| > MaxDomainSize + 1 then None else Some(encoded)
  }

  /** Joining the labels gives the string back: the encoder drops nothing but the dots. */
  lemma {:induction false} ScanJoin(d: seq<u8>, st: nat, p: nat)
    requires st <= p <= |d|
    ensures Join(ScanLabels(d, st, p)) == d[st..]
    decreases |d| - p
  {
    if p == |d| {
    } else if d[p] == DomainSeparator {
      ScanJoin(d, p + 1, p + 1);
      var rest := ScanLabels(d, p + 1, p + 1);
      var labels := [d[st..p]] + rest;
      assert labels[1..] == rest;
      assert d[st..] == d[st..p] + [DomainSeparator] + d[p + 1..];
    } else {
      ScanJoin(d, st, p + 1);
    }
  }

  lemma SplitJoin(d: seq<u8>)
    ensures Join(SplitLabels(d)) == d
  {
    if d != [] {
      ScanJoin(d, 0, 1);
    }
  }

  /** Each label costs its length plus one byte, each dot is replaced by one such byte. */
  lemma {:induction false} ScanBodyLength(d: seq<u8>, st: nat, p: nat)
    requires st <= p <= |d|
    ensures |Body(ScanLabels(d, st, p))| == |d| - st + 1
    decreases |d| - p
  {
    if p == |d| {
      assert ScanLabels(d, st, p)[1..] == [];
    } else if d[p] == DomainSeparator {
      ScanBodyLength(d, p + 1, p + 1);
      var rest := ScanLabels(d, p + 1, p + 1);
      assert ([d[st..p]] + rest)[1..] == rest;
    } else {
      ScanBodyLength(d, st, p + 1);
    }
  }

  /** The label sequence of a non-empty string is two bytes longer than the string, that of
      the empty string is the single zero byte; so domain_to_label_sequence fails exactly for
      strings of more than MaxDomainSize - 1 = 252 characters. */
  lemma LabelSequenceLength(d: seq<u8>)
    ensures |EncodeLabels(SplitLabels(d))| == if d == [] then 1 else |d| + 2
    ensures LabelSequence(d).None? <==> |d| > MaxDomainSize - 1
  {
    if d != [] {
      ScanBodyLength(d, 0, 1);
    }
  }

  /** Up to the next '.' the scan stays in one label, which the '.' then closes. */
  lemma {:induction false} ScanToSeparator(d: seq<u8>, st: nat, p: nat, q: nat)
    requires st <= p <= q < |d| && d[q] == DomainSeparator
    requires forall i | p <= i < q :: d[i] != DomainSeparator
    ensures ScanLabels(d, st, p) == [d[st..q]] + ScanLabels(d, q + 1, q + 1)
    decreases q - p
  {
    if p < q {
      ScanToSeparator(d, st, p + 1, q);
    }
  }

  /** The labels of two words joined by one '.'. */
  lemma TwoLabels(d: seq<u8>, q: nat)
    requires 1 <= q < |d| && d[q] == DomainSeparator
    requires forall i | 1 <= i < |d| && i != q :: d[i] != DomainSeparator
    ensures SplitLabels(d) == [d[..q], d[q + 1..]]
  {
    ScanToSeparator(d, 0, 1, q);
    NoSeparatorScan(d, q + 1, q + 1);
  }

  /** The body of one label, and of two. */
  lemma BodyOfFew(a: seq<u8>, b: seq<u8>)
    ensures Body([a]) == [LengthByte(|a|)] + a
    ensures Body([a, b]) == [LengthByte(|a|)] + a + [LengthByte(|b|)] + b
  {
    assert [a][1..] == [];
    assert [b][1..] == [];
    assert [a, b][1..] == [b];
  }

  /** The label sequence of two words of 1 to 63 characters joined by one '.'; `n1` and
      `n2` are the two lengths. */
  lemma TwoLabelSequence(d: seq<u8>, q: nat, n1: u8, n2: u8)
    requires 1 <= q < |d| <= MaxDomainSize - 1 && d[q] == DomainSeparator
    requires forall i | 1 <= i < |d| && i != q :: d[i] != DomainSeparator
    requires n1 as int == q <= 63 && n2 as int == |d| - q - 1 && 1 <= n2 as int <= 63
    ensures LabelSequence(d) == Some([n1] + d[..q] + [n2] + d[q + 1..] + [StringEnd])
  {
    var first, second := d[..q], d[q + 1..];
    assert SplitLabels(d) == [first, second] by {
      TwoLabels(d, q);
    }
    assert Body([first, second]) == [n1] + first + [n2] + second by {
      BodyOfFew(first, second);
      ByteOfLength(|first|, n1);
      ByteOfLength(|second|, n2);
    }
    assert |EncodeLabels(SplitLabels(d))| <= MaxDomainSize + 1 by {
      LabelSequenceLength(d);
    }
  }

  /** The byte the encoder stores for a length is the length, when it fits in a byte. */
  lemma ByteOfLength(n: nat, b: u8)
    requires b as int == n
    ensures LengthByte(n) == b
  {
  }

  /** The label sequence of a word of 1 to 63 characters with no '.' after its first. */
  lemma OneLabelSequence(d: seq<u8>)
    requires 1 <= |d| <= 63 && forall i | 1 <= i < |d| :: d[i] != DomainSeparator
    ensures LabelSequence(d) == Some([|d| as u8] + d + [StringEnd])
  {
    NoSeparatorScan(d, 0, 1);
    assert d[0..] == d;
    BodyOfFew(d, d);
  }

  /** The encoding vector of lib/test/celest_dns_test.c:231: "test.com". */
  lemma LabelSequenceVectorCom(d: seq<u8>)
    requires d == [0x74, 0x65, 0x73, 0x74, 0x2E, 0x63, 0x6F, 0x6D]
    ensures LabelSequence(d) == Some([4, 0x74, 0x65, 0x73, 0x74, 3, 0x63, 0x6F, 0x6D, 0])
  {
    TwoLabelSequence(d, 4, 4, 3);
    assert d[..4] == [0x74, 0x65, 0x73, 0x74] && d[5..] == [0x63, 0x6F, 0x6D];
    assert [4 as u8] + [0x74, 0x65, 0x73, 0x74] + [3 as u8] + [0x63, 0x6F, 0x6D] + [0 as u8]
           == [4, 0x74, 0x65, 0x73, 0x74, 3, 0x63, 0x6F, 0x6D, 0];
  }

  /** The encoding vector of lib/test/celest_dns_test.c:241: "test.de". */
  lemma LabelSequenceVectorDe(d: seq<u8>)
    requires d == [0x74, 0x65, 0x73, 0x74, 0x2E, 0x64, 0x65]
    ensures LabelSequence(d) == Some([4, 0x74, 0x65, 0x73, 0x74, 2, 0x64, 0x65, 0])
  {
    TwoLabelSequence(d, 4, 4, 2);
    assert d[..4] == [0x74, 0x65, 0x73, 0x74] && d[5..] == [0x64, 0x65];
    assert [4 as u8] + [0x74, 0x65, 0x73, 0x74] + [2 as u8] + [0x64, 0x65] + [0 as u8]
           == [4, 0x74, 0x65, 0x73, 0x74, 2, 0x64, 0x65, 0];
  }

  /** domain_to_label_sequence, for any `char *` whose string is `CString(domain)`: the loop
      of the source, emitting a label's length and bytes at each separator or at the end. */
  method DomainToLabelSequence(domain: seq<u8>) returns (r: Option<seq<u8>>)
    ensures r == LabelSequence(CString(domain))
  {
    ghost var s := CString(domain);
    var labelSequence: seq<u8> := [];
    var index: nat := 1;
    var labelSize: nat := 1;
    AtCString(domain, 0);
    while At(domain, index - 1) != StringEnd
      invariant EncodeInvariant(s, index, labelSize, labelSequence)
      decreases |s| + 1 - index
    {
      AtCString(domain, index - 1);
      AtCString(domain, index);
      if At(domain, index) == DomainSeparator || At(domain, index) == StringEnd {
        ghost var index0, labelSize0, labelSequence0 := index, labelSize, labelSequence;
        labelSequence := labelSequence + [LengthByte(labelSize)];
        if labelSize + |labelSequence| + 1 > MaxDomainSize + 1 {
          EncodeCloseFails(s, index, labelSize, labelSequence0);
          return None;
        }
        CStringSlice(domain, index - labelSize, index);
        labelSequence := labelSequence + domain[index - labelSize..index];
        index := index + 1;
        labelSize := 0;
        EncodeCloseStep(s, index0, labelSize0, labelSequence0, labelSequence);
        continue;
      }
      EncodeCharStep(s, index, labelSize, labelSequence);
      index := index + 1;
      labelSize := labelSize + 1;
    }
    AtCString(domain, index - 1);
    EncodeEnd(s, index, labelSize, labelSequence);
    labelSequence := labelSequence + [StringEnd];
    return Some(labelSequence);
  }

  /** A slice of the string is the same slice of the buffer that holds it. */
  lemma CStringSlice(d: seq<u8>, lo: nat, hi: nat)
    requires lo <= hi <= |CString(d)|
    ensures d[lo..hi] == CString(d)[lo..hi]
  {
    var s := CString(d);
    forall k | 0 <= k < hi - lo ensures d[lo..hi][k] == s[lo..hi][k] {
      assert s[lo + k] == d[..|s|][lo + k];
    }
  }

  /** What holds before each turn of domain_to_label_sequence's loop: the label sequence so
      far, then the body of the labels from the one being scanned on, is the whole body. */
  ghost predicate EncodeInvariant(s: seq<u8>, index: nat, labelSize: nat, labelSequence: seq<u8>) {
    1 <= index <= |s| + 1 && labelSize <= index
    && (index <= |s| ==>
          Body(SplitLabels(s)) == labelSequence + Body(ScanLabels(s, index - labelSize, index)))
    && (index == |s| + 1 ==> labelSequence == Body(SplitLabels(s)))
    && |labelSequence| <= MaxDomainSize
  }

  /** A label closed past the size limit: the whole label sequence is too long. */
  lemma EncodeCloseFails(s: seq<u8>, index: nat, labelSize: nat, labelSequence: seq<u8>)
    requires EncodeInvariant(s, index, labelSize, labelSequence) && index <= |s|
    requires index == |s| || s[index] == DomainSeparator
    requires labelSize + |labelSequence| + 2 > MaxDomainSize + 1
    ensures LabelSequence(s) == None
  {
    ScanBodyLength(s, index - labelSize, index);
  }

  /** A label closed within the size limit: its length byte and its bytes are emitted. */
  lemma EncodeCloseStep(s: seq<u8>, index: nat, labelSize: nat, labelSequence: seq<u8>,
                        labelSequence': seq<u8>)
    requires EncodeInvariant(s, index, labelSize, labelSequence) && index <= |s|
    requires index == |s| || s[index] == DomainSeparator
    requires labelSize + |labelSequence| + 2 <= MaxDomainSize + 1
    requires labelSequence' == labelSequence + [LengthByte(labelSize)] + s[index - labelSize..index]
    ensures EncodeInvariant(s, index + 1, 0, labelSequence')
  {
    var st := index - labelSize;
    var closed := [LengthByte(labelSize)] + s[st..index];
    var rest := if index == |s| then [] else Body(ScanLabels(s, index + 1, index + 1));
    assert Body(ScanLabels(s, st, index)) == closed + rest by {
      ScanFirst(s, st, index);
    }
    assert Body(SplitLabels(s)) == labelSequence' + rest by {
      AppendAssoc(labelSequence, [LengthByte(labelSize)], s[st..index]);
      AppendAssoc(labelSequence, closed, rest);
    }
    if index == |s| {
      assert labelSequence' + rest == labelSequence';
    }
  }

  /** A character that is neither '.' nor the end joins the current label. */
  lemma EncodeCharStep(s: seq<u8>, index: nat, labelSize: nat, labelSequence: seq<u8>)
    requires EncodeInvariant(s, index, labelSize, labelSequence) && index < |s|
    requires s[index] != DomainSeparator
    ensures EncodeInvariant(s, index + 1, labelSize + 1, labelSequence)
  {
  }

  /** At the end of the string the label sequence is complete and within the limit. */
  lemma EncodeEnd(s: seq<u8>, index: nat, labelSize: nat, labelSequence: seq<u8>)
    requires EncodeInvariant(s, index, labelSize, labelSequence) && index == |s| + 1
    ensures LabelSequence(s) == Some(labelSequence + [StringEnd])
  {
  }

  /** At a separator or at the end, the label being scanned is complete. */
  lemma ScanFirst(d: seq<u8>, st: nat, p: nat)
    requires st <= p <= |d|
    requires p == |d| || d[p] == DomainSeparator
    ensures Body(ScanLabels(d, st, p))
            == [LengthByte(p - st)] + d[st..p]
               + (if p == |d| then [] else Body(ScanLabels(d, p + 1, p + 1)))
  {
    var labels := ScanLabels(d, st, p);
    assert labels[0] == d[st..p];
    if p == |d| {
      assert labels[1..] == [];
    } else {
      assert labels[1..] == ScanLabels(d, p + 1, p + 1);
    }
  }

  // ---------------------------------------------------------------------------------------
  // Encoding then decoding.

  predicate LabelsFit(labels: seq<seq<u8>>) {
    forall l | l in labels :: 1 <= |l| <= 63
  }

  /** The decoder reads an encoded label sequence back, wherever it sits in a buffer, and the
      name ends on its zero byte. */
  lemma {:induction false} LabelsOfEncoding(labels: seq<seq<u8>>, buf: seq<u8>, pos: nat, limit: nat)
    requires LabelsFit(labels)
    requires pos + |EncodeLabels(labels)| <= |buf|
    requires buf[pos..pos + |EncodeLabels(labels)|] == EncodeLabels(labels)
    ensures Labels(buf, pos, limit) == Ok(labels)
    ensures RunEnd(buf, pos) == pos + |EncodeLabels(labels)| - 1
    decreases |labels|
  {
    RunEndOfEncoding(labels, buf, pos);
    if labels != [] {
      var l, rest := labels[0], labels[1..];
      EncodeCons(labels, buf, pos);
      LabelsFitCons(labels);
      LabelsOfEncoding(rest, buf, pos + 1 + |l|, limit);
      LabelsStep(buf, pos, limit, l);
      assert Prepend(l, Ok(rest)) == Ok(labels) by {
        assert [l] + rest == labels;
      }
    } else {
      assert Body(labels) == [];
      assert buf[pos] == EncodeLabels(labels)[0] == StringEnd;
    }
  }

  /** The encoded name ends on its zero byte. */
  lemma {:induction false} RunEndOfEncoding(labels: seq<seq<u8>>, buf: seq<u8>, pos: nat)
    requires LabelsFit(labels)
    requires pos + |EncodeLabels(labels)| <= |buf|
    requires buf[pos..pos + |EncodeLabels(labels)|] == EncodeLabels(labels)
    ensures RunEnd(buf, pos) == pos + |EncodeLabels(labels)| - 1
    decreases |labels|
  {
    if labels != [] {
      var l, rest := labels[0], labels[1..];
      EncodeCons(labels, buf, pos);
      LabelsFitCons(labels);
      RunEndOfEncoding(rest, buf, pos + 1 + |l|);
      RunEndStep(buf, pos);
    } else {
      assert buf[pos] == EncodeLabels(labels)[0];
    }
  }

  /** The first label of labels that fit has a length byte that is neither the terminator
      nor a pointer, and the other labels fit. */
  lemma LabelsFitCons(labels: seq<seq<u8>>)
    requires LabelsFit(labels) && labels != []
    ensures LabelsFit(labels[1..])
    ensures LengthByte(|labels[0]|) == |labels[0]|
    ensures LengthByte(|labels[0]|) != StringEnd && !IsPointer(LengthByte(|labels[0]|))
  {
    assert labels[0] in labels;
    forall x | x in labels[1..] ensures 1 <= |x| <= 63 {
      assert x in labels;
    }
  }

  /** Where an encoded sequence of labels sits in a buffer, its first label and the rest. */
  lemma EncodeCons(labels: seq<seq<u8>>, buf: seq<u8>, pos: nat)
    requires labels != []
    requires pos + |EncodeLabels(labels)| <= |buf|
    requires buf[pos..pos + |EncodeLabels(labels)|] == EncodeLabels(labels)
    ensures buf[pos] == LengthByte(|labels[0]|)
    ensures |EncodeLabels(labels)| == 1 + |labels[0]| + |EncodeLabels(labels[1..])|
    ensures buf[pos + 1..pos + 1 + |labels[0]|] == labels[0]
    ensures buf[pos + 1 + |labels[0]|..pos + |EncodeLabels(labels)|] == EncodeLabels(labels[1..])
  {
    var head: seq<u8> := [LengthByte(|labels[0]|)];
    assert EncodeLabels(labels) == head + labels[0] + EncodeLabels(labels[1..]);
    SliceParts(buf, pos, head, labels[0], EncodeLabels(labels[1..]));
    assert buf[pos] == buf[pos..pos + 1][0];
  }

  lemma AppendAssoc(a: seq<u8>, b: seq<u8>, c: seq<u8>)
    ensures (a + b) + c == a + (b + c)
  {
  }

  /** A slice holding three parts, one after the other, holds each of them. */
  lemma SliceParts(buf: seq<u8>, pos: nat, x: seq<u8>, y: seq<u8>, z: seq<u8>)
    requires pos + |x| + |y| + |z| <= |buf|
    requires buf[pos..pos + |x| + |y| + |z|] == x + y + z
    ensures buf[pos..pos + |x|] == x
    ensures buf[pos + |x|..pos + |x| + |y|] == y
    ensures buf[pos + |x| + |y|..pos + |x| + |y| + |z|] == z
  {
    var w := buf[pos..pos + |x| + |y| + |z|];
    assert w == x + (y + z);
    assert buf[pos..pos + |x|] == w[..|x|];
    assert w[..|x|] == x;
    assert w[|x|..] == y + z;
    assert buf[pos + |x|..pos + |x| + |y|] == w[|x|..][..|y|] == y;
    assert buf[pos + |x| + |y|..pos + |x| + |y| + |z|] == w[|x|..][|y|..] == z;
  }

  /** A string the encoder accepts and whose labels all have 1 to 63 characters. */
  predicate ValidDomain(d: seq<u8>) {
    NoNul(d) && |d| <= MaxDomainSize - 1 && LabelsFit(SplitLabels(d))
  }

  /** Round trip of a name: what domain_to_label_sequence produces decodes back to the same
      string, and the cursor ends on the last byte of the label sequence. */
  lemma DomainRoundTrip(d: seq<u8>, pre: seq<u8>, suffix: seq<u8>, limit: nat)
    requires ValidDomain(d)
    ensures LabelSequence(d) == Some(EncodeLabels(SplitLabels(d)))
    ensures var buf := pre + EncodeLabels(SplitLabels(d)) + suffix;
            Labels(buf, |pre|, limit) == Ok(SplitLabels(d))
            && Join(SplitLabels(d)) == d
            && RunEnd(buf, |pre|) == |pre| + |EncodeLabels(SplitLabels(d))| - 1
  {
    LabelSequenceLength(d);
    var encoded := EncodeLabels(SplitLabels(d));
    var buf := pre + encoded + suffix;
    assert buf[|pre|..|pre| + |encoded|] == encoded;
    LabelsOfEncoding(SplitLabels(d), buf, |pre|, limit);
    SplitJoin(d);
  }

  /** The encoder does not enforce the 63-character label limit: a 64-character label gets
      the length byte 0x40, which the decoder takes for a pointer. */
  lemma LongLabelReadsAsPointer()
    ensures var d := seq(64, _ => 0x78 as u8);
            LabelSequence(d) == Some([0x40] + d + [0]) && IsPointer(0x40)
  {
    var d := seq(64, _ => 0x78 as u8);
    NoSeparatorScan(d, 0, 1);
    assert d[0..] == d;
    assert SplitLabels(d) == [d];
    BodyOfFew(d, d);
  }

  /** A string without '.' is one label. */
  lemma {:induction false} NoSeparatorScan(d: seq<u8>, st: nat, p: nat)
    requires st <= p <= |d|
    requires forall i | p <= i < |d| :: d[i] != DomainSeparator
    ensures ScanLabels(d, st, p) == [d[st..]]
    decreases |d| - p
  {
    if p < |d| {
      NoSeparatorScan(d, st, p + 1);
    } else {
      assert d[st..p] == d[st..];
    }
  }
}
