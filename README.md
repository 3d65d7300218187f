# celest_dns codec in Dafny

This project models the DNS message codec of `lib/src/celest_dns.c`, which implements the message format of RFC 1035:

- the 12-byte header of section 4.1.1;
- the question section of section 4.1.2;
- the resource-record sections of section 4.1.3;
- name compression pointers of section 4.1.4;
- the 512-byte message limit of section 2.3.4.

It also models the earlier, questions-only revision of the codec in `lib/src/compass_dns.c`.

Every C routine that loops or writes into a buffer is a Dafny `method` with its loop and invariants. Each is proved equal to a specification function: a decoder gives the entries it reads and the cursor after them; an encoder gives the bytes it writes. The properties the code and its tests promise are then proved as lemmas about those functions:

- round trips;
- size bounds;
- the failure cases;
- the test vectors.

## Modules

| file | module | what it holds |
|---|---|---|
| `wire.dfy` | `Wire` | the `u8`/`u16`/`u32` types, the error kinds, and the big-endian helpers |
| `header.dfy` | `Header` | `parse_dns_header` and `dns_header_to_buffer` |
| `names.dfy` | `Names` | the name walk (`calc_domain_size`, `retrieve_domain`) and the encoder (`domain_to_label_sequence`) |
| `sections.dfy` | `Sections` | the four section codecs for questions and records |
| `message.dfy` | `Message` | `parse_dns_message`, `dns_message_to_buffer` and `free_dns_message`, with `DnsMessage` as a class |
| `vectors.dfy` | `Vectors` | the vectors of `lib/test/celest_dns_test.c` |
| `compass.dfy` | `Compass` | what `lib/src/compass_dns.c` does differently |
| `compass_vectors.dfy` | `CompassVectors` | its tests |

## Decisions

### Buffer length and pointers

The C decoder is never told how long its buffer is. It follows every pointer unconditionally.

The model's decoder takes the buffer as a `seq<u8>` and adds two checks:

- a read past the end fails with `Truncated`;
- a pointer must lead strictly below the start of the label run it ends, otherwise the read fails with `BadPointer`. The start of the run is the name's own start, or the previous pointer's target.

This makes every decode terminate. It also means the model reads only names whose pointers each lead strictly below the run they end. On those names, where the C code stays inside the buffer, the model decodes what the C code decodes. The model refuses every other pointer, including forward pointers and pointers back into the same run, even where the C code decodes the name such a pointer leads to (`Names.ForwardPointerRefused`). The C code loops only on a pointer cycle (`Names.SelfPointerLoops`). `Names.StepAsWritten`, `Names.EndIndexAsWritten` and `Names.ChainedPointerEndAsWritten` state the unchecked walk as written.

### Error kinds

The C code reports every failure as `-1` or `NULL`. The model's `Error` says which check fired.

### Where the code differs from the format's usual description

The model follows the code in each of these places:

- **Pointer test.** The pointer test masks the indicator byte with `0xC0` and tests for non-zero (`lib/src/celest_dns.c:429`). So an indicator with *either* top bit set is a pointer, and a length byte of 64 or more is never a label.
- **Label length.** The encoder does not check the 63-byte label limit. A 64-byte label gets length byte `0x40`, which the decoder then reads as a pointer (`Names.LongLabelReadsAsPointer`).
- **Name length.** The encoder caps a label sequence at 254 bytes, so it accepts names of at most 252 characters (`Names.LabelSequenceLength`). The decoder accepts 253. The model keeps the encoder's 8-bit indices unbounded, so this rule is exact only for names of at most 255 characters (see Left out).
- **First character.** The encoder never treats a name's first character as a separator. Doubled or trailing dots give empty labels.

In one place the model does not follow the code:

- **Failure cleanup.** When the authority or the additional section fails, `parse_dns_message` frees and clears the answers rather than the section that failed (`lib/src/celest_dns.c:112-113`, 132-133). The model clears the failing section's field instead, the evidently intended cleanup. `Message.OutcomeAsWritten` states what the code leaves (see Findings).

### The earlier revision

`lib/src/compass_dns.c` shares four routines with `lib/src/celest_dns.c`, line for line: `calc_domain_size`, `retrieve_domain`, `parse_dns_header` and `dns_header_to_buffer`. Each is modelled once, by `Names` and `Header`. `Compass` models what differs:

- the two-byte helpers, which take the two bytes as separate arguments;
- a question that keeps its `domain_size`;
- `parse_dns_questions` with no limit on the name's length.

## Model

| member | source | states |
|---|---|---|
| Wire.U16Bytes | lib/src/celest_dns.c:404-407 | the two bytes `u_int16_to_big_endian_chars` stores for a value, always two |
| Wire.U16ToBigEndianChars | lib/src/celest_dns.c:404-407 | stores the value's high byte at `off` and its low byte at `off + 1`; no other byte of the buffer changes |
| Wire.U16RoundTrip | lib/src/celest_dns.c:400-407 | reading back the two bytes written for a u16 gives the value |
| Wire.U16BytesOfRead | lib/src/celest_dns.c:400-402 | the reader computes `b0 * 256 + b1`: the bytes of the value read are the two bytes it was read from |
| Wire.U16ReadBack | lib/src/celest_dns.c:400-407 | two bytes equal to a value's encoding read back as that value, at any offset |
| Wire.U32Bytes | lib/src/celest_dns.c:416-422 | a u32 is four bytes on the wire |
| Wire.U32ToBigEndianChars | lib/src/celest_dns.c:416-422 | stores the value's four bytes, most significant first; no other byte changes |
| Wire.U32RoundTrip | lib/src/celest_dns.c:409-422 | a reader of all 32 bits reads back the value the writer stored |
| Wire.BigEndianCharsToU32AsWritten | lib/src/celest_dns.c:409-414 | the source's 32-bit reader, whose `u_int16_t` return type keeps only the last two bytes |
| Wire.U32TruncatedAsWritten | lib/src/celest_dns.c:409-414 | the reader as written gives every TTL modulo 2^16; TTL 65537, written `00 01 00 01`, reads back as 1 |
| Header.ParseDnsHeader | lib/src/celest_dns.c:233-247 | whatever the bytes, every flag field is in range, and writing the parsed header back reproduces the 12 bytes it came from |
| Header.HeaderBytes | lib/src/celest_dns.c:249-265 | the header is 12 bytes on the wire |
| Header.DnsHeaderToBuffer | lib/src/celest_dns.c:249-265 | stores the header's 12 bytes at the start of the buffer and leaves the rest unchanged |
| Header.StoreFlagsByte2 | lib/src/celest_dns.c:251-256 | byte 2 becomes the QR, opcode, AA, TC and RD bits, summed as the source sums them into a byte; no other byte changes |
| Header.StoreFlagsByte3 | lib/src/celest_dns.c:257-260 | byte 3 becomes the packed RA, Z and RCODE bits; no other byte changes |
| Header.FlagBitsOfPack | lib/src/celest_dns.c:251-260 | for in-range fields, each mask and shift of the parser recovers the field the writer packed |
| Header.HeaderRoundTrip | lib/src/celest_dns.c:233-265 | for one-bit flags, opcode and rcode below 16 and z below 8, parsing the written header gives the header back |
| Header.OutOfRangeZSpills | lib/src/celest_dns.c:259 | an out-of-range z of 8 is not masked: it sets the RA bit, so the round trip requires the fields to be in range |
| Header.ParseHeaderVector | lib/test/celest_dns_test.c:14-34 | `01 01 8f b3 01 02 01 03 01 04 01 05` parses to id 257, all flags 1, opcode 1, z 3, rcode 3, counts 258 to 261 |
| Header.ParseHeaderVectorCompass | lib/test/compass_dns_test.c:12-32 | `00 05 8f b3 00 01 00 02 00 03 00 04` parses to id 5, z 3, rcode 3, counts 1 to 4 |
| Header.HeaderBytesVector | lib/test/celest_dns_test.c:182-208 | id 257, opcode 2 (status), all flags 1, z 1, rcode 5 (refused) is written `01 01 97 95`, with zero counts or with the counts 4, 3, 2, 1 of `lib/test/compass_dns_test.c:34-56` |
| Names.PointerOffset | lib/src/celest_dns.c:429-436 | a pointer's offset is its low 14 bits, below 16384 |
| Names.LabelLengthBound | lib/src/celest_dns.c:429 | an indicator that is neither the end nor a pointer is a label length from 1 to 63 |
| Names.RunEndInBounds | lib/src/celest_dns.c:484-489 | for a name that decodes, the last byte of its run is in the buffer and is its zero byte, or the second byte of a pointer |
| Names.SizeMatchesRetrieved | lib/src/celest_dns.c:424-490 | the specifications of the two passes agree on every buffer: the size fails exactly when the copy does, and otherwise is the length of the copied name plus one; with the ensures of `Names.CalcDomainSize` and `Names.RetrieveDomain`, the source's two loops agree |
| Names.CalcDomainSize | lib/src/celest_dns.c:424-450 | the source's loop computes the length of the decoded name, labels joined by '.', plus one for the string end; it fails where the decoder fails |
| Names.RetrieveDomain | lib/src/celest_dns.c:452-490 | the source's loop copies the decoded name, labels joined by '.'; the end index is the zero byte, or the second byte of the pointer where the name's own run ends |
| Names.ChainedPointerEnd | lib/src/celest_dns.c:471 | a name reached through two pointers, "a.com" at index 9, ends at index 10, the second byte of its first pointer |
| Names.EndIndexAsWritten | lib/src/celest_dns.c:460-489 | the end index as written: `domain_pointer_end_index` is overwritten at every pointer; when it succeeds, the name decodes |
| Names.ChainedPointerEndAsWritten | lib/src/celest_dns.c:471 | as written, the same name ends at index 8, inside the name its second pointer leads to |
| Names.StepAsWritten | lib/src/celest_dns.c:428-446 | one turn of the unchecked loop: the new cursor lies in the buffer and the new indicator is the byte before it |
| Names.ForwardPointerRefused | lib/src/celest_dns.c:429-439 | a pointer `C0 0E` at 12 to the name "a" at 14: the unchecked loop follows it and stops on the zero byte, while the decoder refuses it as a bad pointer |
| Names.SelfPointerLoops | lib/src/celest_dns.c:429-439 | a pointer `C0 0C` at offset 12 leads back to itself, so the unchecked loop never ends, while the decoder reports a bad pointer |
| Names.CString | lib/src/celest_dns.c:499 | the string a `char *` denotes: the bytes before the first zero |
| Names.CStringOfNoNul | lib/src/celest_dns.c:499 | a name without zero bytes is its own string |
| Names.LengthByte | lib/src/celest_dns.c:498-501 | a label's length byte is its length while that fits a byte (the count is a `u_int8_t`) |
| Names.SplitJoin | lib/src/celest_dns.c:499-514 | splitting a name at its dots and joining the labels with '.' gives the name back |
| Names.LabelSequenceLength | lib/src/celest_dns.c:492-520 | the label encoding of a name of n characters has n + 2 bytes (1 when the name is empty); the encoder, with its indices unbounded, refuses the name exactly when n exceeds 252, so a sequence never exceeds 254 bytes |
| Names.OneLabelSequence | lib/src/celest_dns.c:499-518 | a name without dots of 1 to 63 characters encodes as its length, its bytes and a zero |
| Names.TwoLabelSequence | lib/src/celest_dns.c:499-518 | a name with one dot encodes as the two length-prefixed labels and a zero |
| Names.LabelSequenceVectorCom | lib/test/celest_dns_test.c:231 | "test.com" encodes as `04 t e s t 03 c o m 00` |
| Names.LabelSequenceVectorDe | lib/test/celest_dns_test.c:241 | "test.de" encodes as `04 t e s t 02 d e 00` |
| Names.DomainToLabelSequence | lib/src/celest_dns.c:492-520 | the source's loop gives the label sequence of the string, or nothing (NULL) when it would exceed 254 bytes |
| Names.LabelsOfEncoding | lib/src/celest_dns.c:452-490 | wherever it sits in a buffer, an encoded run of 1-to-63-byte labels decodes to the same labels and ends on its zero byte |
| Names.DomainRoundTrip | lib/src/celest_dns.c:452-520 | a name the encoder accepts, with labels of 1 to 63 characters, decodes back to itself from any buffer holding its encoding, and the cursor ends on the zero byte |
| Names.LongLabelReadsAsPointer | lib/src/celest_dns.c:498-514 | the encoder does not enforce the 63-character label limit: a 64-character label gets the length byte 0x40, which the decoder takes for a pointer |
| Sections.DecodeName | lib/src/celest_dns.c:276-281 | a name that decodes has at most 253 characters, and the cursor after it moves forward and stays within the buffer |
| Sections.DecodeNameOk | lib/src/celest_dns.c:276-281 | a name whose labels decode and whose length is within 253 is the joined labels, and the cursor is one past its run |
| Sections.DecodeQuestion | lib/src/celest_dns.c:276-285 | a question that decodes takes at least five bytes, all within the buffer |
| Sections.DecodeQuestionOk | lib/src/celest_dns.c:280-285 | after the name, the type and the class are read big-endian, two bytes each |
| Sections.DecodeQuestions | lib/src/celest_dns.c:272-288 | a section that decodes has as many questions as counted, at least five bytes each, and ends inside the buffer |
| Sections.QuestionsErrPersists | lib/src/celest_dns.c:274-277 | once a question fails, every longer section fails with the same error |
| Sections.QuestionsStep | lib/src/celest_dns.c:274-286 | one more question appends it to the section, or fails the section with its own error |
| Sections.ParseDnsQuestions | lib/src/celest_dns.c:267-289 | reads the count from bytes 4-5 and fills the array from offset 12; the result is the index of the section's last byte, or the first question's error |
| Sections.ParseDomain | lib/src/celest_dns.c:276-281 | the size pass, the 253-character check and the copy pass read the name `DecodeName` gives |
| Sections.ParseDnsQuestion | lib/src/celest_dns.c:276-285 | one turn of the loop reads the question `DecodeQuestion` gives |
| Sections.DecodeRecord | lib/src/celest_dns.c:334-351 | a record that decodes holds exactly `rd_length` bytes of data and takes at least 11 + `rd_length` bytes, all within the buffer |
| Sections.DecodeRecordOk | lib/src/celest_dns.c:338-351 | after the name: type, class, TTL and data length (2, 2, 4 and 2 bytes), then the data |
| Sections.DecodeRecords | lib/src/celest_dns.c:332-353 | a section that decodes has as many records as counted, at least 11 bytes each, and ends inside the buffer |
| Sections.RecordsErrPersists | lib/src/celest_dns.c:332-337 | once a record fails, every longer section fails with the same error |
| Sections.RecordsStep | lib/src/celest_dns.c:332-352 | one more record appends it to the section, or fails the section with its own error |
| Sections.ParseDnsRecords | lib/src/celest_dns.c:325-355 | fills the array with the records from `start` on; the result is the index of the last byte consumed, or the first record's error |
| Sections.ParseDnsRecord | lib/src/celest_dns.c:334-351 | one turn of the loop reads the record `DecodeRecord` gives |
| Sections.EndIndexOk | lib/src/celest_dns.c:287 | the end index reported is one less than the cursor after the section |
| Sections.EncodeQuestion | lib/src/celest_dns.c:299-312 | a question that encodes fits whole in the 512-byte buffer |
| Sections.EncodeQuestions | lib/src/celest_dns.c:298-315 | a section that encodes ends within the 512-byte buffer |
| Sections.QuestionsEncodeFail | lib/src/celest_dns.c:300-305 | a question that fails to encode fails the section, with its own error |
| Sections.QuestionsEncodeStep | lib/src/celest_dns.c:298-313 | a question that encodes is appended after the ones before it |
| Sections.RecordFields | lib/src/celest_dns.c:375-382 | the fixed part of a record is ten bytes |
| Sections.EncodeRecord | lib/src/celest_dns.c:365-385 | a record that encodes ends before the buffer's last byte, as the source's `+ 1` asks |
| Sections.EncodedRecord | lib/src/celest_dns.c:372-385 | a record is written as its name's label sequence, the ten fixed bytes and its data, in that order |
| Sections.EncodeRecords | lib/src/celest_dns.c:364-388 | a section that encodes ends before the buffer's last byte |
| Sections.RecordsEncodeFail | lib/src/celest_dns.c:366-371 | a record that fails to encode fails the section, with its own error |
| Sections.RecordsEncodeStep | lib/src/celest_dns.c:364-386 | a record that encodes is appended after the ones before it |
| Sections.QuestionsLength | lib/src/celest_dns.c:308-312 | an encoded question section is, per question, the name's label sequence plus four bytes |
| Sections.RecordsLength | lib/src/celest_dns.c:374-385 | an encoded record section is, per record, the name's label sequence plus ten bytes plus `rd_length` |
| Sections.CopyInto | lib/src/celest_dns.c:306 | `memcpy` stores the bytes at the offset; the rest of the buffer is unchanged |
| Sections.DnsQuestionsToBuffer | lib/src/celest_dns.c:291-316 | after the loop, the buffer holds the section's bytes from `start` on and is unchanged elsewhere; the result is the index of the last byte written, or the first failing question's error |
| Sections.QuestionToBuffer | lib/src/celest_dns.c:299-312 | one turn writes the question's bytes at the cursor, or fails with its error; nothing before the cursor changes |
| Sections.DnsRecordsToBuffer | lib/src/celest_dns.c:357-389 | after the loop, the buffer holds the section's bytes from `start` on and is unchanged elsewhere; the result is the index of the last byte written, or the first failing record's error |
| Sections.RecordToBuffer | lib/src/celest_dns.c:365-385 | one turn writes the record's bytes at the cursor, or fails with its error; nothing before the cursor changes |
| Sections.StoreRecordFields | lib/src/celest_dns.c:375-382 | stores type, class, TTL and data length, ten bytes; no other byte changes |
| Sections.NameRoundTrip | lib/src/celest_dns.c:276-281 | a valid name's label sequence reads back as the name, with the cursor just after it |
| Sections.EncodedName | lib/src/celest_dns.c:300 | the encoder gives a valid name its label sequence |
| Sections.QuestionRoundTrip | lib/src/celest_dns.c:267-316 | a question with a valid name, once written, reads back as itself with the cursor just after it |
| Sections.FieldsRoundTrip | lib/src/celest_dns.c:340-347 | reading the ten written fixed bytes gives back the type, class, TTL (all 32 bits) and data length |
| Sections.RecordRoundTrip | lib/src/celest_dns.c:325-389 | a record with a valid name and exactly `rd_length` bytes of data, once written, reads back as itself |
| Sections.QuestionsRoundTrip | lib/src/celest_dns.c:267-316 | a written question section reads back as the same questions, ending where the writing ended |
| Sections.RecordsRoundTrip | lib/src/celest_dns.c:325-389 | a written record section reads back as the same records, ending where the writing ended |
| Sections.SlotAsWritten | lib/src/celest_dns.c:275 | the source advances the array pointer by `i` on turn `i`, so entry `i` lands in slot i(i+1)/2 |
| Sections.SlotsInBounds | lib/src/celest_dns.c:333 | only entries 0 and 1 land in their own slot; from a third entry on, the source writes past the array |
| Sections.QuestionAsWritten | lib/src/celest_dns.c:299-312 | a question as written, with the source's capacity check, can end up to three bytes past the buffer |
| Sections.QuestionAgreesAsWritten | lib/src/celest_dns.c:302 | the source's check and the model's agree exactly when the question fits; otherwise the source writes past the end |
| Sections.QuestionOverrunAsWritten | lib/src/celest_dns.c:302 | the question "a" at index 508 passes the source's check, and its seven bytes end three bytes past the buffer |
| Sections.FirstRecordAgreesAsWritten | lib/src/celest_dns.c:364-386 | for the first record, the source writes the same bytes as the model wherever the model succeeds |
| Sections.RecordOverrunAsWritten | lib/src/celest_dns.c:368 | the record "a" at index 500 passes the name check and is written up to one byte past the buffer before the data check fails |
| Sections.RecordDataAsWritten | lib/src/celest_dns.c:383-385 | as written, the second record of a section is written with the first record's data |
| Message.DecodeMessage | lib/src/celest_dns.c:63-140 | a message that decodes has as many entries in each section as its header counts, and a header in range |
| Message.OutcomeOfDecoded | lib/src/celest_dns.c:66-138 | when the message decodes, every section's field holds its entries, or is null when the header counts none |
| Message.Padded | lib/src/celest_dns.c:143 | the 512-byte buffer holds the message's bytes, then zeros |
| Message.WithQuestions | lib/src/celest_dns.c:147-161 | the question section is written after the header and keeps it |
| Message.WithRecords | lib/src/celest_dns.c:162-206 | a record section is written after the bytes before it and keeps them; an earlier failure is passed on |
| Message.EncodeMessage | lib/src/celest_dns.c:142-208 | a message that encodes takes 12 to 512 bytes and starts with its header's bytes |
| Message.MessageRoundTrip | lib/src/celest_dns.c:63-208 | a message the encoder accepts, with in-range header fields and valid names and data, decodes back to itself from any buffer that starts with its bytes |
| Message.BufferRoundTrip | lib/src/celest_dns.c:63-208 | the zero-padded buffer `dns_message_to_buffer` returns decodes back to the message |
| Message.MessageLength | lib/src/celest_dns.c:146-205 | the size reported is 12, plus the name and four bytes of every question, plus the name, ten bytes and data of every record |
| Message.DnsMessage.constructor | lib/src/celest_dns.c:63 | a message with its header and no sections |
| Message.DnsMessage.Contents | lib/src/celest_dns.c:147-205 | the content a message object stands for: its header, and as many entries of each section as the header counts |
| Message.DnsMessage.FreeDnsMessage | lib/src/celest_dns.c:210-231 | every section the header counts entries for is released and its field set to null; the header and the other fields stay |
| Message.ParseDnsMessage | lib/src/celest_dns.c:63-140 | fails exactly when `DecodeMessage` does, with its error; on success, the object holds the decoded message; each section's field is as the parser leaves it: a new array, null, or untouched after an earlier failure |
| Message.ParseSections | lib/src/celest_dns.c:65-139 | the section blocks, once the header is stored, agree with `DecodeMessage` |
| Message.ParseFromAnswers | lib/src/celest_dns.c:80-139 | the record blocks, from where the questions end, agree with `DecodeMessage` |
| Message.ParseFromAuthorities | lib/src/celest_dns.c:100-139 | the authority and additional blocks agree with `DecodeMessage` |
| Message.ParseQuestionSection | lib/src/celest_dns.c:66-79 | no array when there are no questions; otherwise a new one holding them, or null when they fail; the cursor is one past the section |
| Message.ParseRecordSection | lib/src/celest_dns.c:80-99 | no array when there are no records; otherwise a new one holding them, or null when they fail; the cursor is one past the section |
| Message.QuestionsFail | lib/src/celest_dns.c:69-75 | when the questions fail, so does the message, with their error; only the questions' field is set |
| Message.QuestionsStored | lib/src/celest_dns.c:66-79 | once read, the questions are kept whatever follows |
| Message.AnswersFail | lib/src/celest_dns.c:83-95 | when the answers fail after the questions are read, so does the message |
| Message.AnswersStored | lib/src/celest_dns.c:80-99 | once read, the answers are kept whatever follows |
| Message.AuthoritiesFail | lib/src/celest_dns.c:103-115 | when the authorities fail, so does the message |
| Message.AdditionalFail | lib/src/celest_dns.c:123-135 | when the additional records fail, so does the message |
| Message.SectionsAllRead | lib/src/celest_dns.c:63-140 | when all four sections read, the message is their entries |
| Message.DnsMessageToBuffer | lib/src/celest_dns.c:142-208 | fails exactly when `EncodeMessage` does, with its error; otherwise returns a new 512-byte buffer holding the message's bytes, then zeros, and reports their number |
| Message.WriteQuestionSection | lib/src/celest_dns.c:147-161 | the question block writes the question section after the bytes already written, or skips it when there are no questions |
| Message.WriteRecordSection | lib/src/celest_dns.c:162-206 | a record block writes its section after the bytes already written, or skips it when there are no records |
| Message.OutcomeAsWrittenAgrees | lib/src/celest_dns.c:100-135 | the fields the source leaves are the model's exactly when the message does not fail in the authority or additional section |
| Message.OutcomeAsWrittenLosesAnswers | lib/src/celest_dns.c:112-113 | when the authority or additional section fails, the source clears the answers the model keeps, and leaves allocated the failing section's array, which the model clears |
| Vectors.HeaderOnlyVector | lib/test/celest_dns_test.c:36-57 | the header-only message decodes to its header and four empty sections |
| Vectors.SingleQuestionVector | lib/test/celest_dns_test.c:59-73 | one question, "test.com" A IN |
| Vectors.TwoQuestionsVector | lib/test/celest_dns_test.c:75-94 | "test.com" A IN, then "www.ab.en" CNAME CS |
| Vectors.PointerVector | lib/test/celest_dns_test.c:96-114 | a second name `C0 0C` decodes to "test.com" |
| Vectors.EndPointerVector | lib/test/celest_dns_test.c:116-134 | a second name `03 www C0 0C` decodes to "www.test.com" |
| Vectors.TooLongNameVector | lib/test/celest_dns_test.c:136-159 | a 254-character name fails the message, whatever the buffer's last bytes hold, and leaves the questions' field null |
| Vectors.SingleAnswerVector | lib/test/celest_dns_test.c:161-180 | one answer, "test.com" A IN, TTL 257, four bytes of data `01 02 03 04` |
| Vectors.HeaderEncodeVector | lib/test/celest_dns_test.c:182-208 | a header-only message is written as its 12 bytes |
| Vectors.QuestionsEncodeVector | lib/test/celest_dns_test.c:210-249 | "test.com" ALL ANY and "test.de" A IN are written as the expected 39 bytes |
| Vectors.AnswerEncodeVector | lib/test/celest_dns_test.c:251-291 | the answer "test.com" A IN, TTL 65537, data `01 02 03 04` is written as the expected 36 bytes |
| Compass.BigEndianCharsToShort | lib/src/compass_dns.c:7-9 | the high byte is the value divided by 256, the low byte the remainder |
| Compass.ShortToBigEndianChars | lib/src/compass_dns.c:11-14 | reading the two bytes stored gives the value; no other byte changes |
| Compass.ShortRoundTrip | lib/src/compass_dns.c:7-14 | the reader and the writer are inverses in both directions |
| Compass.ShortAgrees | lib/src/compass_dns.c:7-9 | the single-byte reader agrees with the celest_dns.c reader |
| Compass.DecodeQuestion | lib/src/compass_dns.c:123-130 | a question takes its name and four bytes, and keeps the name's size plus one |
| Compass.DecodeQuestions | lib/src/compass_dns.c:119-131 | a section that decodes has as many questions as counted and ends inside the buffer |
| Compass.QuestionsErrPersists | lib/src/compass_dns.c:121-131 | once a question fails, every longer section fails with the same error |
| Compass.QuestionsStep | lib/src/compass_dns.c:121-131 | one more question appends it to the section, or fails the section |
| Compass.ParseDnsQuestions | lib/src/compass_dns.c:114-133 | reads the count from bytes 4-5 and fills the array from offset 12, each question with its size; the end index is the section's last byte |
| Compass.QuestionAgrees | lib/src/compass_dns.c:123-130 | this revision reads every question celest_dns.c reads, with the same name, fields and cursor; it also reads names over 253 characters, which celest_dns.c refuses |
| Compass.QuestionsAgree | lib/src/compass_dns.c:114-133 | the same, for the whole section |
| Compass.QuestionsRejectLong | lib/src/compass_dns.c:123-124 | a section this revision reads with a name over 253 characters is refused by celest_dns.c |
| Compass.SizeFitsDomain | lib/src/compass_dns.c:123 | every question's stored size is its name's length plus one |
| Compass.QuestionSizes | lib/src/compass_dns.c:123 | the same, from any cursor |
| Compass.CelestAll | lib/src/compass_dns.c:114-133 | the questions without their sizes, entry for entry |
| CompassVectors.SingleQuestionVector | lib/test/compass_dns_test.c:58-74 | "test.com" A IN, size 9, end index `sizeof(buffer) - 1` |
| CompassVectors.TwoQuestionsVector | lib/test/compass_dns_test.c:76-97 | "test.com" and "www.ab.en" (size 10), end index `sizeof(buffer) - 1` |
| CompassVectors.PointerVector | lib/test/compass_dns_test.c:99-119 | a pointer name reads as "test.com", size 9, end index `sizeof(buffer) - 1` |
| CompassVectors.EndPointerVector | lib/test/compass_dns_test.c:121-141 | "www" and a pointer read as "www.test.com", size 13, end index `sizeof(buffer) - 1` |
| CompassVectors.LongNameAccepted | lib/test/celest_dns_test.c:136-159 | the 254-character name that celest_dns.c refuses is read by this revision, with size 255 |

## Left out

- I/O, `calloc` and `free`: memory is not modelled, so the allocation-failure branches are not either (`lib/src/celest_dns.c:67-68`, 81-82, 101-102, 121-122, 143-144, 278-279, 336-337, 348-349, 494-495). Releasing memory is shown only as a field set to null.
- The release functions are not modelled, because releasing is not observable in a model without memory: `free_dns_questions` and `free_dns_records` (`lib/src/celest_dns.c:318-323`, 391-398), and `free_dns_question` and `free_dns_questions` (`lib/src/compass_dns.c:135-143`).
- The 16-bit cursor: `buffer_index`, the `*_end_index` out-parameters and `buffer_size` are `u_int16_t` in the source. Here they are unbounded `nat`s. The decoder fails before reading past its buffer, and the encoder's buffer is 512 bytes, so these wrap only on buffers over 64 KiB.
- Names.CalcDomainSize: the source's `domain_length` (`lib/src/celest_dns.c:425`) is a `u_int16_t`, and so is `domain_index` in retrieve_domain (458). Here they are unbounded. Backward pointers let one name re-read the same bytes many times, so a buffer of a few KiB can hold a name of over 65535 characters. On such a name the model gives the full size, and `Sections.DecodeName` reports `NameTooLong`. The source's wrapped size can be 254 or less and pass the check at line 277, after which retrieve_domain writes past its allocation.
- Compass.DecodeQuestion: `domain_size` is a nat. The source's `u_int16_t` wraps on names over 65534 characters, which pointers make possible in a buffer of a few KiB. There the model stores the full size plus one, where the source stores it modulo 65536.
- Sections.ParseDnsQuestions: models entry `i` landing in slot `i`, not the source's cumulative advance; the advance as written is `Sections.SlotAsWritten` (see Findings).
- Sections.ParseDnsRecords: the same.
- Sections.EncodeQuestion: refuses a question that would not fit whole, where the source lets the type and class run past the buffer (see Findings).
- Sections.EncodeRecord: checks the name with the fixed part, and copies the record's own data; see Findings for the source's check and copy.
- Message.ParseDnsMessage: a failing authority or additional section leaves its own field null, where the source frees and clears the answers and leaves the failing array allocated (`Message.OutcomeAsWritten`; see Findings).
- Names.CalcDomainSize: refuses with `BadPointer` every pointer that does not lead below the start of the run it ends. That includes forward pointers and pointers back into the same run, though the source decodes the name many of them lead to (`Names.ForwardPointerRefused`); the source loops only on a pointer cycle (`Names.SelfPointerLoops`). A read past the buffer fails with `Truncated`, where the source reads out of bounds.
- Names.DomainToLabelSequence: `sequence_index`, `domain_index` and `label_size` are `u_int8_t` in the source (`lib/src/celest_dns.c:496-498`) and unbounded here. The length check runs only at a dot or at the end of the string. So on a string of 256 or more characters with no dot at indices 253 to 255, the source's `domain_index` wraps from 255 to 0, the loop condition reads `domain_ptr[-1]`, and the result depends on that byte. The model refuses every string over 252 characters. On strings of at most 255 characters the two agree.
- Names.RetrieveDomain: the same checks. The end index after a chain of pointers is the end of the first pointer met, where the source gives the last (see Findings).
- Wire.BigEndianCharsToU32AsWritten is the source's reader; the decoder keeps all 32 bits of the TTL (see Findings).
- Bytes after the last section are ignored. The source is never told the buffer's length and cannot see them either.
- The buffer of `lib/test/celest_dns_test.c:141` leaves its last two bytes uninitialised. `Vectors.TooLongNameVector` quantifies over their content.
- `lib/src/compass_dns.h` declares `domain` as a fixed array, with no `domain_size` field. The model follows the code's use (`lib/src/compass_dns.c:123-124`), not that layout.
- Compass.ParseDnsQuestions returns a `Result` where the source returns `void`. A failure can come only from the decoder's added checks.
- `lib/test/compass_dns_test.c:143-193` calls `parse_dns_records` and `parse_dns_message`, which `lib/src/compass_dns.c` does not define. It is not modelled.
- `cli/src/main.c` (sockets, printing, argument parsing) is not part of this model.

## Findings

| source | as written | input that shows it | evidently intended | confidence | as-written member | corrected member |
|---|---|---|---|---|---|---|
| lib/src/celest_dns.c:275 | `dns_questions_ptr += i` on turn `i`, so question `i` goes to slot i(i+1)/2 | qd_count 3: the third question is written to slot 3 of a 3-entry array | question `i` in slot `i` | not executed | Sections.SlotAsWritten, Sections.SlotsInBounds | Sections.ParseDnsQuestions |
| lib/src/celest_dns.c:333 | `dns_record_ptr += i`, the same for records | an_count 3: the third record is written past the array | record `i` in slot `i` | not executed | Sections.SlotAsWritten, Sections.SlotsInBounds | Sections.ParseDnsRecords |
| lib/src/compass_dns.c:122 | `dns_questions_ptr += i`, the same in the earlier revision | qd_count 3 | question `i` in slot `i` | not executed | Sections.SlotAsWritten, Sections.SlotsInBounds | Compass.ParseDnsQuestions |
| lib/src/celest_dns.c:302 | the capacity check counts the name and one byte, not the four bytes of type and class | the question "a" at index 508: its 7 bytes end at 515 | a question is written only when it fits whole | not executed | Sections.QuestionAsWritten, Sections.QuestionOverrunAsWritten | Sections.EncodeQuestion |
| lib/src/celest_dns.c:368 | the record's name check leaves out the 10 fixed bytes, which are written before the data check | the record "a" without data at index 500: 13 bytes are written, up to index 512 | nothing is written past the buffer | not executed | Sections.RecordAsWritten, Sections.RecordOverrunAsWritten | Sections.EncodeRecord |
| lib/src/celest_dns.c:383-385 | `dns_records->rd_length` and `dns_records->r_data` are the first record's | two one-byte records with data 7 and 9: the second is written with 7 | `dns_records[i]` | not executed | Sections.RecordAsWritten, Sections.RecordDataAsWritten | Sections.EncodeRecord |
| lib/src/celest_dns.c:409 | the 32-bit reader is declared to return `u_int16_t` | TTL 65537, `00 01 00 01`, reads as 1 | a `u_int32_t` result | not executed | Wire.BigEndianCharsToU32AsWritten, Wire.U32TruncatedAsWritten | Wire.U32RoundTrip |
| lib/src/celest_dns.c:471 | `domain_pointer_end_index` is overwritten at every pointer | the name at 9 of `03 c o m 00 01 a C0 00 C0 05`: end index 8, not 10 | the end of the first pointer | not executed | Names.EndIndexAsWritten, Names.ChainedPointerEndAsWritten | Names.RetrieveDomain |
| lib/src/celest_dns.c:429-439 | a pointer is followed wherever it leads | `C0 0C` at offset 12 leads to itself: the loop never ends | decoding stops with an error | not executed | Names.StepAsWritten, Names.SelfPointerLoops | Names.CalcDomainSize |
| lib/src/celest_dns.c:112-113 | a failing authority or additional section frees `answers` | an authority record with a name over 253 characters: the authorities' array stays allocated, the answers are lost | free the failing section | not executed | Message.OutcomeAsWritten, Message.OutcomeAsWrittenLosesAnswers | Message.ParseDnsMessage |
