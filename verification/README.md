# gyip and its DNS wire codec

GYIP answers DNS questions whose names spell out the addresses to answer with, and rests on the DNS package it
vendors. This project models both and proves what they promise.

**The wire codec** (`Bytes`, `Names`, `PackNames`, `UnpackNames`, `Compression`, `EscapedNames`, `Misread`,
`PrintedNames`, `Records`, `UnpackRecords`, `MessageTypes`, `Messages`, `PackErrors`, `UnpackMessages`, `DeepChains`,
`WireLayout`). Packing a name
unescapes it in place in a scratch array, writes its labels, records every suffix in the compression map and ends in a
pointer where a suffix was seen. `Spells` says what octets at an offset mean, without reference to packer or unpacker;
`Sound` says that every entry of the map points to octets that spell its key. From these follow that compression
preserves meaning, that each record and each whole message reads back, and the exact condition under which it does:
the unpacker follows ten pointers, and `Depth` counts how many a packed name needs. `EscapedNames` does the same for
names with escapes, whose keys may spell something else: `SoundFor` says what each key was recorded for. `MsgFate` says
what becomes of messages that are not packed, and `PackErrors` what they are; `WireLayout` reads the formats octet by
octet.

**The predicted length** (`Lengths`, `LengthsExact`, `LengthsPlain`): how far the length that is counted without
packing is from the packed one, and when it is equal.

**Label operations** (`LabelOps`): the second parser of names, which only looks for dots, against the one that packs.

**GYIP's pipeline** (`Scanner`, `ScannerGreedy`, `AddressText`, `Responses`, `FrameFailures`, `Replies`,
`Commands`): the right-to-left scanner is shown to be a greedy reading by labels, on every string; it is said exactly
when a question makes it fail; what each command answers; and asking for a list of addresses is followed through the
reply, its wire form and back.

**Smaller cores**: duplicate suppression as a state machine over its critical sections (`Singleflight`), transaction
signatures (`Tsig`, `TsigVerify`, `LowerNames`, `Hex`), the NSEC type bitmap (`Nsec`, `NsecRoundTrip`), character
strings (`Txt`), duplicate removal (`Dedup`), NSEC3 intervals (`Nsec3`) and dispatch by longest suffix (`Mux`).

Strings are sequences of octets, integers carry Go's widths, and errors are values. The source's loops are loops here:
each method is tied to a specification function, and the theorems are about these functions.

## Where the code departs from what it seems to promise

The model follows the code. These departures are part of what is proved, by the lemmas and methods named.

- The unpacker follows 10 pointers, but the packer makes a chain longer with every name that extends the one before:
  `DeepChainLost` is a message that packs and cannot be unpacked. `MessageRoundTrip` gives the exact condition and
  `FewLabelsReach` a simple sufficient one.
- The keys of the compression map are taken from a scratch array with stale octets at its end, or from the raw name at
  a place that is off by the escapes before it. So names with escapes can be changed by compression, even ones without
  (`QuestionMisread`, `EarlyKeyMisread`). `KeySpells` says when a key spells its name, and `InTurnReads` exactly when
  a sequence of names survives.
- Behind a known key an empty or overlong label is not looked at: with compression and escapes such a name is packed
  without error (`OffenderPasses`). `RefusedExactly` says when; without escapes it cannot happen (`FirstOffence`).
- Names come back the way UnpackDomainName writes them, which is not always the way they were written
  (`PrintedSame`, `MessageComesBack`).
- The fifth bit of an opcode lands on QR (msg.go:714), so only 4-bit opcodes read back (`BitsBack`). A message with TC
  set, or with no section at all, packs but is refused by Unpack (`MessageRoundTrip`).
- `compressedLen` counts the root name as two octets and looks up no question name, so it is too long by exactly what
  `MsgExcess` says (`LenExact`).
- `packDomainName` returns an end offset of `len(msg)+1` without an error when only the final zero does not fit
  (`Records.PackDomainName`).
- The label functions take an escaped final dot for a separator; `IsDomainName` does not (`LabelCountsAgree`).
- `parseIPs` slices below the start on "a" and never returns on ".a" (`ScanAccidents`); `ScanIsGreedy` and `ScanFails`
  say exactly when, for every string. So `frameResponse` panics on a question for the served domain itself and on
  one-character names within it (`FrameFails`), but no request from the wire keeps it busy for ever (`RequestReturns`).
- `SetReply` keeps only the first question of a request (`HandleQuestions`).
- When there are additional records but no TSIG record among them, `stripTsig` reports nothing and returns an empty
  record; `TsigVerify` then reports a wrong algorithm (`UnfoundIs`).
- `TsigGenerate` hashes the TTL, error and other data of the stub, but emits a record without them; and it hashes the
  key's name in the lower case of its text, where a capital written as `\DDD` escape stays. The two sides agree
  exactly when there is none of this (`MacInputsAgree`, `CodedLetter`), and otherwise a signed message is refused under
  some keyed hash (`DisagreedRefused`).
- `tsigBuffer` ignores the error when the other data does not fit in its scratch buffer, and hashes the whole buffer
  (`PackTsigWire`).
- `packTxt` of no strings writes a zero octet that it does not count (`PackTxt`).
- `packDataNsec` or-s into what is in the buffer (`PackDataNsec`).
- `Cover` does not exclude the hash of the owner itself, except for the last record of a chain (`OwnHashCovered`).
- `ServeMux` lower-cases the name asked for, but not the patterns: a pattern with a capital never matches
  (`CapitalNever`). For type DS it is not the parent that answers, as the documentation says, but the handler of the
  root, and without one that of the outermost zone (`LeastSpecific`, `DsParent`, `DsGrandparent`).

## Model

| member | source | states |
|---|---|---|
| PackNames.PackDomainName | Godeps/_workspace/src/github.com/miekg/dns/msg.go:183-316 | unescaping in place, labels, suffix map and pointers, for every name, with escapes or without, beside a map or not: what is written, and the map afterwards, are those of packing its labels under the keys the scratch array holds; refused with ErrRdata are exactly the names with an empty or overlong label before which no key is known; the label count, also of names without a final dot; nothing below the offset changes, and without a map nothing behind; room for the characters is enough for any name, and for a valid one room for the uncompressed form, whose final zero needs none |
| PackNames.ShiftLeft | Godeps/_workspace/src/github.com/miekg/dns/msg.go:224-227 | removing an escape moves the rest of the scratch array left and keeps what is in front |
| PackNames.EmitLabel | Godeps/_workspace/src/github.com/miekg/dns/msg.go:244-264 | one label is written behind its length octet exactly when it fits |
| PackNames.KeysAreJoins | Godeps/_workspace/src/github.com/miekg/dns/msg.go:266-301 | the keys of a name without escapes are its suffixes |
| Names.ParsePresent | Godeps/_workspace/src/github.com/miekg/dns/msg.go:352-381 | parsing the escaped form of any valid labels gives these labels, for all 256 values of an octet |
| Names.PlainReads | Godeps/_workspace/src/github.com/miekg/dns/msg.go:219-262 | an unescaped dot ends a label, which is refused if it is empty and not the first or has 64 octets or more; any other octet but the backslash stands for itself |
| Names.EscapesRead | Godeps/_workspace/src/github.com/miekg/dns/msg.go:219-234 | a backslash and three digits stand for the octet 100x + 10y + z in 8-bit arithmetic, a backslash and anything else for that |
| Names.NameStringLabels | Godeps/_workspace/src/github.com/miekg/dns/msg.go:333-420 | the string printed for any valid labels is a valid name that stands for exactly those labels |
| UnpackNames.UnpackDomainName | Godeps/_workspace/src/github.com/miekg/dns/msg.go:333-420 | total on every buffer and offset; the result, end offset and error are those of following labels and at most 10 pointers; a finished name is refused exactly when its expanded wire form exceeds 255 octets; the end offset lies within the message; in the name the dot and ( ) ; @ " \ and the space stand behind a backslash, the other octets from 33 to 126 as they are, and the rest as a backslash and the three digits of the octet |
| UnpackNames.WalkInBounds | Godeps/_workspace/src/github.com/miekg/dns/msg.go:333-420 | whatever the octets, labels read are valid (1 to 63 octets) and the end offset is within the message |
| Compression.PackSound | Godeps/_workspace/src/github.com/miekg/dns/msg.go:266-315 | for names without escapes, and any names when there is no map: packing one name keeps the invariant that every map entry points to octets spelling exactly its key through backward pointers; the octets written spell the name through a chain no longer than its labels |
| Compression.UnpackPacked | Godeps/_workspace/src/github.com/miekg/dns/msg.go:183-420 | for the same names: a packed name reads back, in any message that goes on from there, exactly when its chain has at most 10 pointers and its wire form at most 255 octets; otherwise which error |
| Compression.PackAllReads | Godeps/_workspace/src/github.com/miekg/dns/msg.go:183-420 | compression preserves meaning (section 4.1.4 of RFC 1035): for any sequence of escape-free names, and of any names when there is no map, packed into one message the map stays sound and each name reads back |
| Compression.RepackIdentity | Godeps/_workspace/src/github.com/miekg/dns/msg.go:217-264 | wire to presentation to wire is the identity: for any pointer-free name of at most 255 octets with arbitrary label octets, packing what was unpacked rewrites exactly the octets read |
| EscapedNames.KeySpells | Godeps/_workspace/src/github.com/miekg/dns/msg.go:219-301 | the key under which a suffix of any valid name is recorded spells that suffix if and only if there is no escape before the place the key is taken from: when compressing up to the end of its first label, otherwise up to its beginning |
| EscapedNames.NamedReads | Godeps/_workspace/src/github.com/miekg/dns/msg.go:183-420 | whatever its escapes, a packed name reads as its labels up to the first known key and from there on as the name that key was recorded for; the map keeps pointing to what its keys were recorded for |
| EscapedNames.ReadsAsPacked | Godeps/_workspace/src/github.com/miekg/dns/msg.go:183-420 | a name reads back as packed if and only if the key at which it is cut was recorded for the very suffix left out, and the chain has at most 10 pointers |
| EscapedNames.InTurnReads | Godeps/_workspace/src/github.com/miekg/dns/msg.go:183-420 | a sequence of valid names, with escapes or without, reads back from one message if and only if that holds of each |
| Misread.EarlyKeyMisread | Godeps/_workspace/src/github.com/miekg/dns/msg.go:219-301 | behind `\097b.c.` packed without compression, as an SRV target is, the escape-free name 7b.c. is read as c. |
| Misread.CollisionMisread | Godeps/_workspace/src/github.com/miekg/dns/msg.go:219-301 | behind `\a.b.` the name `a\.b.` is cut at a key of the same text, and is read as a.b. |
| Misread.QuestionMisread | Godeps/_workspace/src/github.com/miekg/dns/msg.go:688-860 | a message of two questions that packs and unpacks without error, and whose second question comes back as another name |
| DeepChains.DeepChainLost | Godeps/_workspace/src/github.com/miekg/dns/msg.go:395-405 | a concrete message of twelve nested names that packs without error and cannot be unpacked: the bound on pointers is needed |
| Bytes.GetU16Put | Godeps/_workspace/src/github.com/miekg/dns/msg_helpers.go:184-200 | a 16-bit field reads back as it was written |
| Bytes.GetU32Put | Godeps/_workspace/src/github.com/miekg/dns/msg_helpers.go:202-215 | a 32-bit field reads back as it was written |
| Bytes.BigEndian | Godeps/_workspace/src/github.com/miekg/dns/msg_helpers.go:184-216 | 16 and 32 bit numbers are written most significant octet first |
| Records.PackUint16 | Godeps/_workspace/src/github.com/miekg/dns/msg_helpers.go:194-200 | writes the two octets in place and nothing else, or fails exactly when there is no room |
| Records.PackUint32 | Godeps/_workspace/src/github.com/miekg/dns/msg_helpers.go:209-215 | writes the four octets in place and nothing else, or fails exactly when there is no room |
| Records.PackDataA | Godeps/_workspace/src/github.com/miekg/dns/msg_helpers.go:27-42 | four octets are written as they are, and of sixteen the last four if the address is IPv4-mapped, else four octets are skipped; other lengths and a short buffer are refused; an absent address is no octets |
| Records.PackDataAAAA | Godeps/_workspace/src/github.com/miekg/dns/msg_helpers.go:53-68 | writes the 16 octets; refuses other lengths and a short buffer; an absent address is no octets |
| Records.PackHeader | Godeps/_workspace/src/github.com/miekg/dns/msg_helpers.go:104-130 | owner name, type, class, TTL and the Rdlength held so far, at exactly the reserved places; for any record with room for its characters, the end offset and map or the error of the owner name |
| Records.PackDomainName | Godeps/_workspace/src/github.com/miekg/dns/msg.go:178-181 | the octets and the map for every name that fits and has room; when only the final zero has none, the end offset len(msg)+1 without an error; for any name with room for its characters, the end offset, octets and map, or ErrFqdn without a final dot and ErrRdata when it is refused |
| Records.RR.Pack | Godeps/_workspace/src/github.com/miekg/dns/zmsg.go:8-20 | packing an A record, and likewise AAAA, NS, CNAME, PTR, MX and SRV: header and rdata as specified; Rdlength of the record becomes the true length of the rdata; for any names and addresses, with room for the characters, the end offset and map, or the error of what offends first |
| WireLayout.RecordFields | Godeps/_workspace/src/github.com/miekg/dns/msg_helpers.go:104-130 | a packed record is its name, type, class, TTL, the length of its rdata and the rdata |
| WireLayout.RdataFields | Godeps/_workspace/src/github.com/miekg/dns/zmsg.go:1184-1210 | rdata of each type: an address, a name, preference and name of MX, priority, weight, port and uncompressed target of SRV |
| WireLayout.PointerOctets | Godeps/_workspace/src/github.com/miekg/dns/msg.go:307-312 | a pointer is two high bits and a 14-bit offset |
| WireLayout.RecordedWhen | Godeps/_workspace/src/github.com/miekg/dns/msg.go:268-301 | a suffix is recorded if it is new and its offset fits a pointer; no other entry changes |
| Records.RawSetRdlength | Godeps/_workspace/src/github.com/miekg/dns/rawmsg.go:9-49 | succeeds exactly when the name can be walked over and the length fits; then writes the two octets of the length and changes nothing else |
| Records.SkipPacked | Godeps/_workspace/src/github.com/miekg/dns/rawmsg.go:9-40 | walking over a packed name, compressed or not, ends right behind it |
| Records.PackRR | Godeps/_workspace/src/github.com/miekg/dns/msg.go:575-589 | the record with the true rdata length patched in, without error, wherever there is room for it uncompressed; for any names and addresses, with room for the characters, the end offset and map, or the error; a record without an owner and with a type from 256 on, or of more than 65536 characters, may be refused with ErrRdata besides |
| Records.WalkFinds | Godeps/_workspace/src/github.com/miekg/dns/rawmsg.go:11-49 | for every other record, whatever its owner, the length field is found again and its value fits |
| UnpackRecords.DataRoundTrip | Godeps/_workspace/src/github.com/miekg/dns/zmsg.go:1474-1490 | the unpack functions for A, AAAA, NS, CNAME, PTR, MX and SRV give back the rdata that was packed, names in printed form, exactly when its name chain has at most 10 pointers, else ErrPointers; the map stays sound |
| UnpackRecords.RecRoundTrip | Godeps/_workspace/src/github.com/miekg/dns/msg.go:592-608 | UnpackRR gives back owner, type, class, TTL, rdata, names in printed form, and the Rdlength of the packed record exactly when both chains have at most 10 pointers, and ErrPointers otherwise |
| Messages.PackWireHeader | Godeps/_workspace/src/github.com/miekg/dns/msg.go:1107-1130 | the 12 header octets, or ErrOverflow exactly when they do not fit |
| WireLayout.FlagBits | Godeps/_workspace/src/github.com/miekg/dns/msg.go:712-741 | the bits of the flag word: QR, opcode, AA, TC, RD, RA, Z, AD, CD, rcode (section 4.1.1 of RFC 1035 and section 6.1 of RFC 2535) |
| WireLayout.HeaderFields | Godeps/_workspace/src/github.com/miekg/dns/msg.go:1107-1130 | id, flags, and the counts of questions, answers, authorities and additionals, in this order |
| WireLayout.QuestionFields | Godeps/_workspace/src/github.com/miekg/dns/msg.go:1065-1079 | a packed question is its name, its type and its class |
| Messages.PackQuestionInto | Godeps/_workspace/src/github.com/miekg/dns/msg.go:1065-1079 | name, type and class of a question as specified; for any name, with room for its characters, the end offset and map, or the error |
| Messages.PackSection | Godeps/_workspace/src/github.com/miekg/dns/msg.go:766-786 | the loop over a section packs its records one behind the other, with one shared map; for any records, with room for their characters, the end offset and map, or the first error |
| Messages.PackBuffer | Godeps/_workspace/src/github.com/miekg/dns/msg.go:688-789 | every message whose names are valid and at most 255 octets long, with escapes or without, is packed without error, into the specified octets, whatever buffer is handed in; any other message either gets the octets its fate says, or no octets and the error of what offends first; rcodes out of range are refused |
| PackErrors.FirstOffence | Godeps/_workspace/src/github.com/miekg/dns/msg.go:688-789 | uncompressed, or with names without escapes, a message is packed if and only if every name is empty or ends in a dot and has no empty or overlong label, and every address is absent or has a size of its type; else the first of them, in the order question names, then owner and rdata of each record, decides: ErrFqdn, ErrRdata or ErrOverflow |
| PackErrors.PackedIsClosed | Godeps/_workspace/src/github.com/miekg/dns/msg.go:688-789 | in any message that is packed every name is empty or ends in a dot, and every address is absent or has a size of its type |
| PackErrors.TidyParses | Godeps/_workspace/src/github.com/miekg/dns/msg.go:237-262 | a name without escapes that ends in a dot has no empty or overlong label if and only if there are no two dots in a row and no 64 characters in a row without one |
| PackErrors.RefusedExactly | Godeps/_workspace/src/github.com/miekg/dns/msg.go:219-301 | an empty or overlong label is refused if and only if not, with compression, the key of one of the labels before it is known |
| PackErrors.OffenderPasses | Godeps/_workspace/src/github.com/miekg/dns/msg.go:219-301 | behind the question `\a.b.` the question x.a.b.. with its empty label is packed without error |
| Messages.PackedWithinLen | Godeps/_workspace/src/github.com/miekg/dns/msg.go:751-788 | the buffer always suffices: with compression on or off the message is no longer than compressedLen(dns, false) |
| UnpackMessages.BitsBack | Godeps/_workspace/src/github.com/miekg/dns/msg.go:803-816 | the flag word gives back all flags and the rcode, and the opcode if and only if it has four bits |
| UnpackMessages.HeaderBack | Godeps/_workspace/src/github.com/miekg/dns/msg.go:1132-1159 | the header that was packed is the header that is unpacked |
| UnpackMessages.UnpackRRSlice | Godeps/_workspace/src/github.com/miekg/dns/msg.go:612-634 | the loop, with its early stop when no octets are taken, gives the specified records, end offset and error on any input |
| UnpackMessages.UnpackQuestions | Godeps/_workspace/src/github.com/miekg/dns/msg.go:826-840 | the question loop, with the count cut short when a question takes no octets, on any input |
| UnpackMessages.Unpack | Godeps/_workspace/src/github.com/miekg/dns/msg.go:792-860 | total on any octets; message and error are those of the specified reading, whose round trip is MessageRoundTrip |
| WireLayout.MessageRead | Godeps/_workspace/src/github.com/miekg/dns/msg.go:792-860 | on any octets: which error for fewer than 13; no more questions and records than counted; a section that cannot be read is empty, as are those behind it; ErrTruncated replaces every error behind the questions, and none, when TC is set and the message is read to its end |
| WireLayout.RecordRead | Godeps/_workspace/src/github.com/miekg/dns/msg.go:592-607 | on any octets: a record read without error has the name, type, class and TTL that stand there, rdata of its type, and ends where its length says |
| WireLayout.QuestionRead | Godeps/_workspace/src/github.com/miekg/dns/msg.go:1081-1105 | on any octets: a question may end behind its name or type, with zero for what is missing |
| WireLayout.ShortRdata | Godeps/_workspace/src/github.com/miekg/dns/zmsg.go:2343-2361 | on any octets: rdata of no octets is empty, and MX and likewise SRV rdata may end behind a number |
| WireLayout.FlagsRead | Godeps/_workspace/src/github.com/miekg/dns/msg.go:801-811 | the bits the header fields are read from |
| UnpackMessages.PartsBack | Godeps/_workspace/src/github.com/miekg/dns/msg.go:820-860 | the four sections read back behind any header and in front of any octets, exactly when no chain has more than 10 pointers |
| UnpackMessages.MessageRoundTrip | Godeps/_workspace/src/github.com/miekg/dns/msg.go:688-860 | Unpack(Pack(m)) succeeds if and only if m is not empty, TC is clear and no chain is longer than 10 pointers, else fails with ErrPointers; then header, questions, owners, TTLs, rdata and true Rdlengths come back, compressed or not, names in the printed form that MessageComesBack is about, and the header if and only if the opcode has four bits |
| PrintedNames.PrintedSame | Godeps/_workspace/src/github.com/miekg/dns/msg.go:352-381 | the name printed for a valid name has the same labels and is printed as it is; it is the name itself if and only if every octet is written the way UnpackDomainName writes it |
| PrintedNames.ClearNames | Godeps/_workspace/src/github.com/miekg/dns/msg.go:352-381 | for a name without escapes that means its octets are printable and not special |
| PrintedNames.MessageComesBack | Godeps/_workspace/src/github.com/miekg/dns/msg.go:688-860 | a message that unpacks has the questions and records of the one packed if and only if its names are written that way and its IPv4 addresses in four octets |
| UnpackMessages.FewLabelsReach | Godeps/_workspace/src/github.com/miekg/dns/msg.go:395-405 | names of at most 10 labels are always within reach, whatever is packed before them |
| Lengths.CompressionLenHelper | Godeps/_workspace/src/github.com/miekg/dns/msg.go:982-991 | the map afterwards knows exactly all suffixes of the name besides what it knew |
| Lengths.CompressionLenSearch | Godeps/_workspace/src/github.com/miekg/dns/msg.go:995-1011 | finds the longest suffix that was seen, or none |
| Lengths.CompressionLenHelperType | Godeps/_workspace/src/github.com/miekg/dns/zcompress.go:6-72 | the rdata names that feed the map: NS, CNAME, PTR, MX and SRV |
| Lengths.CompressionLenSearchType | Godeps/_workspace/src/github.com/miekg/dns/zcompress.go:74-119 | the rdata names that are looked up: all of those but SRV |
| Lengths.CompressedLen | Godeps/_workspace/src/github.com/miekg/dns/msg.go:913-979 | the loops compute the specified count, which LenExact ties to the packed size |
| LengthsExact.NameExact | Godeps/_workspace/src/github.com/miekg/dns/msg.go:982-1011 | per name: suffixes predicted are the keys the packer records, and the count is exact but for the root |
| LengthsExact.LenExact | Godeps/_workspace/src/github.com/miekg/dns/msg.go:913-979 | below 16384 octets the predicted compressed length exceeds the packed length by exactly one octet per root name and what compression saves on questions; the predicted suffixes are exactly the keys of the packer's map |
| LengthsExact.LenExactOneQuestion | Godeps/_workspace/src/github.com/miekg/dns/msg.go:913-1011 | with at most one question the fast length is never short, and exact if and only if no name is the root |
| LengthsPlain.PlainExact | Godeps/_workspace/src/github.com/miekg/dns/msg.go:887-952 | without compression the predicted length is the packed one and, for every name, its characters that are no octets on the wire, and one for the root; it is exact if and only if no name has an escape or is the root |
| LabelOps.NextLabel | Godeps/_workspace/src/github.com/miekg/dns/labels.go:136-153 | the start of the next label, or the end with the offset the code returns there, on any string |
| LabelOps.Split | Godeps/_workspace/src/github.com/miekg/dns/labels.go:115-130 | all label starts; nil for the root |
| LabelOps.CountLabel | Godeps/_workspace/src/github.com/miekg/dns/labels.go:96-109 | the number of label starts; 0 for the root |
| LabelOps.SplitDomainName | Godeps/_workspace/src/github.com/miekg/dns/labels.go:14-43 | as many labels as there are label starts, and joined with dots they restore the name without its final dot |
| LabelOps.IsDomainName | Godeps/_workspace/src/github.com/miekg/dns/defaults.go:165-168 | the label count is that of the unescaping parser, after a final dot is added where missing; equal to that of CountLabel, Split and SplitDomainName if and only if the last dot separates |
| LabelOps.LabelCountsAgree | Godeps/_workspace/src/github.com/miekg/dns/labels.go:14-153 | the two label parsers agree on a name, escapes or not, if and only if its final dot is not escaped |
| LabelOps.CommonLongest | Godeps/_workspace/src/github.com/miekg/dns/labels.go:54-92 | the number compared is the largest number of labels the two names share at their ends |
| LabelOps.CompareDomainName | Godeps/_workspace/src/github.com/miekg/dns/labels.go:54-92 | returns the length of the longest common label suffix under ASCII case folding |
| LabelOps.IsSubDomain | Godeps/_workspace/src/github.com/miekg/dns/defaults.go:172-175 | true exactly when the labels of the parent are the last labels of the child; never for the empty parent |
| LabelOps.SubDomainIsSuffix | Godeps/_workspace/src/github.com/miekg/dns/defaults.go:172-175 | sharing as many labels as the parent has is the same as having its labels as a suffix |
| LabelOps.SuffixPreorder | Godeps/_workspace/src/github.com/miekg/dns/defaults.go:172-175 | reflexive, transitive, and the root is above every name |
| Scanner.Reverse | gyip.go:39-43 | reverses the slice in place |
| Scanner.ParseIPs | gyip.go:56-105 | the two-index loop with its decreasing right and left index, on any string: the addresses found, or, exactly where the code slices below 0 or stops making progress, that outcome |
| ScannerGreedy.ScanIsGreedy | gyip.go:56-105 | on every string, empty labels included, the scanner is the greedy reading from the right of the pieces between the dots; it slices below the start or never ends exactly when the reading is left with pieces of two given kinds |
| ScannerGreedy.ScanFails | gyip.go:56-105 | both failures, if and only if; the loop never ends only on text that starts with a dot, and slices below the start only on text that starts with a piece of at most one character or with a colon in it |
| ScannerGreedy.AddressesFound | gyip.go:56-105 | addresses at the end are all found in order, whatever labels stand in front |
| ScannerGreedy.ParseJoined | gyip.go:56-105 | parseIPs(join(ips, ".")) = ips for every list of dotted quads and eight-group addresses |
| ScannerGreedy.PrefixIgnored | gyip.go:56-105 | a prefix of labels without an address changes nothing, if and only if its first label does not make the loop slice below 0 |
| ScannerGreedy.ScanAccidents | gyip.go:75-84 | the shortest inputs on which the code slices out of range ("a") or never returns (".a" and "..") |
| AddressText.TextReads | gyip.go:76-95 | every 16-octet address is read back from its text |
| AddressText.GroupsParse | gyip.go:56-107 | eight groups of one to four hexadecimal digits in either case are the address with these eight numbers |
| AddressText.QuadParses | gyip.go:56-107 | four decimal numbers up to 255 without leading zeros are the mapped address with these octets, in this order |
| AddressText.ParseTexts | gyip.go:56-105 | any list of addresses, written out and joined with dots, is parsed to itself |
| Responses.FrameResponse | gyip.go:109-187 | the records, a panic or no return, as specified from question, domain and command; every record is a new object |
| FrameFailures.FrameFails | gyip.go:109-160 | frameResponse panics if and only if the question is for the domain itself, or for text within it on which the scanner slices below the start; it never returns if and only if the scanner never ends |
| FrameFailures.UnpackedNameReturns | gyip.go:109-160 | for every name that UnpackDomainName can return it does not go on for ever |
| FrameFailures.RequestReturns | gyip.go:236-258 | whatever octets a request consists of, answering it does not go on for ever |
| Responses.RespondToQuestion | gyip.go:195-233 | the first served domain the name ends in, and if there is none the empty one, decides the records appended |
| Responses.CurrentDomainIs | gyip.go:198-205 | the domain chosen is the first that the name ends in, or none |
| Responses.HandleQuestions | gyip.go:236-258 | reply header (id and RD of the request, QR, AA, NXDOMAIN if and only if there is no answer), the first question only, and its records |
| Replies.FrameAddresses | gyip.go:109-187 | a question join(ips, ".") behind labels that mean nothing and in front of the domain yields exactly those addresses left to right with TTL 43200 |
| Commands.EchoAnswer | gyip.go:129-131 | echo and reflect, in any case, answer with the address of who asks and TTL 0 |
| Commands.RoundRobinAnswer | command/roundrobin.go:15-23 | rr behind addresses answers with the one drawn at random and TTL 10; a lone address has TTL 43200 |
| Commands.FailAnswer | command/fail.go:16-29 | f and a number p of one or two digits behind addresses: a draw from 0 to p, if p is not zero, has no answer, any other draw is answered with all addresses and TTL 43200 |
| Commands.AnswersEach | gyip.go:159-187 | every address is answered by itself: IPv4 addresses, mapped ones included, with an A record or a mapped AAAA record, others only with an AAAA record |
| Replies.ReplyReach | Godeps/_workspace/src/github.com/miekg/dns/msg.go:266-315 | in an address reply every answer points to the question: at most one pointer |
| Replies.ReplyReads | Godeps/_workspace/src/github.com/miekg/dns/msg.go:688-860 | the packed reply unpacks to the same addresses in the same order, with header and question |
| Replies.QuestionGood | gyip.go:109-187 | every such question of fewer than 255 characters is a name the codec accepts |
| Replies.AskForAddresses | gyip.go:236-258 | end to end: whatever domains are served before the one that the name is the first to end in, handleQuestions, PackBuffer and Unpack together give the asker exactly the addresses asked for, in order: for a dotted quad its four octets, for the text of a 16-octet address these octets, with class 1 and TTL 43200; the reply header; and the question itself if and only if its name is written as names are printed |
| Singleflight.StepKeeps | Godeps/_workspace/src/github.com/miekg/dns/singleinflight.go:33-57 | every step of every caller keeps the protocol invariant |
| Singleflight.RunKeeps | Godeps/_workspace/src/github.com/miekg/dns/singleinflight.go:33-57 | the invariant holds after any interleaving of any number of callers |
| Singleflight.OneInFlight | Godeps/_workspace/src/github.com/miekg/dns/singleinflight.go:33-57 | at most one execution per key is in flight, and its call is the one in the map |
| Singleflight.OnlyLeaderDeletes | Godeps/_workspace/src/github.com/miekg/dns/singleinflight.go:52-54 | a call leaves the map only by the deletion of its own leader, after it is done |
| Singleflight.SameResult | Godeps/_workspace/src/github.com/miekg/dns/singleinflight.go:33-57 | all callers of one call return the same result, and report it shared if and only if someone joined |
| Singleflight.FinishedStays | Godeps/_workspace/src/github.com/miekg/dns/singleinflight.go:33-57 | what a caller returned never changes, and no one joins a call whose leader has returned |
| Singleflight.NeverStuck | Godeps/_workspace/src/github.com/miekg/dns/singleinflight.go:33-57 | a caller that has not returned, or the leader it waits for, can take a step that brings it nearer to its return |
| Singleflight.NeverFurther | Godeps/_workspace/src/github.com/miekg/dns/singleinflight.go:33-57 | no step of any caller takes a caller further from its return |
| Singleflight.AllReturn | Godeps/_workspace/src/github.com/miekg/dns/singleinflight.go:33-57 | nobody waits for ever: after any interleaving, at most four steps of a caller and its leader see it through |
| Singleflight.OwnMessage | Godeps/_workspace/src/github.com/miekg/dns/client.go:108-131 | Exchange never hands one message object to two callers |
| Tsig.GetU48Put | Godeps/_workspace/src/github.com/miekg/dns/msg_helpers.go:217-240 | a 48-bit time reads back as its low 48 bits |
| Tsig.PackUint48 | Godeps/_workspace/src/github.com/miekg/dns/msg_helpers.go:228-240 | six octets in place, or ErrOverflow exactly when they do not fit |
| Tsig.PackStringHex | Godeps/_workspace/src/github.com/miekg/dns/msg_helpers.go:357-368 | the decoded octets in place, or an error exactly when there is no room or no valid text |
| Hex.HexRoundTrip | Godeps/_workspace/src/github.com/miekg/dns/msg_helpers.go:345-368 | hexadecimal text of any octets decodes to them |
| WireLayout.HexPairs | Godeps/_workspace/src/github.com/miekg/dns/msg_helpers.go:345-370 | two digits stand for an octet, the high half first |
| Tsig.PackTsigWire | Godeps/_workspace/src/github.com/miekg/dns/tsig.go:317-359 | the TSIG variables of section 3.4.2 of RFC 2845, names in lower case or missing; the whole scratch buffer when the other data does not fit or is not hexadecimal |
| Tsig.PackTimerWire | Godeps/_workspace/src/github.com/miekg/dns/tsig.go:373-383 | time signed and fudge only |
| Tsig.PackMacWire | Godeps/_workspace/src/github.com/miekg/dns/tsig.go:361-371 | size and octets of the request MAC; none of the latter when it is not hexadecimal |
| Tsig.TsigBuffer | Godeps/_workspace/src/github.com/miekg/dns/tsig.go:202-249 | the octets to sign, after the open fields of the stub are filled in: first the size and the octets of the request MAC, if there is one (of a MAC of one octet only the size), then the message, then the TSIG variables, or with timersOnly the eight octets of time and fudge |
| Tsig.VariablesRead | Godeps/_workspace/src/github.com/miekg/dns/tsig.go:220-239 | the TSIG variables field by field: name, class ANY, TTL, algorithm, time, fudge, error, length and octets of the other data (section 3.4.2 of RFC 2845) |
| Tsig.PackTsigRdata | Godeps/_workspace/src/github.com/miekg/dns/zmsg.go:1348-1392 | the rdata of the record, field by field |
| WireLayout.TsigFields | Godeps/_workspace/src/github.com/miekg/dns/zmsg.go:1348-1392 | algorithm, time, fudge, size and octets of the MAC, original id, error, length and octets of the other data (section 2.3 of RFC 2845) |
| Tsig.PackTsig | Godeps/_workspace/src/github.com/miekg/dns/msg.go:575-589 | the whole TSIG record with its length patched in |
| TsigVerify.TsigReads | Godeps/_workspace/src/github.com/miekg/dns/zmsg.go:3327-3395 | unpackTSIG gives back the record that was packed at the end of any message |
| TsigVerify.StripTsig | Godeps/_workspace/src/github.com/miekg/dns/tsig.go:252-308 | offset, record, error and the count patched in place, on any octets |
| TsigVerify.StripRefuses | Godeps/_workspace/src/github.com/miekg/dns/tsig.go:252-270 | ErrNoSig for a message that counts no additional records, else ErrAuth when its rcode is NOTAUTH |
| TsigVerify.StripInBounds | Godeps/_workspace/src/github.com/miekg/dns/tsig.go:252-308 | the offset of the record lies within the message, whatever its octets |
| TsigVerify.Emit | Godeps/_workspace/src/github.com/miekg/dns/tsig.go:128-146 | packs the record, appends it and writes the count into the message |
| TsigVerify.TsigGenerate | Godeps/_workspace/src/github.com/miekg/dns/tsig.go:94-147 | the signed octets and the MAC, for any keyed hash; ErrKeyAlg exactly for unknown algorithms |
| TsigVerify.TsigVerify | Godeps/_workspace/src/github.com/miekg/dns/tsig.go:152-199 | on any octets the error is Verdict: that of stripping, or of the checks on the record found and the rebuilt MAC input, whatever its fields |
| TsigVerify.UnfoundIs | Godeps/_workspace/src/github.com/miekg/dns/tsig.go:252-308 | a message without a TSIG record is treated as one with an empty record, whose algorithm is unknown |
| TsigVerify.FoundIs | Godeps/_workspace/src/github.com/miekg/dns/tsig.go:252-308 | a record that is found has names that fit, or none, and hexadecimal fields, so that the MAC input is defined |
| TsigVerify.StripEmitted | Godeps/_workspace/src/github.com/miekg/dns/tsig.go:252-308 | stripping what was emitted gives the record and the original packed message with Arcount restored, but ErrAuth when the rcode is NOTAUTH, and ErrPointers when a name cannot be reached |
| TsigVerify.MacInputsAgree | Godeps/_workspace/src/github.com/miekg/dns/tsig.go:94-249 | signer and verifier hash the same octets if and only if only timers are hashed, or the stub has no TTL, error and other data and no capital of the key name is written as a `\DDD` escape |
| TsigVerify.SignedVerifies | Godeps/_workspace/src/github.com/miekg/dns/tsig.go:94-199 | for any keyed hash, the verdict on what TsigGenerate signed, in every case: rcode NOTAUTH, names out of reach, clock off by more than the fudge, another MAC, or acceptance |
| TsigVerify.AgreedVerifies | Godeps/_workspace/src/github.com/miekg/dns/tsig.go:94-199 | with a stub on which both sides agree, TsigVerify accepts if and only if the rcode is not 9 (NOTAUTH), every name can be reached and the clock is no more than the fudge before or after the time signed |
| TsigVerify.DisagreedRefused | Godeps/_workspace/src/github.com/miekg/dns/tsig.go:94-199 | with any other stub there is a keyed hash under which it refuses |
| LowerNames.LowerFits | Godeps/_workspace/src/github.com/miekg/dns/tsig.go:226-229 | a name in lower case still fits; its labels are those of the name in lower case if and only if no capital is coded |
| LowerNames.PrintedLower | Godeps/_workspace/src/github.com/miekg/dns/tsig.go:226-229 | for the printed form of a name they always are |
| LowerNames.CodedLetter | Godeps/_workspace/src/github.com/miekg/dns/tsig.go:226-229 | `\065.` is the name A., stays itself in lower case, and is printed as A., which becomes a. |
| Nsec.PackDataNsec | Godeps/_workspace/src/github.com/miekg/dns/msg_helpers.go:574-603 | succeeds exactly when the types are in the order of their octets and fit; the bits are or-ed into what is there, so the octets are the bitmap if and only if the old bits are among its own, as in a buffer of zeros; nothing in front changes |
| Nsec.UnpackDataNsec | Godeps/_workspace/src/github.com/miekg/dns/msg_helpers.go:513-572 | types, end offset and error of reading the blocks, on any octets |
| WireLayout.TypeBit | Godeps/_workspace/src/github.com/miekg/dns/msg_helpers.go:513-573 | the first type of an octet is its leftmost bit, 128 |
| NsecRoundTrip.ReadEncoded | Godeps/_workspace/src/github.com/miekg/dns/msg_helpers.go:513-572 | the reader finds exactly the blocks written |
| NsecRoundTrip.TypesAre | Godeps/_workspace/src/github.com/miekg/dns/msg_helpers.go:540-568 | the list read is strictly increasing and holds exactly the types marked |
| NsecRoundTrip.PackedReads | Godeps/_workspace/src/github.com/miekg/dns/msg_helpers.go:513-603 | unpacking what was packed gives the strictly increasing list of the same set, the input itself when it was that |
| NsecRoundTrip.CanonicalUnique | Godeps/_workspace/src/github.com/miekg/dns/msg_helpers.go:574-603 | there is one canonical bitmap for a set of types |
| NsecRoundTrip.RepackReproduces | Godeps/_workspace/src/github.com/miekg/dns/msg_helpers.go:513-603 | repacking gives the octets read if and only if no block ends in a zero octet |
| Txt.QuoteRoundTrip | Godeps/_workspace/src/github.com/miekg/dns/msg.go:443-553 | unescaping undoes escaping for any octets, and 255 octets fit the 1025-octet scratch buffer |
| Txt.PackTxtString | Godeps/_workspace/src/github.com/miekg/dns/msg.go:443-478 | succeeds exactly when the text fits its length octet, the scratch and the buffer; then writes its octets |
| Txt.PackTxt | Godeps/_workspace/src/github.com/miekg/dns/msg.go:422-441 | the strings one behind the other, exactly when all fit; for no strings a zero octet that is not counted; nothing in front changes |
| Txt.UnpackTxtString | Godeps/_workspace/src/github.com/miekg/dns/msg.go:522-553 | the escaped text of the octets, or ErrOverflow exactly when they are not all there; the quote and the backslash stand behind a backslash, the other octets from 32 to 127 as they are, and the rest as a backslash and the three digits of the octet |
| Txt.UnpackTxt | Godeps/_workspace/src/github.com/miekg/dns/msg.go:510-520 | the strings to the end of the message |
| Txt.TxtRepack | Godeps/_workspace/src/github.com/miekg/dns/msg.go:422-553 | packing what was unpacked rewrites the very octets, in a buffer with just the room for them |
| Txt.TextsRead | Godeps/_workspace/src/github.com/miekg/dns/msg.go:510-553 | every list of texts of at most 255 octets, behind any octets, reads as these texts, escaped |
| Txt.PackedTxtReads | Godeps/_workspace/src/github.com/miekg/dns/msg.go:422-553 | strings that were packed read as what they stand for, escaped the one way unpackTxt escapes |
| Dedup.NormalizedString | Godeps/_workspace/src/github.com/miekg/dns/sanitize.go:54-84 | the key: owner in lower case but for escaped letters, and the text without the TTL |
| Dedup.Dedup | Godeps/_workspace/src/github.com/miekg/dns/sanitize.go:7-48 | in place: the first record of each key in the original order, each with the lowest TTL of its key; no other TTL changes |
| Dedup.Compact | Godeps/_workspace/src/github.com/miekg/dns/sanitize.go:33-47 | the second loop moves exactly the first records to the front |
| Dedup.FirstsDone | Godeps/_workspace/src/github.com/miekg/dns/sanitize.go:42-45 | stopping when the map is empty loses no record |
| Dedup.FirstsIdempotent | Godeps/_workspace/src/github.com/miekg/dns/sanitize.go:7-48 | removing duplicates again removes nothing |
| Dedup.FirstsGrow | Godeps/_workspace/src/github.com/miekg/dns/sanitize.go:33-47 | a record stays exactly if none before it has its key, and the order is kept |
| Dedup.LowestIs | Godeps/_workspace/src/github.com/miekg/dns/sanitize.go:20-24 | the TTL of a key is that of one of its records, and none has a lower one |
| Dedup.LowestAlone | Godeps/_workspace/src/github.com/miekg/dns/sanitize.go:7-48 | ... and lowers no TTL |
| Dedup.SharedKey | Godeps/_workspace/src/github.com/miekg/dns/sanitize.go:54-84 | two records share a key if and only if they differ at most in TTL and case of unescaped owner letters |
| Nsec3.Cover | Godeps/_workspace/src/github.com/miekg/dns/nsecx.go:52-79 | in the zone, and the hash lies in the interval, the wrap-around one included |
| Nsec3.Match | Godeps/_workspace/src/github.com/miekg/dns/nsecx.go:82-98 | in the zone, and the hash is that of the owner |
| Nsec3.CoveredOnce | Godeps/_workspace/src/github.com/miekg/dns/nsecx.go:52-79 | in a cyclic chain of distinct sorted hashes every name of the zone is covered by exactly one record, but the owner of the last hash by none |
| Nsec3.MatchedOnce | Godeps/_workspace/src/github.com/miekg/dns/nsecx.go:82-98 | a name is matched by exactly one record if its hash is an owner's, else by none; names outside the zone by none |
| Nsec3.OwnHashCovered | Godeps/_workspace/src/github.com/miekg/dns/nsecx.go:52-79 | a record covers the name it matches, except for the last record of the chain |
| Mux.ServeMux.Handle | Godeps/_workspace/src/github.com/miekg/dns/server.go:170-177 | the pattern, made fully qualified, is mapped to the handler; the empty pattern panics |
| Mux.ServeMux.HandleRemove | Godeps/_workspace/src/github.com/miekg/dns/server.go:185-192 | exactly the pattern is removed; the empty pattern panics |
| Mux.ServeMux.Match | Godeps/_workspace/src/github.com/miekg/dns/server.go:135-167 | the handler of the specified dispatch, for every name and type, DS included |
| Mux.Encloses | Godeps/_workspace/src/github.com/miekg/dns/server.go:135-167 | a pattern encloses a name label by label exactly when it is what stands from some label on |
| Mux.SuffixOfSuffix | Godeps/_workspace/src/github.com/miekg/dns/server.go:135-167 | a suffix cut at an earlier label is below one cut at a later label |
| Mux.MostSpecific | Godeps/_workspace/src/github.com/miekg/dns/server.go:135-167 | but for DS, the handler chosen is that of the most specific enclosing pattern, else the root's, else none |
| Mux.LeastSpecific | Godeps/_workspace/src/github.com/miekg/dns/server.go:135-167 | for DS the root's handler answers if there is one, else that of the least specific enclosing pattern, which every other enclosing pattern lies below; none if and only if no pattern encloses the name |
| Mux.DsParent | Godeps/_workspace/src/github.com/miekg/dns/server.go:195-199 | that is the parent, the nearest zone above the name, if and only if there is no other zone above it |
| Mux.DsGrandparent | Godeps/_workspace/src/github.com/miekg/dns/server.go:195-199 | of three zones one within the other the outermost answers for DS |
| Mux.CapitalNever | Godeps/_workspace/src/github.com/miekg/dns/server.go:135-167 | a pattern with a capital never answers |

## Left out

- PackNames.PackDomainName: with less room than the characters of the name it does not say whether a name with escapes or beside a map runs out of room.
- UnpackMessages.MessageRoundTrip: requires names without escapes when the message is compressed; what becomes of escaped ones is said for sequences of names (EscapedNames.InTurnReads) and for one whole message (Misread.QuestionMisread).
- Messages.PackBuffer: gives the number of octets, but not the octets, of a packed message with a name longer than 255 octets or cut before an offending label, without an owner name, or with an address that is absent or not of the IPv4 kind; and leaves open whether a record without an owner name and with a type from 256 on, or with more than 65536 characters, ends in ErrRdata, as that depends on the octets that rawSetRdlength walks over.
- Records.RR.Pack: with less room than the characters of the record take, and for a record that does not fit this model, states only that nothing in front changes; likewise Records.PackHeader, Records.PackRR, Messages.PackSection and Messages.PackQuestionInto.
- Tsig.PackTsig: does not say what happens to a record whose names do not fit, whose fields are not hexadecimal, or whose MAC is longer than 4096 octets or other data longer than 2048; such a record is not emitted.
- TsigVerify.TsigGenerate: does not say what happens when a name does not pack or when the MAC is longer than 64 octets, the most any of the known algorithms yields; a malformed secret is part of the hash parameter.
- TsigVerify.StripTsig: does not give the offset and record beside an error.
- TsigVerify.SignedVerifies: requires a time of 48 bits that is not zero and a fudge that is not zero, as tsigBuffer fills them in; a longer time is cut to its low 48 bits on the wire.
- Dedup.Dedup: requires the map to be empty and owner names as they are printed (not empty, no open escape, no bare tab); a map that already holds records is not part of this model.
- Records without an address or a nil entry in a section; record types other than A, AAAA, NS, CNAME, PTR, MX, SRV and TSIG, on which reading stops with an error of its own (UnpackMessages.UnpackRRSlice, UnpackMessages.Unpack, TsigVerify.StripTsig).
- Letters outside ASCII in case folding.
- Objects for unpacked records: reading yields values, and the Rdlength that was read is part of the value. Packing works on record objects and sets theirs.
- The message object: it is a value that refers to its record objects; the truncation of m.Extra by TsigGenerate is modelled by giving the stub beside the message, and records changed by signing are returned.
- Slices that share an array: TsigVerify appends to the stripped slice and so can overwrite the caller's octets behind it.
- net.ParseIP beyond dotted quads and eight full groups: shortened "::" forms, embedded quads and octets with leading zeros.
- Randomness, clocks, keyed hashes and NSEC3 hashing, which are parameters; decoding of base64 secrets.
- Sharing of message objects beyond singleflight: what fn does to its results, and the round-trip time it returns.
- The lock of ServeMux and its concurrent use; dispatch is proved for one caller.
- Network input and output, server loops, zone files, DNSSEC, and flags and logging of GYIP: they add no reasoning about the parts above.
- The bound on pointers, in MessageRoundTrip, is told by packing the message (`MsgReach`); a caller who has not packed it can use the number of labels (`FewLabelsReach`).
