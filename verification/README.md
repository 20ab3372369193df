# The DNS wire codec of wshelper

This project models the part of the `wshelper` library that turns domain names, resource records and
addresses into bytes and back, and proves what those routines are for. The source is C; buffers are
arrays, pointers are places in one buffer, and a C string is a sequence of bytes without NUL whose
terminator is implicit. Buffers that a routine only reads are arrays or sequences; buffers it writes
are arrays. A bitwise operator is the operator, digit by digit (`Bits`), and every cut to 8, 16 or 32
bits is written out.

| module | what it models |
|---|---|
| `Bits`, `Wire` | C's bitwise operators; shorts and longs in a message |
| `NameText` | names as text: how `dn_comp` reads a text, how `dn_find` reads it, how `rdn_expand` prints |
| `Spelling` | the same three in characters: which texts are read as which labels, and what is printed |
| `WireName` | what a compressed name means (section 4.1.4 of RFC 1035): a finite walk to a root byte |
| `Expand`, `SkipName` | `rdn_expand`, `__dn_skipname` |
| `NameIndex`, `Encoding` | the list of earlier names and what `dn_comp` writes, as functions |
| `Compress` | `dn_find`, `dn_comp` |
| `Session` | any run of `dn_comp` calls on one message with one list |
| `Sharing` | what the list is for: names that end alike share a pointer |
| `Qnames` | `put_qname` |
| `Record`, `Reader`, `StringData` | `build_rr`, and readers of records and of the strings in them |
| `Response` | `do_res_search` |
| `InetAton`, `Numerals` | `inet_aton`, and the reverse name of `rgethostbyaddr`; numbers in octal and hexadecimal |
| `ReverseNames` | the reverse name as the DNS reads it |
| `SearchList` | the search list of `res_init`, the order of `res_search` |

## Main results

1. **Names come back.** In any run of writes to one message (calls of `dn_comp` with the shared list,
   whether they succeed or fail, calls without a list, and other data), every name expands to the
   labels of its own text, at any later time, in the bytes that `dn_comp` returned
   (`Session.NamesComeBack`). The offset that a pointer is to hold must be below 0x4000, which
   `dn_comp` does not check; a pointer keeps an offset exactly then (`Encoding.PointerKeeps14Bits`).
   Every entry of the list is the place of a label or of the root byte inside an earlier name
   (`Session.RunKeepsInv`). The failed calls of a run are those that leave the list as it was; that is
   all but one exit (`Session.StaleEntry`).
2. **`rdn_expand` is the meaning of the name.** On every message it succeeds exactly when the walk
   reaches a root byte, the loop detector stays quiet and the text fits, and then it stores the
   dot-quoted text of exactly those labels (`Expand.RdnExpand`, `Expand.ExpandsIffDecodes`). It ends
   on every message, cyclic ones included, after fewer jumps than half the message has bytes
   (`Expand.JumpsTaken`). The detector fires exactly when there is a jump and the segments up to the
   last one are together as long as the message (`WireName.QuietExactly`), so never on a name whose
   segments do not overlap; it can fire on one whose segments do (`WireName.FalseAlarm`).
3. **Compression.** No choice of entry and of labels to spell out is shorter than that of `dn_comp`
   exactly if the text is regular (no empty label before a last dot, no dangling backslash) or no
   entry stands for the name or its last labels; and a pointer is used exactly when it saves
   something (`Encoding.CompressionIsMaximal`). Every label that is spelled out goes on the list while
   there is room (`Encoding.EveryLabelIsMarked`, `Compress.AsManyAsFit`), so in a run with room a
   regular name that ends like an earlier one is written with a pointer to what they share
   (`Sharing.SharedTailIsPointedTo`). `Encoding.IrregularMissesIndex` shows the text "a.."
   for which a shorter encoding exists.
4. **Messages read back.** A reader that starts behind the header of the message of `do_res_search`,
   takes the counts from it, and steps by `__dn_skipname`, `_getshort` and RDLENGTH visits one
   question and exactly the chosen records and stops at the last byte (`Response.MessageReadsBack`).
   The answers come first, then the authorities, then the additional records, as many as the list has
   of each section and the header says (`Response.SectionsTaken`, `Response.PartsInOrder`).
5. **`inet_aton`** accepts exactly the texts of one to four numbers, in any mixture of the three bases,
   whose values fit (`InetAton.AcceptsExactly`); it stores the leading bytes and the last number side
   by side, each number read modulo 2^32, and undoes the printing of every address, as a quad
   (`InetAton.QuadParses`) and in hexadecimal and octal (`Numerals.TextParses`).
6. **Texts.** Which texts are read as which labels, and what is printed, is said in characters, without
   the scanner (`Spelling.ParsesExactly`, `Spelling.ReadsExactly`, `Spelling.PrintsJoined`).

Where the code does not have a property, the exact condition is proved:

- Labels survive printing and reading exactly when they contain no backslash, which `rdn_expand` does
  not quote although `dn_comp` unquotes it (`NameText.PrintThenParse`). So a name comes back as a
  canonical text for the same labels exactly when its text quotes no backslash
  (`NameText.ParseThenPrint`; the input is in `NameText.QuotedBackslashIsLost`).
- `put_qname` and `dn_comp` agree exactly on names without a backslash, of those that `dn_comp`
  accepts (`Qnames.EncodersAgreeExactly`; `Qnames.EncodersDisagree`).
- A failed `dn_comp` leaves the list as it was exactly when it does not fail at the pointer, or has
  put nothing on the list (`Compress.FailureKeepsList`); the entries left by that exit break the list
  for later calls (`Session.StaleEntry`).
- A record keeps the frame exactly when its type is not SOA, WKS, MINFO or RP and has a case in
  `build_rr` (`Reader.FramedExactly`; `Reader.MailboxLosesFrame`).
- The strings of a TXT, HINFO, ISDN or X25 record read back exactly when all but the last are empty,
  as each is written over the one before (`StringData.StringsReadBack`; `StringData.StringsCollide`).

The code and its documentation disagree in two places, and the model follows the code: expanded names
are not converted to upper case (`src/athena/wshelper/wshelper/res_comp.c:64`), and names are compared
with regard to case. `rdn_expand` stores the root name without looking at the size of the buffer.

What the callers must see to, as the code takes it for granted: the cell behind the message can be
read by `rdn_expand`; the names on a list given to `dn_comp` are names of the message before the place
written to (which every run of successful calls keeps); `put_qname` and `build_rr` get a buffer with
room.

## Model

| member | source | states |
|---|---|---|
| Bits.OrPacks | src/athena/wshelper/wshelper/inetaton.c:135-147 | the OR of two fields that do not meet is their sum, for any widths |
| Bits.MaskTop | src/athena/wshelper/wshelper/res_comp.c:97 | the mask 0xc0 keeps the two tag bits of a byte |
| Bits.OrTag | src/athena/wshelper/wshelper/res_comp.c:185 | a high byte with the tag ORed in and cut to a byte keeps the six low bits and has the tag |
| Wire.GetShort | src/athena/wshelper/wshelper/res_comp.c:318-333 | the big-endian short at a place, though put together by shift and OR |
| Wire.GetLong | src/athena/wshelper/wshelper/res_comp.c:335-345 | the big-endian long at a place |
| Wire.PutShort | src/athena/wshelper/wshelper/res_comp.c:347-352 | two bytes change and no other |
| Wire.PutLong | src/athena/wshelper/wshelper/res_comp.c:354-361 | four bytes change and no other |
| Wire.ShortRoundTrip | src/athena/wshelper/wshelper/res_comp.c:318-352 | what was put as a short is got as the same short |
| Wire.LongRoundTrip | src/athena/wshelper/wshelper/res_comp.c:335-361 | what was put as a long is got as the same long |
| NameText.ReadsIffParses | src/athena/wshelper/wshelper/res_comp.c:195-216 | the reading of `dn_find` and that of `dn_comp` accept the same labels for a text, except irregular texts, which `dn_find` never recognises |
| NameText.PrintThenParse | src/athena/wshelper/wshelper/res_comp.c:98-117 | printing labels as `rdn_expand` does and reading them as `dn_comp` does is the identity exactly when no label has a backslash |
| NameText.ParseThenPrint | src/athena/wshelper/wshelper/res_comp.c:195-222 | reading a text and printing it gives it back if it is canonical, and a strictly shorter text if not; what comes back spells the same labels exactly when no backslash was quoted, and then it is canonical |
| NameText.QuotedBackslashIsLost | src/athena/wshelper/wshelper/res_comp.c:107-113 | a text with a quoted backslash, which comes back as one that is not canonical and spells another label |
| NameText.PrintIsCanonical | src/athena/wshelper/wshelper/res_comp.c:98-117 | labels without backslash are printed canonically |
| Spelling.ParsesExactly | src/athena/wshelper/wshelper/res_comp.c:179-231 | `dn_comp` accepts exactly labels of 1 to 63 characters with 46 between them, 92 before any character and before each 46 and 92 inside, and one of five endings |
| Spelling.ReadsExactly | src/athena/wshelper/wshelper/res_comp.c:281-304 | `dn_find` recognises exactly such texts with no ending or a dot |
| Spelling.PrintsJoined | src/athena/wshelper/wshelper/res_comp.c:98-117 | the text is the labels with 46 between them and 92 before each 46 inside one |
| Spelling.PrintsDots | src/athena/wshelper/wshelper/res_comp.c:98-103 | the labels of "www.mit.edu" are printed as its characters |
| Spelling.PrintsQuotedDot | src/athena/wshelper/wshelper/res_comp.c:107-113 | a dot inside a label comes out behind a backslash |
| WireName.DenotesUnique | src/athena/wshelper/wshelper/res_comp.c:93-138 | the bytes at a place stand for one label list at most |
| WireName.CycleDenotesNothing | src/athena/wshelper/wshelper/res_comp.c:125-132 | a chain that comes back to a place stands for no name |
| WireName.StuckDenotesNothing | src/athena/wshelper/wshelper/res_comp.c:114-136 | nor does one that meets a reserved tag, leaves the message, or has a label that runs to its end |
| WireName.QuietExactly | src/athena/wshelper/wshelper/res_comp.c:106-132 | the detector fires exactly if there is a jump and the segments up to the last one have, with what was counted before, as many bytes as the message |
| WireName.NoFalseAlarm | src/athena/wshelper/wshelper/res_comp.c:106-132 | the detector never stops a name whose segments are disjoint and inside the message |
| WireName.FalseAlarm | src/athena/wshelper/wshelper/res_comp.c:106-132 | a six-byte message whose name has a meaning but overlaps itself, and is stopped |
| Expand.JumpsTaken | src/athena/wshelper/wshelper/res_comp.c:120-132 | on every message, cyclic or not, fewer pointers are followed than half its bytes |
| Expand.DecodeComplete | src/athena/wshelper/wshelper/res_comp.c:93-142 | every walk that the detector lets pass is read, with its labels and its size |
| Expand.ExpandsIffDecodes | src/athena/wshelper/wshelper/res_comp.c:93-142 | reading finds labels and size exactly when there is a walk with them that the detector lets pass |
| Expand.DecodeDenotes | src/athena/wshelper/wshelper/res_comp.c:93-142 | what is read is what the name stands for, and the jumps taken are those of its walk |
| Expand.DisjointNamesDecode | src/athena/wshelper/wshelper/res_comp.c:93-142 | a disjoint name is always read, so only the room for its text can fail |
| Expand.CopyByte | src/athena/wshelper/wshelper/res_comp.c:107-113 | one character is stored, quoted if it is a dot, exactly if it and the rest of the label fit |
| Expand.CopyLabel | src/athena/wshelper/wshelper/res_comp.c:104-116 | succeeds exactly if the label ends before the message does and its quoted text fits; stores that text |
| Expand.PutLabel | src/athena/wshelper/wshelper/res_comp.c:99-116 | the same with the separating dot |
| Expand.ReadTarget | src/athena/wshelper/wshelper/res_comp.c:122 | masks and shifts yield the 14-bit offset |
| Expand.TakePointer | src/athena/wshelper/wshelper/res_comp.c:122-132 | the jump is refused exactly outside the message or when the detector fires |
| Expand.RdnExpand | src/athena/wshelper/wshelper/res_comp.c:77-143 | success exactly if there is a name to read and its text and NUL fit (the root always); the text, the size, nothing written outside, and the pointers followed |
| SkipName.SkipAgrees | src/athena/wshelper/wshelper/res_comp.c:236-258 | the fast form gives the size of every name that has a walk |
| SkipName.SkipAgreesWithExpand | src/athena/wshelper/wshelper/res_comp.c:236-258 | whenever `rdn_expand` reads a name, `__dn_skipname` returns the same size |
| SkipName.SkipEnds | src/athena/wshelper/wshelper/res_comp.c:236-258 | what stops the labels decides the size: a root byte, a pointer, the end of the message, which may cut a name off; or a tag that is refused |
| SkipName.SkipRefusesExactly | src/athena/wshelper/wshelper/res_comp.c:250-251 | it gives up exactly where the labels lead to a byte from 64 to 191 inside the message |
| SkipName.DnSkipName | src/athena/wshelper/wshelper/res_comp.c:236-258 | the loop computes that size, or -1 |
| NameIndex.ResolveGrows | src/athena/wshelper/wshelper/res_comp.c:171-194 | the meaning of a name with backward pointers survives any growth of the message |
| NameIndex.ResolvedDecodes | src/athena/wshelper/wshelper/res_comp.c:93-142 | such a name is read by `rdn_expand` to the same labels, and the detector stays quiet |
| NameIndex.LookupIsExact | src/athena/wshelper/wshelper/res_comp.c:267-308 | an entry is found exactly if the text is regular and some entry stands for its labels, and then it is the first such entry |
| Encoding.PointerKeeps14Bits | src/athena/wshelper/wshelper/res_comp.c:185-186 | the pointer written leads to the offset modulo 0x4000, so to the offset exactly if it is below |
| Encoding.EncodeIffParse | src/athena/wshelper/wshelper/res_comp.c:179-223 | whether a name is refused depends on its text alone, not on the list |
| Encoding.EncodeMeans | src/athena/wshelper/wshelper/res_comp.c:179-231 | the bytes added make the name stand for the labels of its text, and each mark for the labels from there on |
| Encoding.EncodeShape | src/athena/wshelper/wshelper/res_comp.c:179-231 | an encoding is some labels spelled out and then a pointer to an entry for exactly the others, or a root if none are left |
| Encoding.EarliestPointer | src/athena/wshelper/wshelper/res_comp.c:179-188 | no label is spelled out while an entry stands for it and what follows |
| Encoding.MarksArePlaces | src/athena/wshelper/wshelper/res_comp.c:189-194 | each mark is where a label that is spelled out starts, or the final root byte |
| Encoding.EveryLabelIsMarked | src/athena/wshelper/wshelper/res_comp.c:189-194 | there is a mark for every label that is spelled out, and no other but that of a final empty label of an irregular text |
| Encoding.IrregularNeverPoints | src/athena/wshelper/wshelper/res_comp.c:212-216 | for an irregular text no pointer is ever written |
| Encoding.CompressionIsMaximal | src/athena/wshelper/wshelper/res_comp.c:179-231 | no choice of entry and spelled-out labels is shorter exactly if the text is regular or no entry stands for its last labels; a pointer is used exactly when the encoding is shorter than plain |
| Encoding.IrregularMissesIndex | src/athena/wshelper/wshelper/res_comp.c:212-216 | "a.." is spelled out although an entry stands for its labels |
| Compress.MatchLabel | src/athena/wshelper/wshelper/res_comp.c:282-289 | the comparison of a label with quoted text succeeds exactly if the label begins the unquoted label |
| Compress.MatchEntry | src/athena/wshelper/wshelper/res_comp.c:274-305 | following pointers, an entry matches exactly if the text spells its labels |
| Compress.DnFind | src/athena/wshelper/wshelper/res_comp.c:266-308 | the first entry that matches, or -1 |
| Compress.WriteLabel | src/athena/wshelper/wshelper/res_comp.c:196-211 | the unquoted label is stored exactly if it fits, and the text goes on behind it |
| Compress.PutLabel | src/athena/wshelper/wshelper/res_comp.c:195-222 | the same with length byte, limits and the final empty label; no cell outside is touched, even when the length byte itself has no room |
| Compress.FindEnd | src/athena/wshelper/wshelper/res_comp.c:172-176 | the end of the list |
| Compress.SaveMark | src/athena/wshelper/wshelper/res_comp.c:189-193 | a mark is kept exactly while there is room before `lastdnptr`, the list stays terminated, and no cell from there on or before the old end is touched |
| Compress.Restore | src/athena/wshelper/wshelper/res_comp.c:205-208 | the names on the list are those of the start of the call, and no cell outside the room for marks has changed |
| Compress.PutPointer | src/athena/wshelper/wshelper/res_comp.c:183-187 | both bytes are stored exactly if both fit |
| Compress.PutRoot | src/athena/wshelper/wshelper/res_comp.c:224-230 | the root byte is stored exactly if it fits |
| Compress.PointOrMark | src/athena/wshelper/wshelper/res_comp.c:180-194 | a pointer to the first entry that spells the rest of the text ends the call, if it fits; else the place is marked |
| Compress.FinishName | src/athena/wshelper/wshelper/res_comp.c:224-230 | the end of a name without pointer, with the list restored on failure |
| Compress.DnComp | src/athena/wshelper/wshelper/res_comp.c:159-231 | success exactly if the text is acceptable and its encoding fits; the bytes, the returned size, the list after success and after each kind of failure, and nothing written outside the space for the name and the cells before `lastdnptr` |
| Compress.CallEffects | src/athena/wshelper/wshelper/res_comp.c:159-231 | in numbers: result, bytes, and every cell of the message and of the list that stays as it was |
| Compress.AsManyAsFit | src/athena/wshelper/wshelper/res_comp.c:189-193 | a call puts all its marks on the list if they and the closing NULL fit below `lastdnptr`, and else the first ones, as many as fit |
| Compress.FailureKeepsList | src/athena/wshelper/wshelper/res_comp.c:183-229 | a failed call leaves the list as it was exactly if it did not fail at the pointer, or had no label to list or no room for one |
| Session.CallIsStep | src/athena/wshelper/wshelper/res_comp.c:159-231 | by the contract of `DnComp`, a call is a step of a run if its pointer keeps its offset or, when it fails, if it leaves the list as it was |
| Session.LoneCallIsStep | src/athena/wshelper/wshelper/res_comp.c:159-231 | so is every successful call without a list |
| Session.NewName | src/athena/wshelper/wshelper/res_comp.c:159-231 | a new name stands for its text in the returned size, and its marks lie in it at its labels and stand for its last labels |
| Session.StepKeepsInv | src/athena/wshelper/wshelper/res_comp.c:171-231 | every write keeps the invariant: each entry is the place of a label or of the root byte in the bytes of an earlier name and stands for its labels from there on, names stand for their texts |
| Session.RunKeepsInv | src/athena/wshelper/wshelper/res_comp.c:171-231 | the invariant holds in every state of every run |
| Session.RunOnlyAdds | src/athena/wshelper/wshelper/res_comp.c:159-231 | message, list and names only grow in a run |
| Session.NamesComeBack | src/athena/wshelper/wshelper/res_comp.c:77-308 | every name of a run, at any later time, expands to its own labels and is skipped by its own size; its text comes back in canonical form exactly when no backslash was quoted |
| Sharing.StepKeepsClosed | src/athena/wshelper/wshelper/res_comp.c:179-194 | with room, every write keeps this: the tails of whatever an entry stands for have entries |
| Sharing.TailsAreListed | src/athena/wshelper/wshelper/res_comp.c:179-194 | in a run with room, every tail of every name written with the list has an entry from then on |
| Sharing.SharedTailIsPointedTo | src/athena/wshelper/wshelper/res_comp.c:179-194 | so a regular text that ends like an earlier name is written with a pointer, in no more bytes than the labels before what they share and two |
| Session.StaleEntry | src/athena/wshelper/wshelper/res_comp.c:183-184 | after the exit that does not restore, an entry that stands for no name |
| Qnames.PutQname | src/athena/wshelper/wshelper/res_quer.c:158-194 | the loop writes the encoding and returns its size, for every string |
| Qnames.QnameExactly | src/athena/wshelper/wshelper/res_quer.c:158-194 | for any text: each label behind its length, cut to a byte; behind an empty label all the rest as one label |
| Qnames.EncodersAgree | src/athena/wshelper/wshelper/res_quer.c:158-194 | without backslash, `put_qname` writes what `dn_comp` writes without a list |
| Qnames.EncodersAgreeExactly | src/athena/wshelper/wshelper/res_quer.c:158-194 | and with one it never does |
| Qnames.EncodersDisagree | src/athena/wshelper/wshelper/res_quer.c:158-194 | a three-character name with a backslash, which the two encoders write differently |
| Qnames.QnameReads | src/athena/wshelper/wshelper/res_quer.c:158-194 | wherever it stands, `rdn_expand` reads the labels back and `__dn_skipname` the size |
| Record.PutOneName | src/athena/wshelper/wshelper/res_quer.c:334-348 | RDLENGTH, filled in afterwards, and the name |
| Record.PutStrings | src/athena/wshelper/wshelper/res_quer.c:349-366 | RDLENGTH and the strings, each written over the one before; the NUL copied along with the last changes nothing |
| Record.PutService | src/athena/wshelper/wshelper/res_quer.c:367-388 | RDLENGTH, three numbers and the name |
| Record.PutPreference | src/athena/wshelper/wshelper/res_quer.c:389-401 | RDLENGTH, the preference and the name |
| Record.PutAuthority | src/athena/wshelper/wshelper/res_quer.c:402-440 | the data with the gap the cursor leaves |
| Record.PutRaw | src/athena/wshelper/wshelper/res_quer.c:441-447 | RDLENGTH, cut to 16 bits, and the bytes |
| Record.PutWellKnown | src/athena/wshelper/wshelper/res_quer.c:448-468 | the data with the gap the cursor leaves |
| Record.PutMailboxes | src/athena/wshelper/wshelper/res_quer.c:469-483 | the first mailbox twice, and the gap |
| Record.CasesByNumber | src/athena/wshelper/wshelper/res_quer.c:325-492 | which type numbers have which data |
| Record.BuildRr | src/athena/wshelper/wshelper/res_quer.c:304-494 | the bytes of the record and how far the caller steps, for every type, with and without a case |
| Reader.RrReads | src/athena/wshelper/wshelper/res_quer.c:313-401 | owner, type, class, TTL, RDLENGTH and data read back, and the reader stands where `build_rr` stopped |
| Reader.FramedExactly | src/athena/wshelper/wshelper/res_quer.c:325-493 | the reader stands there exactly for the types that keep the frame |
| Reader.MailboxLosesFrame | src/athena/wshelper/wshelper/res_quer.c:469-483 | an RP record after which the reader stands one byte short |
| Reader.DataReads | src/athena/wshelper/wshelper/res_quer.c:341-401 | names and numbers inside the data read back |
| Reader.RawReads | src/athena/wshelper/wshelper/res_quer.c:327-332 | the bytes of an address, and of a NULL record, read back |
| Reader.AuthorityReads | src/athena/wshelper/wshelper/res_quer.c:402-440 | an SOA record: RDLENGTH, both names, the gap, and the five numbers behind it |
| Reader.WellKnownReads | src/athena/wshelper/wshelper/res_quer.c:448-468 | a WKS record: RDLENGTH 6, six bytes, and the gap of five |
| Reader.MailboxesRead | src/athena/wshelper/wshelper/res_quer.c:469-483 | a MINFO or RP record: RDLENGTH, the first mailbox twice, and the gap |
| StringData.StringsReadBack | src/athena/wshelper/wshelper/res_quer.c:349-366 | the strings read back exactly when all but the last are empty, and the frame is kept in any case |
| StringData.StringsCollide | src/athena/wshelper/wshelper/res_quer.c:357-363 | two strings of one character, of which nothing reads back |
| Response.ChosenAppend | src/athena/wshelper/wshelper/res_quer.c:251-292 | a pass is a filter: it keeps the order of the list |
| Response.PassesPartition | src/athena/wshelper/wshelper/res_quer.c:251-292 | the three passes take every record once, except question records when no PTR was asked for |
| Response.SectionsTaken | src/athena/wshelper/wshelper/res_quer.c:251-292 | each pass takes exactly the records of its section, as often as they are listed; the answers also those of the question section when type 12 was asked for |
| Response.PartsInOrder | src/athena/wshelper/wshelper/res_quer.c:251-292 | answers first, then authorities, then additional records, by their numbers |
| Response.PutSection | src/athena/wshelper/wshelper/res_quer.c:252-265 | one pass writes the chosen records one behind the other and counts them |
| Response.AddSection | src/athena/wshelper/wshelper/res_quer.c:251-279 | and fills the count into the header without touching anything else |
| Response.Resolver.DoResSearch | src/athena/wshelper/wshelper/res_quer.c:196-302 | the next query id, the size of the message, and as much of it in the caller's buffer as fits; nothing changes if the lookup failed |
| Response.HeaderReadsBack | src/athena/wshelper/wshelper/res_quer.c:231-293 | id, the flag bytes, one question, and for each part the number of records of its section in the list |
| Response.QuestionReadsBack | src/athena/wshelper/wshelper/res_quer.c:243-249 | one question: name, type and class of the query |
| Response.MessageReadsBack | src/athena/wshelper/wshelper/res_quer.c:229-295 | a reader that starts at offset 12 and goes by the counts in the header visits one question and then the chosen records in the order of the passes, and stops at the end of the message |
| InetAton.ReadNumber | src/athena/wshelper/wshelper/inetaton.c:83-103 | the 32-bit arithmetic yields the positional value modulo 2^32 in the announced base |
| InetAton.Pack | src/athena/wshelper/wshelper/inetaton.c:126-149 | the limits of the last number, and ORs that carry nothing |
| InetAton.AddressLayout | src/athena/wshelper/wshelper/inetaton.c:127-149 | the leading bytes come out in front and the last number fills the others; it is refused exactly if it needs more |
| InetAton.InetAton | src/athena/wshelper/wshelper/inetaton.c:68-153 | accepts exactly the four forms, and stores that address in network order |
| InetAton.AcceptsExactly | src/athena/wshelper/wshelper/inetaton.c:68-153 | a text is accepted with an address exactly if it is at most three numbers that fit a byte, each before a dot, and a last number, of any base each, that give this address, and then the end or white space |
| Numerals.TextIsNumeral | src/athena/wshelper/wshelper/inetaton.c:83-103 | the octal or hexadecimal digits of a number, of either case, are worth the number modulo 2^32 |
| Numerals.TextParses | src/athena/wshelper/wshelper/inetaton.c:68-153 | parsing undoes the printing of every address in hexadecimal, in either case, and in octal |
| Numerals.TextEnds | src/athena/wshelper/wshelper/inetaton.c:83-124 | behind such a number and before a character that is no digit and no dot, only white space is accepted |
| Numerals.DecimalEnds | src/athena/wshelper/wshelper/inetaton.c:83-124 | so it is behind a decimal number |
| Numerals.OddTexts | src/athena/wshelper/wshelper/inetaton.c:77-124 | no digits at all count as 0, and the digit 9 is taken in octal |
| Numerals.HexLoopback | src/athena/wshelper/wshelper/inetaton.c:68-153 | "0x7f.1" is 127.0.0.1 |
| InetAton.QuadParses | src/athena/wshelper/wshelper/inetaton.c:68-153 | parsing undoes the printing of a quad, for every address |
| InetAton.ReverseNameParses | src/athena/wshelper/wshelper/gethna.c:301-305 | the quad of a reverse name parses to the bytes of the address in reverse |
| ReverseNames.ReverseNameReads | src/athena/wshelper/wshelper/gethna.c:301-305 | the labels of a reverse name are the bytes of the address in decimal, last first, "in-addr" and "arpa" |
| ReverseNames.ReverseNameIsSent | src/athena/wshelper/wshelper/gethna.c:301-305 | what `put_qname` writes for it |
| ReverseNames.ReverseNameExample | src/athena/wshelper/wshelper/gethna.c:301-305 | "4.3.2.1.in-addr.arpa" for 1.2.3.4 |
| SearchList.BuildSearchList | src/athena/wshelper/wshelper/res_init.c:169-180 | entry k starts behind the k-th dot of the domain; the list is terminated |
| SearchList.SearchListShape | src/athena/wshelper/wshelper/res_init.c:169-180 | one to three entries, suffixes at labels, ever shorter, and two labels left in all but the first |
| SearchList.FirstHitIsFirst | src/athena/wshelper/wshelper/res_quer.c:126-155 | the answer is that to the first name that has one, or -1 if none has |
| SearchList.ResSearch | src/athena/wshelper/wshelper/res_quer.c:115-156 | a name without dots is asked for as its alias, if it has one, in each domain of the list, then as it is; any other only as it is |

## Left out

- Record.BuildRr: a TXT, HINFO, ISDN or X25 record with a string of more than 127 bytes is excluded; there the length is added as a negative number, and the cursor goes back into what was written.
- Record.PutStrings: has the same limit on the length of a string.
- Response.Resolver.DoResSearch: the system's lookup is an input (its status and its record list); that the message fits the buffer of 0x8000 bytes is required, as the code does not check it.
- Response.MessageReadsBack: holds for records that keep the frame and names that `put_qname` encodes as `dn_comp` would; `Reader.FramedExactly` and `Qnames.EncodersAgreeExactly` say which these are.
- SearchList.ResSearch: the lookup is an oracle that answers each name with a size or not at all, and the alias of the name is an input; the fixed size of the name buffer is not modelled.
- InetAton.InetAton: characters are unsigned, so those above 127 are neither digits nor white space, as `isascii` has it.
- Compress.DnComp: the list must hold names of the message; what the search does on a list with other entries is not modelled, and the illegal-type exit of `dn_find` cannot be reached.
- Compress.DnFind: has the same demand on the list; with an entry whose pointers go in a circle the search of the source does not end.
- Compress.MatchEntry: the entry must stand for a name through pointers that go backward, as everything that `dn_comp` writes does.
- Session.RunKeepsInv: a run holds no call that fails at the pointer after it has put labels on the list, after which the invariant can be false (`Session.StaleEntry`), and no pointer to an offset of 0x4000 or more.
- Expand.RdnExpand: the name must start inside the message, and one more cell must be readable behind it.
- The foreign lookups, the registry, the environment, thread-local storage, files and the alias table.
- The stubs that return -1 or NULL, the Hesiod and passwd parsers, and the programs outside wshelper: they have no part in reading or writing DNS messages.
