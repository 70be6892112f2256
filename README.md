# AMOS core: messages, fragments, mate-pair geometry and FASTA utilities

This project models four pieces of AMOS, the open-source genome assembly framework. For each operation it proves what the source promises; where a contract is weaker, the "## Left out" section names the member and the reason.

- **Message_t** (`message.dfy`, module `Messages`) is the in-memory ASCII message.
  - It holds a type code (an NCode), a map from field codes to field data, and a vector of submessages.
  - It is a class whose methods update those three fields.
  - Submessages are copied by value, so they are the datatype `MessageValue`.
- **Fragment_t** (`fragment.dfy`, module `Fragments`) is a piece of DNA with its two end reads, its library, its child reads and its type character.
  - It is a class with setters, getters, `Clear` and a constructor.
  - It also has a biserial record writer and reader, proved to round-trip.
  - The byte layout lives in `biserial.dfy` (module `Biserial`). It is the model's own layout, since the codec bodies are not part of this model.
- **asmQC** (`asmqc.dfy`, module `AsmQC`) is the assembly validator's mate-pair geometry:
  - `mateLen` classifies a mate pair and gives its length.
  - The conversion of a read tile into a contig range.
  - `getCvg` sweeps sorted range starts and ends for regions of low or high coverage. The coverage at a position is the number of ranges [begin, end) that hold it.
  - `std::sort` is modelled by the sorting function of `sorting.dfy` (module `Sorting`), with the order-statistic facts the sweep relies on.
- **fasta.cc** (`fasta.dfy`, module `Fasta`) holds the DNA string routines:
  - the complement table;
  - in-place reverse and reverse complement over an array;
  - the three FASTA printers;
  - the FASTA and quality-value readers.

  A `FILE*` opened for writing is modelled by the text the call writes. One opened for reading is its characters plus the index of the next unread character. `ungetc` is then not advancing the index.

Shared codes, errors and option values live in `ncodes.dfy` (module `NCodes`).

## Model

| member | source | states |
|---|---|---|
| Messages.Message.constructor | src/AMOS/Message_AMOS.hh:115-120 | a new message has type M_NULL, no fields and no submessages |
| Messages.Message.Clear | src/AMOS/Message_AMOS.hh:132-142 | afterwards the type is M_NULL and there are no fields and no submessages |
| Messages.Message.Exists | src/AMOS/Message_AMOS.hh:145-154 | true exactly when a field with that code is present |
| Messages.Message.GetField | src/AMOS/Message_AMOS.hh:169-189 | the stored data when the field is present; an argument error exactly when it is absent |
| Messages.Message.GetSubMessages | src/AMOS/Message_AMOS.hh:209-217 | returns the submessage vector, in order |
| Messages.Message.GetMessageCode | src/AMOS/Message_AMOS.hh:220-231 | returns the type code |
| Messages.Message.RemoveField | src/AMOS/Message_AMOS.hh:249-261 | the field is gone, every other field is kept, and removing an absent field changes nothing |
| Messages.Message.SetSubMessages | src/AMOS/Message_AMOS.hh:279-288 | replaces the submessage vector wholesale; type and fields unchanged |
| Messages.Message.SetField | src/AMOS/Message_AMOS.hh:291-304 | multi-line data not ending in a newline is rejected with an argument error and nothing changes; otherwise exactly that field is added or overwritten |
| Messages.Message.SetMessageCode | src/AMOS/Message_AMOS.hh:328-337 | assigns the type code; fields and submessages unchanged |
| Messages.SetFieldThenGetField | src/AMOS/Message_AMOS.hh:291-304 | after setting well-formed data, getField returns it and any other field reads as before |
| Messages.RemoveFieldThenExists | src/AMOS/Message_AMOS.hh:249-261 | after removeField, exists is false and getField fails with an argument error |
| Messages.SetThenGetCodeAndSubs | src/AMOS/Message_AMOS.hh:285-288 | setMessageCode/getMessageCode and setSubMessages/getSubMessages round-trip |
| Fragments.TypeConstantsDistinct | src/AMOS/Fragment_AMOS.hh:36-40 | NULL_FRAGMENT, OTHER, INSERT, TRANSPOSON and BAC are five distinct values |
| Fragments.BankCode | src/AMOS/Fragment_AMOS.hh:104-107 | the bank code is the fragment bank's NCode |
| Fragments.Fragment.constructor | src/AMOS/Fragment_AMOS.hh:110-119 | both ends and the library are NULL_ID, the type NULL_FRAGMENT, no reads |
| Fragments.Fragment.Clear | src/AMOS/Fragment_AMOS.hh:140-149 | resets ends, library and type to null and empties the read list |
| Fragments.Fragment.GetNCode | src/AMOS/Fragment_AMOS.hh:152-160 | always equals BankCode() |
| Fragments.Fragment.GetEnds | src/AMOS/Fragment_AMOS.hh:163-174 | returns the pair of end read ids |
| Fragments.Fragment.GetLibrary | src/AMOS/Fragment_AMOS.hh:177-185 | returns the library id |
| Fragments.Fragment.GetReads | src/AMOS/Fragment_AMOS.hh:188-196 | returns the read ids in order |
| Fragments.Fragment.GetType | src/AMOS/Fragment_AMOS.hh:199-207 | returns the type |
| Fragments.Fragment.SetEnds | src/AMOS/Fragment_AMOS.hh:210-222 | replaces the ends and nothing else |
| Fragments.Fragment.SetLibrary | src/AMOS/Fragment_AMOS.hh:225-234 | replaces the library and nothing else |
| Fragments.Fragment.SetReads | src/AMOS/Fragment_AMOS.hh:237-246 | replaces the read list and nothing else |
| Fragments.Fragment.SetType | src/AMOS/Fragment_AMOS.hh:249-258 | replaces the type and nothing else |
| Fragments.SetThenGet | src/AMOS/Fragment_AMOS.hh:171-258 | each setter round-trips through its getter |
| Fragments.Fragment.WriteRecord | src/AMOS/Fragment_AMOS.hh:75-91 | writes the encoded members to each ready stream only, and returns the full record size in any case |
| Fragments.Fragment.ReadRecord | src/AMOS/Fragment_AMOS.hh:53-72 | sets every member from the two streams and returns the record size; a stream that ends inside the record is an error |
| Fragments.RecordRoundTrip | src/AMOS/Fragment_AMOS.hh:62-63 | decoding what the writer encoded restores every member and takes exactly the written bytes, whatever follows them |
| Fragments.FixedRoundTrip | src/AMOS/Fragment_AMOS.hh:62-63 | the fixed-length stream gives back library, ends and type |
| Fragments.VarRoundTrip | src/AMOS/Fragment_AMOS.hh:62-63 | the variable-length stream gives back the read ids |
| Fragments.IdsRoundTrip | src/AMOS/Fragment_AMOS.hh:62-63 | a list of ids decodes to itself |
| Fragments.WriteThenRead | src/AMOS/Fragment_AMOS.hh:83-84 | writing one fragment and reading it into another copies every member, and both report the same size |
| Biserial.Uint32RoundTrip | src/AMOS/Fragment_AMOS.hh:62-63 | a 32-bit id decodes from its four bytes |
| Biserial.LengthRoundTrip | src/AMOS/Fragment_AMOS.hh:62-63 | a length prefix decodes to the length and the number of bytes it took |
| AsmQC.MateLen | src/Validation/asmQC.cc:146-188 | same orientation gives (0, MP_NORMAL); an outie gives (0, MP_OUTIE); otherwise the status is untouched; a nonzero length implies an innie away from the contig ends; never negative |
| AsmQC.MateLenInnieDistance | src/Validation/asmQC.cc:179-187 | for an innie away from the ends the length is how far the reverse read begins right of the forward read |
| AsmQC.MateLenSymmetric | src/Validation/asmQC.cc:146-188 | swapping the two reads changes neither length nor status |
| AsmQC.MateLenNoEndCheck | src/Validation/asmQC.cc:179-187 | with reads in the contig, End = 0 gives every innie its distance |
| AsmQC.MateLenEndMonotone | src/Validation/asmQC.cc:179-185 | a smaller End never discards a length a larger End kept |
| AsmQC.TileRange | src/Validation/asmQC.cc:491-499 | a reverse tile gives begin > end and a forward one begin <= end; the span equals the tile's; orientation is kept; the left end is the offset |
| AsmQC.GetCvg | src/Validation/asmQC.cc:239-307 | no ranges: empty when above, the whole contig when below. For ranges inside the contig: the intervals are ordered and each lies within [0, ctglen]; every position of a reported interval has coverage at most `coverage` (below, coverage >= 0) or at least `coverage` (above); and every position of the contig on that side of the threshold lies in a reported interval (below with coverage >= 0, above with coverage >= 1) |
| AsmQC.CovFromBounds | src/Validation/asmQC.cc:255-302 | the coverage at x equals the starts at or before x less the ends at or before x, which is what the sweep counts |
| AsmQC.SortedBounds | src/Validation/asmQC.cc:255-263 | the starts and the ends, each a sorted permutation, with the k-th start no later than the k-th end; counting them gives the coverage of the ranges at every position |
| AsmQC.CollectBounds | src/Validation/asmQC.cc:255-260 | the starts and the ends in the order of the ranges |
| AsmQC.SortedStartsBeforeEnds | src/Validation/asmQC.cc:262-292 | after sorting, the k-th start is no later than the k-th end, so the sweep takes every start first and coverage never goes negative |
| AsmQC.Sweep | src/Validation/asmQC.cc:265-304 | over bounds inside the contig: the intervals are ordered and each lies within [0, ctglen]; every position of an interval is on the reported side of the threshold, and every position of the contig on that side is in an interval (same conditions on coverage as GetCvg) |
| AsmQC.SweepBoth | src/Validation/asmQC.cc:265-292 | the merged loop takes every start (the assert at line 292) and keeps the sweep state: intervals ordered and within [0, last], sound up to the last bound taken, and every earlier position on the reported side reported or in the open interval |
| AsmQC.SweepEnds | src/Validation/asmQC.cc:293-302 | the loop over the remaining ends keeps the same sweep state and brings coverage to 0 |
| AsmQC.TakeStart | src/Validation/asmQC.cc:271-279 | the loop body for a start: coverage goes up by one and the sweep state is kept, now with the start as the last bound taken |
| AsmQC.TakeEnd | src/Validation/asmQC.cc:280-288 | the loop body for an end, shared by both loops as lines 294-301 repeat it: coverage goes down by one and the sweep state is kept |
| AsmQC.SweptStep | src/Validation/asmQC.cc:271-301 | one loop body, a start or an end, as the source writes it: an interval closes exactly when coverage leaves the reported side and opens when it enters it, and the sweep state is kept |
| AsmQC.CovBetween | src/Validation/asmQC.cc:265-302 | between the last bound taken and the next one the coverage is the starts taken less the ends taken (`cvg`) |
| AsmQC.TracksFinish | src/Validation/asmQC.cc:303-304 | after the last end, the final interval from s to ctglen in the mode below makes the report sound and complete |
| Sorting.Sort | src/Validation/asmQC.cc:262-263 | sorted, and a permutation of the input |
| Sorting.SortBounded | src/Validation/asmQC.cc:262-263 | sorting keeps elements within any bounds the input respects |
| Sorting.CountLeSort | src/Validation/asmQC.cc:262-263 | sorting keeps how many elements are at most x |
| Fasta.Complement | src/Common/fasta.cc:15-29 | the entry of the corrected table (W to W, w to w; see Findings) for a code below 128, itself below 128; the table as written is Fasta.ComplementAsWritten |
| Fasta.ComplementBases | src/Common/fasta.cc:15-19 | A↔T and C↔G in both cases, both directions of each iff; every IUPAC code but U goes to its partner; ' ', '*', '-', '.', '_' map to themselves |
| Fasta.ComplementTwice | src/Common/fasta.cc:15-29 | complementing a paired character twice gives it back |
| Fasta.ComplementAsWritten | src/Common/fasta.cc:15-29 | the table as written: equal to Complement except that W goes to S and w to s |
| Fasta.WeakBaseAsWritten | src/Common/fasta.cc:18-19 | as written, W and S both complement to S, so W complemented twice is S |
| Fasta.ReverseComplementOf | src/Common/fasta.cc:271-293 | same length; entry k is the complement of entry n-1-k |
| Fasta.ReverseComplement | src/Common/fasta.cc:245-293 | the array becomes the reverse complement of its old contents, middle character of odd lengths included |
| Fasta.SwapComplement | src/Common/fasta.cc:280-287 | one swap step: both ends exchanged and complemented, the rest untouched |
| Fasta.ReverseComplementInvolution | src/Common/fasta.cc:245-293 | the reverse complement taken twice restores any string of IUPAC codes (but U) and gap characters |
| Fasta.Reversed | src/Common/fasta.cc:320-339 | same length; entry k is entry n-1-k |
| Fasta.ReverseString | src/Common/fasta.cc:297-339 | the array becomes its old contents reversed |
| Fasta.ReversedInvolution | src/Common/fasta.cc:297-339 | reversing twice restores the string |
| Fasta.ColumnStep | src/Common/fasta.cc:42-56 | the line counter reaches the width exactly where a line break goes, and then restarts |
| Fasta.FastaPrint | src/Common/fasta.cc:33-62 | writes the header line unless hdr is NULL, then s with a line break before each character that follows a full line, then a newline |
| Fasta.LayoutLines | src/Common/fasta.cc:36-39 | for a positive width the body is s in lines of exactly width characters, the last holding the rest |
| Fasta.LayoutShort | src/Common/fasta.cc:47-57 | a string no longer than the width is printed on one line |
| Fasta.LayoutOmitBreaks | src/Common/fasta.cc:47-57 | deleting the inserted line breaks gives back s |
| Fasta.FastaPrintN | src/Common/fasta.cc:66-93 | prints like FastaPrint on the first n characters, nothing of s for negative n |
| Fasta.FastaPrintSkip | src/Common/fasta.cc:97-131 | prints like FastaPrint on s without the characters in skip; the width counts printed characters |
| Fasta.Omit | src/Common/fasta.cc:113-126 | no character of the result is in skip, and it is no longer than s |
| Fasta.PrintSkipNothing | src/Common/fasta.cc:97-131 | with nothing of s in skip, the skipping printer prints what FastaPrint does |
| Fasta.IndexOf | src/Common/fasta.cc:212-217 | the first index holding c, or the end of the input |
| Fasta.SkipBlanks | src/Common/fasta.cc:219-224 | the first index not holding a blank, or the end of the input |
| Fasta.ParseHeader | src/Common/fasta.cc:212-228 | where the header starts and the line after it, none when the input ends first; the header holds no newline |
| Fasta.ParseFasta | src/Common/fasta.cc:197-241 | not found: nothing read and the whole input consumed; found: the next index is the end or the next '>', and the data holds no white space |
| Fasta.ScanTo | src/Common/fasta.cc:212-217 | the skip loop stops at the first c or the end |
| Fasta.ScanBlanks | src/Common/fasta.cc:219-224 | the blank loop stops at the first non-blank or the end |
| Fasta.ReadHeader | src/Common/fasta.cc:212-228 | found exactly when ParseHeader finds a header, with the same header and position |
| Fasta.ReadData | src/Common/fasta.cc:230-238 | every non-space character up to the next '>', which is not consumed |
| Fasta.FastaRead | src/Common/fasta.cc:197-241 | the method's result is ParseFasta's |
| Fasta.FastaReadAfterPrint | src/Common/fasta.cc:197-241 | reading what FastaPrint wrote gives back the header and s, and stops where the next record begins |
| Fasta.PrintedBody | src/Common/fasta.cc:33-62 | the printed body has no '>' and squeezes back to s |
| Fasta.ParseFastaRecord | src/Common/fasta.cc:230-238 | a header line plus a body without '>' reads as the header and the body's non-space characters |
| Fasta.SqueezeLayout | src/Common/fasta.cc:230-235 | dropping white space from the printed body gives back s |
| Fasta.ParseQual | src/Common/fasta.cc:135-193 | not found: nothing read and the whole input consumed; found: the next index is the end or the next '>' |
| Fasta.ReadValues | src/Common/fasta.cc:170-190 | the value loop's codes are the scan of the text up to the next '>' |
| Fasta.FastaQualRead | src/Common/fasta.cc:135-193 | the method's result is ParseQual's |
| Fasta.ScanRender | src/Common/fasta.cc:172-187 | scanning values written as decimals, each followed by a blank, emits each value's code |
| Fasta.ScanUnterminated | src/Common/fasta.cc:170-190 | a last number that no white space ends is not emitted |
| Fasta.QualReadAfterRender | src/Common/fasta.cc:135-193 | reading a record of blank-terminated values gives back their codes and stops where the next record begins |
| Fasta.ParseQualRecord | src/Common/fasta.cc:170-190 | a header line plus a body without '>' reads as the header and the codes the scan of the body emits |

## Findings

| source | as written | input that shows it | evidently intended | confidence | as-written member | corrected member |
|---|---|---|---|---|---|---|
| src/Common/fasta.cc:18-19 | the table maps W to S and w to s; S already maps to S | `Complement('W')` is `'S'`, and complementing twice gives `'S'`, not `'W'` | W (A or T) is its own IUPAC complement, as S (C or G) is | high, not executed | Fasta.WeakBaseAsWritten | Fasta.ComplementTwice |

`Fasta.ComplementAsWritten` is the table as written. `Fasta.Complement` maps W to W and w to w, and the rest of the model uses it.

## Left out

- Name-based overloads of Message_t (`exists`, `getField`, `removeField` and `setField` by name; `setMessageCode` by name) are left out. So are `Encode` and `Decode`.
  - The NCode registry is not part of this model.
  - An NCode is represented by its mnemonic, so equal codes are equal mnemonics.
- `Message_t::read` and `Message_t::write` are left out, along with the `IMessagable_t` interface. They are declared without bodies in the modelled files.
- Messages.Message.SetField: its body is not in the modelled header. It follows the documented contract: data that contains a newline but does not end in one is rejected.
- The `Universal_t` members of Fragment_t (ids, status, comment) and the copy constructor are left out. The base class is not part of this model, and copying is value assignment here.
- Fragments.Fragment.ReadRecord: the stream state is a `Result`. A corrupt stream leaves the object unchanged, which is a modelling choice. The repository's reader body is not part of this model, and neither is its stream state after a failed read.
- Fragments.Fragment.WriteRecord: a stream being ready (`good()`) is a boolean parameter.
- The biserial byte layout is this model's own: little-endian 32-bit ids and a base-128 length prefix. The repository's codec is not part of this model.
- `Bank_k::FRAGMENT` is defined outside the modelled files. Its value is represented by the mnemonic "FRG".
- `getSz`, the short/long classification and every floating-point computation in asmQC.cc are left out (floating point).
- `main`, `GetOptions` and the bank access of asmQC.cc are left out, as is `dumpmates`. They are I/O and option parsing.
- AsmQC.MateLen: Pos_t overflow is not modelled (32-bit wrap-around of `Len - a.getBegin()` and of the difference); integers are unbounded.
- AsmQC.TileRange: the same applies to the sums of offset and range.
- AsmQC.GetCvg: the ranges and the result are sequences, and the result is returned rather than written through a reference.
  - Positions are integers and an interval (b, e) holds the positions b <= x < e, the convention of the sweep (a range's end is taken after the starts at the same position).
  - The bound, order and coverage guarantees are stated for ranges inside the contig only, the case the validator calls it in. For other ranges the source promises nothing.
  - With a negative threshold in the mode below the source reports the whole contig whatever the coverage, so soundness there is not promised.
  - In the mode above with a threshold of 0 or less nothing is reported, so completeness there is not promised.
- AsmQC.Sweep: the same conditions as AsmQC.GetCvg, stated over the sorted starts and ends rather than the ranges. Its two loops are the methods SweepBoth and SweepEnds, and the two branches of the loop body are TakeStart and TakeEnd, so that each is proved on its own.
- `std::sort` is modelled by an insertion-sort function. Any sorting of the same values gives the same sorted sequence.
- Fasta.Complement: characters with codes of 128 and above are excluded by a precondition, because the source would index past its table.
- Both overloads of `Reverse_Complement` and of `Reverse_String` are the one array method each. For the `char*` overloads the array holds the characters before the NUL.
- Fasta.FastaPrintN: requires n <= |s|, since the source reads `s[i]` for every i < n.
- Fasta.FastaQualRead: `MIN_QUALITY` is defined outside the modelled files, so it is the parameter `minQuality`.
  - The value being read is unbounded, so `int` overflow of `10 * val + digit` is not modelled.
  - The char conversion is taken modulo 256.
- The comments of `Fasta_Read` and `Fasta_Qual_Read` speak of dropping trailing spaces from the header. The code skips leading blanks and keeps the rest of the line, and the model follows the code.
- `FILE*` handles (ungetc, EOF signalling, write errors) are modelled by strings and indices. A C string is the sequence of its characters before the NUL.
