# A verified model of libEtPan's core algorithms

libEtPan is a C mail library. Most of it moves bytes between a program and a server, but some of
its files hold self-contained algorithms whose correctness is not visible in any single function.
This project models nine of them in Dafny and proves what they are for.

* **Argument permutation** (`Arith`, `Rotation`, `Partition`, `Getopt`). `permute_args` exchanges two
  adjacent blocks in place by following gcd-many cycles; `getopt_internal` calls it from a state
  machine that goes on from call to call. `Rotation` proves that the cycles are disjoint and cover
  the range, `Getopt.Parser` is the state machine with its static variables as fields, and
  `Getopt.ParseAll` is a whole run: a stable partition of the argument vector.
* **Modified UTF-7** (`Bits`, `Unicode`, `Mutf7`, `Mutf7Decoder`, `Mutf7Encoder`, `Mutf7Canonical`,
  `Mutf7Answers`).
  The mailbox-name encoding of section 5.1.3 of RFC 3501. `Mutf7` says what a text stands for and what
  a list of code points is written as; the decoder and the encoder are the loops of `charconv.c`, with
  their accumulators and buffers, proved against that; the round trip and the canonical form are
  theorems about it.
* **Buffered stream and framing** (`MailStream`, `Crlf`, `Sending`, `Multiline`, `Framing`). The low stream answers
  each call by an arbitrary function of the call number and the size asked for, so it may cut, refuse
  and fail as it likes. `Sending` is a message as the writes that send it. On top of both: partial writes,
  buffered reads, lines assembled across refills, line-end fixing, and the transparency procedure of section 4.5.2 of RFC 5321.
* **MD5 and HMAC-MD5** (`Md5Spec`, `Md5Transform`, `Md5Answer`, `Md5Stream`, `Hmac`). `Md5Spec` is section 3 of
  RFC 1321; the rest is the code, with a context that is fed piece by piece, and the definition of
  section 2 of RFC 2104.
* **Message registry** (`Registry`). Two indexes over message objects, reference counts, and the
  mark-and-sweep refresh of a folder.
* **Semaphore** (`Semaphore`). The semaphore made of a mutex and a condition variable, as a transition
  system over any number of threads with spurious wakeups and overtaking.
* **Duplicate-key scanner** (`JsonText`, `JsonScan`). `JsonText` is the grammar of RFC 8259 as trees that
  keep every character; the scanner is proved against the trees.
* **Inverse of gmtime** (`Calendar`, `GmTime`). The Gregorian calendar by its next-day rule, its closed
  form, and the bit search of `mail_mkgmtime`.
* **Growable string** (`MmapString`). The buffer behind the line reader, as a sequence in an array.

Code that updates objects or arrays in place is modelled by classes and methods that do the same, and
each method is proved against a function of the old state; what the algorithm is for is then proved
about those functions. Bytes are integers from 0 to 255, machine words are integers below 2^32 with
wrap-around written out, and `size_t` has 64 bits.

A definition that both the model of the code and its specification rely on is pinned once more from
outside, by numbers, truth tables or known answers: the digest of "abc" from RFC 1321, a mailbox name from
RFC 3501, character classes by code point, the cases of the scan of an argument vector, dates.

Where the code does not do what its callers would expect, the model follows the code:

* `mail_mkgmtime` returns -1 both for fields that match no instant and for fields that count up to the
  second before the epoch, such as second 59 of its minute or second 119 of the minute before
  (`GmTime.RightAnswerLooksWrong`, `GmTime.LongMinuteLooksWrong`); `GmTime.WrongMeansNotFound` says for
  which fields -1 is unambiguous.
* The sending functions treat a short write as a complete one, so a piece of two bytes or more that
  exceeds the write buffer can be cut while the sender reports success. Success means that the whole
  message was accepted, whatever the low stream does, exactly when no piece is like that
  (`Sending.MessageArrivesExactlyIfFits`, `Framing.MessageCanBeCut`).
* `mailstream_read_multiline` does not notice the end of the stream: it ends exactly when a line that ends
  the text is pending, and otherwise reads empty lines for ever (`Multiline.EndsExactlyOnText`,
  `Multiline.IncompleteGoesOn`).
* `MD5Update` computes `i + 63` in 32 bits; inputs within 63 bytes of 2^32 can make it wrap
  (`Md5Stream.GuardFailsOnWrap` says exactly when, `Md5Stream.GuardFailsHere` shows one).
* A message with a NUL byte is not transparent: the receiver reads lines as C strings
  (`Multiline.Transparency`).
* A refresh of the registry counts the lost messages right exactly when no UID is listed twice
  (`Registry.FolderRefInfo.MatchListing`, `Registry.NoRepeats`), and finds every message it has to
  reference exactly when every listed message has a UID (`Registry.RegisteredExactlyIfNamed`). Adding a
  message keeps the two indexes in agreement exactly when no other message has its UID
  (`Registry.FolderRefInfo.FolderMessageAdd`). Freeing a list uses no freed message exactly under the
  condition of `Registry.FreeableExactly`.
* The semaphore's count wraps at 2^32; only then do posts get lost (`Semaphore.RefinesAtomicSemaphore`,
  `Semaphore.CountCanWrap`).

## Model

| member | source | states |
|---|---|---|
| Rotation.ComputeGcd | src/bsd/getopt_long.c:151-163 | the remainder loop computes the gcd and never divides by zero |
| Rotation.GcdIsGreatestCommonDivisor | src/bsd/getopt_long.c:151-163 | the result divides both block lengths and is an integer combination of them |
| Rotation.PosReturns | src/bsd/getopt_long.c:180-199 | a cycle is back at its start after (n + p) / gcd steps, the length the code uses |
| Rotation.PosDistinct | src/bsd/getopt_long.c:180-199 | a cycle visits no position twice before that |
| Rotation.PosCovers | src/bsd/getopt_long.c:180-199 | cycle i visits every position of the residue class of i |
| Rotation.CyclesPartition | src/bsd/getopt_long.c:180-199 | the gcd-many cycles are pairwise disjoint and together visit every position of the range |
| Rotation.FollowCycle | src/bsd/getopt_long.c:186-199 | the inner loop moves every word of one cycle to its target and touches nothing else |
| Rotation.PermuteArgs | src/bsd/getopt_long.c:171-200 | leaves exactly the second block followed by the first, each in order, and nothing else changed |
| Partition.ArrangedIsPermutation | src/bsd/getopt_long.c:455-489 | consumed, then skipped, then unexamined words are a permutation of the original vector |
| Getopt.ScanAtNonOption | src/bsd/getopt_long.c:433-468 | a word that is not a dash with something behind it is skipped, ends the scan, or is reported, by the mode |
| Getopt.ScanAtDashes | src/bsd/getopt_long.c:472-489 | `--` is consumed and ends the scan |
| Getopt.ScanAtOption | src/bsd/getopt_long.c:566-590 | an option is consumed with the words it takes, whatever they look like, or with all there are if they are too few |
| Getopt.ArgumentIsTaken | src/bsd/getopt_long.c:566-590 | an argument that looks like an option is not shown as one |
| Getopt.SkippedAreNonOptions | src/bsd/getopt_long.c:433-468 | only non-options are ever skipped, and only when permuting |
| Getopt.UnpermutedStays | src/bsd/getopt_long.c:448-454 | in the modes that do not permute the vector stays as it is |
| Getopt.Parser.BlocksAreNonEmpty | src/bsd/getopt_long.c:417-485 | whenever a permutation is due, both blocks are non-empty and in range, so the gcd never divides by zero |
| Getopt.Parser.Settle | src/bsd/getopt_long.c:415-431 | ending a scan leaves consumed words, skipped words and unexamined words in this order, each in original order, with optind at the first non-option |
| Getopt.Parser.Gather | src/bsd/getopt_long.c:455-464 | a permutation in mid-scan puts the skipped words in one block behind all words consumed so far |
| Getopt.Parser.Skip | src/bsd/getopt_long.c:455-467 | a non-option joins the skipped block and the invariant is kept |
| Getopt.Parser.ScanNonOptions | src/bsd/getopt_long.c:412-468 | the loop over non-options either ends the run, hands out one word, or stops at an option, and does not change what the whole run will do |
| Getopt.Parser.StartOption | src/bsd/getopt_long.c:469-490 | `--` ends the run with `--` among the consumed words; any other option word starts as many letters as it has |
| Getopt.Parser.ReturnLetter | src/bsd/getopt_long.c:498-594 | each call returns the word and takes one letter; with the last one optind moves past the word and its separate arguments, or to the end of the vector |
| Getopt.Parser.Next | src/bsd/getopt_long.c:373-594 | one call: what it returns is the next word of the plan made from the original vector, and -1 comes with the final arrangement |
| Getopt.Parser.Run | src/bsd/getopt_long.c:373-594 | calls until -1 show the planned words in order and end in the planned arrangement, in every mode and from every state between two calls |
| Getopt.WholeScan | src/bsd/getopt_long.c:409-490 | the plan of a run from word 1 is a permutation and skips only non-options |
| Getopt.ParseAll | src/bsd/getopt_long.c:624-634 | a whole permuting run: argv ends as options, then non-options, then unexamined words, each in original order, with optind at the first non-option |
| Bits.BytesRoundTrip | src/data-types/charconv.c:209-219 | bytes taken from a bit string give back the bytes that were put in, whatever is left over |
| Bits.ShiftsAreArithmetic | src/data-types/charconv.c:373-395 | shift and mask are multiplication, division and remainder by a power of two |
| Unicode.DecodeUtf8CharSound | src/data-types/charconv.c:308-371 | what the UTF-8 reader accepts is the shortest form of a scalar value (RFC 3629), and the position moves over just that |
| Unicode.DecodeUtf8CharComplete | src/data-types/charconv.c:308-371 | the encoding of every scalar value is accepted |
| Unicode.DecodeUtf8Sound | src/data-types/charconv.c:467-473 | a string accepted to its end is the UTF-8 of the code points read |
| Unicode.DecodeUtf8Complete | src/data-types/charconv.c:467-473 | the UTF-8 of any code points is accepted to its end, and gives them back |
| Unicode.Utf16RoundTrip | src/data-types/charconv.c:118-150 | UTF-16, surrogate pairs included, decodes to the code points it was made from |
| Unicode.DecodeUtf16Sound | src/data-types/charconv.c:118-150 | whatever UTF-16 is accepted is the encoding of the result, so lone surrogates and odd lengths are refused |
| Mutf7.AlphabetRoundTrip | src/data-types/charconv.c:68-81 | the decoder's table inverts the encoder's alphabet, both ways |
| Mutf7.Base64RoundTrip | src/data-types/charconv.c:373-440 | a base64 run holds the bits it was made from, followed by zero padding only |
| Mutf7.RunRoundTrip | src/data-types/charconv.c:190-244 | every run of code points survives base64, including the check on padding bits |
| Mutf7.EncodeDecode | src/data-types/charconv.c:152-256 | decoding what is written for any code points gives their UTF-8 |
| Mutf7Canonical.CanonicalIsPrintable | src/data-types/charconv.c:442-524 | canonical texts hold only bytes 0x20 to 0x7e |
| Mutf7Canonical.EncodeIsCanonical | src/data-types/charconv.c:442-524 | encoder output is canonical: runs are non-empty, closed, padded with zeros, hold nothing that stands for itself, and are not followed by another run |
| Mutf7Canonical.CanonicalIsEncode | src/data-types/charconv.c:442-524 | every canonical text is what the encoder writes for some code points |
| Mutf7Canonical.CanonicalIffEncoded | src/data-types/charconv.c:442-524 | the canonical texts are exactly the encoder's outputs |
| Mutf7Canonical.CanonicalIsUnique | src/data-types/charconv.c:152-256 | two canonical texts that decode to the same bytes are the same text |
| Mutf7Canonical.DecodeIsWellFormed | src/data-types/charconv.c:152-256 | decoding ASCII input yields well-formed UTF-8 whenever it succeeds |
| Mutf7Answers.PrintableIsCopied | src/data-types/charconv.c:83-86 | printable ASCII other than `&` is written as it is |
| Mutf7Answers.AmpersandIsEscaped | src/data-types/charconv.c:486-497 | `&` is written as `&-` |
| Mutf7Answers.OthersAreOneRun | src/data-types/charconv.c:498-507 | all other code points that stand together are one base64 run of their UTF-16 |
| Mutf7Answers.CanonicalRunsAreNeeded | src/data-types/charconv.c:442-524 | in a canonical text runs decode only to code points below 0x20 or above 0x7e, and bytes outside are from 0x20 to 0x7e |
| Mutf7Answers.AlphabetIs | src/data-types/charconv.c:68-81 | the alphabet is A-Z, a-z, 0-9, + and a comma |
| Mutf7Answers.ThreeBytes | src/data-types/charconv.c:373-395 | three bytes are four characters of six bits each |
| Mutf7Answers.LastBytes | src/data-types/charconv.c:425-440 | one or two last bytes are two or three characters, padded with zeros |
| Mutf7Answers.Utf16Is | src/data-types/charconv.c:397-423 | UTF-16 is written high byte first, with surrogates beyond 0xffff |
| Mutf7Answers.TaipeiIsEncoded | src/data-types/charconv.c:442-524 | a name of section 5.1.3 of RFC 3501 between two slashes is encoded as given there |
| Mutf7Answers.SurrogatesAreEncoded | src/data-types/charconv.c:397-423 | U+1F600 is written as `&2D3eAA-` |
| Mutf7Decoder.AppendUtf8 | src/data-types/charconv.c:88-116 | appends the UTF-8 of a scalar value and refuses everything else |
| Mutf7Decoder.ReadUnits | src/data-types/charconv.c:127-143 | reads one unit, or a high surrogate with the low one it must have |
| Mutf7Decoder.DecodeUtf16be | src/data-types/charconv.c:118-150 | appends the UTF-8 of the whole buffer exactly when it is well-formed UTF-16, in at most twice its size |
| Mutf7Decoder.ShiftIn | src/data-types/charconv.c:204-210 | six more bits enter at the low end; the accumulator fits in 14 bits |
| Mutf7Decoder.EmitByte | src/data-types/charconv.c:211-215 | a byte leaves at the high end and no bit is lost |
| Mutf7Decoder.Drain | src/data-types/charconv.c:211-219 | after moving whole bytes out fewer than 8 bits are left, and bytes with bits are the same bit string |
| Mutf7Decoder.ReadRun | src/data-types/charconv.c:190-220 | reads the maximal base64 run within the scratch buffer; bytes and left-over bits are exactly its bits |
| Mutf7Decoder.RunChecks | src/data-types/charconv.c:222-237 | the checks after the loop accept exactly the runs that stand for code points |
| Mutf7Decoder.DecodeOneRun | src/data-types/charconv.c:190-244 | one run is decoded, or refused, as the definition says, and its dash is taken |
| Mutf7Decoder.DecodeText | src/data-types/charconv.c:152-256 | succeeds on exactly the texts that stand for something, writes what they stand for and a NUL, within 4n + 1 bytes on every input |
| Mutf7Encoder.Output.Reserve | src/data-types/charconv.c:268-296 | makes room and keeps the contents; fails exactly when size_t cannot hold the size |
| Mutf7Encoder.ShiftByte | src/data-types/charconv.c:373-395 | what was written with what the accumulator still holds is the base64 of all bits given |
| Mutf7Encoder.ShiftCodepoint | src/data-types/charconv.c:397-423 | the same for a unit or a surrogate pair |
| Mutf7Encoder.FlushShift | src/data-types/charconv.c:425-440 | the last bits are padded with zeros and the run is closed |
| Mutf7Encoder.EncodePlain | src/data-types/charconv.c:475-497 | a character that stands for itself closes an open run and is written, `&` as `&-` |
| Mutf7Encoder.EncodeShifted | src/data-types/charconv.c:498-507 | another character opens a run if none is open and enters it |
| Mutf7Encoder.EncodeText | src/data-types/charconv.c:442-524 | a string that is well-formed UTF-8 is written as its encoding and a NUL, exactly unless that or the first buffer has no size; a conversion error means that it is not well-formed |
| Mutf7Encoder.MailboxNameRoundTrip | src/data-types/charconv.c:442-524 | every well-formed byte string is returned exactly when its encoding is decoded, embedded NUL and `&` included |
| MailStream.ReliablePump | src/data-types/mailstream.c:109-150 | if no write fails and one of any 16 takes something, everything is taken however small the pieces |
| MailStream.SixteenthZeroEnds | src/data-types/mailstream.c:128-136 | fifteen writes in a row may take nothing, and the sixteenth ends the attempt |
| MailStream.ReliableIs | src/data-types/mailstream.c:109-150 | which low streams count as reliable, in numbers |
| MailStream.Stream.WriteDirect | src/data-types/mailstream.c:109-150 | terminates, and takes from the caller exactly what the low stream took, in order |
| MailStream.Stream.WriteToInternalBuffer | src/data-types/mailstream.c:100-107 | appends to the write buffer within its bounds |
| MailStream.Stream.Write | src/data-types/mailstream.c:153-170 | bytes taken by the low stream followed by the buffer are the bytes reported accepted; the result, the calls made and the bytes buffered, from the answers of the low stream |
| MailStream.Stream.Flush | src/data-types/mailstream.c:173-211 | terminates and conserves: bytes not taken stay at the front of the buffer; succeeds exactly when all are taken |
| MailStream.Stream.ReadFromInternalBuffer | src/data-types/mailstream.c:213-227 | moves the front of the read buffer out and the rest to the front |
| MailStream.Stream.Read | src/data-types/mailstream.c:230-282 | delivers a prefix of what is pending and keeps the rest; does not ask the low stream when the buffer holds enough |
| MailStream.Stream.FeedReadBuffer | src/data-types/mailstream.c:325-341 | fills only an empty buffer, loses nothing, and 0 means the end of the stream |
| Crlf.FixLine | src/data-types/mailstream_helper.c:354-408 | sending a message is sending its first line, with a doubled dot where needed, and then the rest |
| Crlf.LineEndIsFixed | src/data-types/mailstream_helper.c:274-324 | CR LF, a bare CR and a bare LF are all sent as CR LF |
| Crlf.ByteIsFixed | src/data-types/mailstream_helper.c:376-384 | every other byte is sent as it is, a dot at the beginning of a quoted line twice |
| Crlf.WireOfThreeLines | src/data-types/mailstream_helper.c:448-469 | one message, byte by byte |
| Crlf.NormIsPaired | src/data-types/mailstream_helper.c:260-352 | what is sent pairs every CR with a following LF and every LF with a preceding CR |
| Crlf.PairedIsUnchanged | src/data-types/mailstream_helper.c:260-352 | a message that is so paired is sent unchanged |
| Crlf.NormFixesExactlyPaired | src/data-types/mailstream_helper.c:354-408 | sending changes nothing exactly when the message is paired, and nothing the second time |
| Multiline.EveryLineEndIsRemoved | src/data-types/mailstream_helper.c:45-55 | a trailing LF and then a trailing CR are dropped, each on its own |
| Multiline.CStrEndsAtNul | src/data-types/mailstream_helper.c:155-162 | a line is read up to its first NUL |
| Multiline.DotsAreRead | src/data-types/mailstream_helper.c:124-131 | only a dot alone ends a text, and one leading dot is dropped from any other line |
| Multiline.BareLfReads | src/data-types/mailstream_helper.c:134-180 | a line ended by LF alone is read as one ended by CR LF, the dot alone included |
| Multiline.TextIsRead | src/data-types/mailstream_helper.c:134-180 | a text that is ended is read in at most as many turns of the loop as bytes are pending |
| Multiline.IncompleteGoesOn | src/data-types/mailstream_helper.c:134-180 | without the line that ends it no number of turns ends the loop, and each adds two bytes or more |
| Multiline.EndsExactlyOnText | src/data-types/mailstream_helper.c:134-180 | the loop ends exactly when that line is pending |
| Multiline.NothingPendingGoesOn | src/data-types/mailstream_helper.c:134-180 | on an exhausted stream the loop goes on for ever |
| Multiline.WireReadsBack | src/data-types/mailstream_helper.c:134-180 | for every message and all bytes after it on the wire, the receiver gets it line by line and leaves exactly those bytes |
| Multiline.ReceivedIffNulFree | src/data-types/mailstream_helper.c:134-180 | what is received is the normalised message with a final CRLF exactly when there is no NUL; else it is shorter |
| Multiline.Transparency | src/data-types/mailstream_helper.c:134-180 | transparency (section 4.5.2 of RFC 5321) holds exactly for the NUL-free messages |
| Framing.ScanLine | src/data-types/mailstream_helper.c:267-313 | finds the first line end, and whether it has to be replaced |
| Sending.FlatMessage | src/data-types/mailstream_helper.c:354-408 | the writes for a message, one after the other, are the message with canonical line ends, dots doubled if asked |
| Sending.FlatData | src/data-types/mailstream_helper.c:448-469 | the writes of a whole sending are the message as it travels, with its end |
| Sending.SendsReliably | src/data-types/mailstream_helper.c:354-408 | on a reliable low stream all writes succeed and everything is accepted |
| Sending.FitsSendsWhole | src/data-types/mailstream_helper.c:354-408 | if no piece of two bytes or more exceeds the buffer, success on any low stream means that everything was accepted |
| Sending.CutIsMissed | src/data-types/mailstream_helper.c:315-324 | if some piece does, a low stream that takes one byte of the first such piece makes all writes and the flush succeed with bytes missing |
| Sending.WholeExactlyIfFits | src/data-types/mailstream.c:153-170 | so success means the whole, on every low stream and from every state, exactly when no piece can be cut |
| Sending.MessageArrivesExactlyIfFits | src/data-types/mailstream_helper.c:448-469 | the same for a message and a buffer size: what mailstream_send_data reports is true exactly for the messages whose pieces fit |
| Framing.SendDataLine | src/data-types/mailstream_helper.c:260-352 | reports the line's length exactly when no write reports an error, and leaves the stream as those writes do, whatever was cut |
| Framing.LongLineCanBeCut | src/data-types/mailstream_helper.c:315-324 | for every line with a piece that can be cut there is a low stream on which the whole length is reported and less was accepted |
| Framing.MessageCanBeCut | src/data-types/mailstream_helper.c:448-469 | for every message with such a piece there is a low stream that has less than the message when 0 is returned |
| Framing.SendDataCrlf | src/data-types/mailstream_helper.c:354-408 | 0 exactly when no write reports an error; which bytes are accepted, whatever the low stream does; the whole message in normal form if no piece can be cut |
| Framing.SendData | src/data-types/mailstream_helper.c:448-469 | 0 exactly when writes and flush report no error, and then the low stream has all that was accepted: the message in normal form, quoted, and the terminator, if no piece can be cut |
| Framing.GetDataCrlfSize | src/data-types/mailstream_helper.c:550-578 | the size announced is the number of bytes sent |
| Framing.ReadLenAppend | src/data-types/mailstream_helper.c:65-77 | appends bytes that are in the buffer; the inner read never reaches the low stream |
| Framing.AppendBuffered | src/data-types/mailstream_helper.c:85-97 | takes the bytes through the first LF from the buffer, or all of them when there is none |
| Framing.ReadLineAppend | src/data-types/mailstream_helper.c:79-112 | returns the pending bytes through the first LF however the stream is cut; nothing is lost even on failure |
| Framing.RemoveTrailingEol | src/data-types/mailstream_helper.c:45-55 | the code's two steps do that |
| Framing.IsEndMultiline | src/data-types/mailstream_helper.c:124-131 | the two bytes it looks at decide whether the line ends the text |
| Framing.CString | src/data-types/mailstream_helper.c:155-162 | what the append functions see of a line |
| Framing.ReadLineRemoveEol | src/data-types/mailstream_helper.c:114-122 | the same line without its line end |
| Framing.ReadMultilineTurn | src/data-types/mailstream_helper.c:151-163 | one turn reads a line, ends on the dot, and appends the line less a leading dot otherwise |
| Framing.ReadMultilineFor | src/data-types/mailstream_helper.c:134-180 | after any number of turns on any pending bytes the loop is where the definition says: done, failed, or going on with at least two bytes a turn |
| Framing.ReadMultiline | src/data-types/mailstream_helper.c:134-180 | on pending bytes that let it end, returns the text up to its terminator and leaves what follows |
| Framing.SendAndReceive | src/data-types/mailstream_helper.c:134-180 | sent over one stream and received over another that cuts it anyhow, a message arrives whole exactly when it is NUL-free, and what follows is untouched |
| Md5Spec.HashAppend | src/data-types/md5.c:102-135 | hashing whole blocks and then more is hashing all of it |
| Md5Spec.PadIsWhole | src/data-types/md5.c:137-152 | a padded message is a whole number of blocks |
| Md5Transform.PicksWord | src/data-types/md5.c:154-203 | the index formulas pick the words of the tables of RFC 1321 |
| Md5Transform.PicksFunction | src/data-types/md5.c:154-203 | the expressions of the loop are the functions F, G, H and I |
| Md5Transform.BodyIsOperation | src/data-types/md5.c:154-203 | the sums of the loop body, in the code's order, are one operation of RFC 1321 |
| Md5Transform.RolesStep | src/data-types/md5.c:154-203 | passing the registers on is what changing their roles does |
| Md5Transform.Transform | src/data-types/md5.c:154-203 | the 64-step loop is the compression function of section 3.4 of RFC 1321 |
| Md5Transform.LoadLe32 | src/data-types/md5.c:219-231 | 64 bytes become the 16 little-endian words |
| Md5Transform.StoreLe32 | src/data-types/md5.c:205-217 | the registers become the 16 bytes of the digest |
| Md5Answer.TableOfF | src/data-types/md5.c:154-203 | F as a truth table |
| Md5Answer.TableOfG | src/data-types/md5.c:154-203 | G as a truth table |
| Md5Answer.TableOfH | src/data-types/md5.c:154-203 | H as a truth table |
| Md5Answer.TableOfI | src/data-types/md5.c:154-203 | I as a truth table |
| Md5Answer.DigestOfAbc | src/data-types/md5.c:92-203 | the digest of "abc" is the one in appendix A.5 of RFC 1321 |
| Md5Stream.CountMore | src/data-types/md5.c:114-118 | two 32-bit words with carry count 8 times the length modulo 2^64 |
| Md5Stream.IndexOf | src/data-types/md5.c:113 | the low word gives the position in the block buffer |
| Md5Stream.LoopEndIs | src/data-types/md5.c:120-134 | the loop over blocks has to stop at the last block boundary |
| Md5Stream.GuardFailsOnWrap | src/data-types/md5.c:120-134 | the loop guard is right exactly when its sum does not wrap, always up to 2^32 - 64 bytes |
| Md5Stream.GuardFailsHere | src/data-types/md5.c:120-134 | it is wrong after one byte followed by 2^32 - 1 others |
| Md5Stream.Context.TransformBlocks | src/data-types/md5.c:120-134 | whole blocks are hashed straight from the input, and fewer than 64 bytes are left |
| Md5Stream.Context.Update | src/data-types/md5.c:102-135 | keeps the invariant for any piece: state is the fold over full blocks, the buffer holds the rest, the counter the length |
| Md5Stream.Context.Final | src/data-types/md5.c:137-152 | the digest of RFC 1321 of all bytes fed in whatever pieces, and a wiped context |
| Md5Stream.CountBytes | src/data-types/md5.c:137-152 | the stored counter is the 64-bit length field |
| Md5Stream.PaddedIsPad | src/data-types/md5.c:137-152 | what is fed at the end is the padding of sections 3.1 and 3.2 |
| Hmac.HmacContext.constructor | src/data-types/md5.c:246-286 | the two contexts are those of the padded keys, for all key lengths |
| Hmac.HmacContext.Import | src/data-types/md5.c:302-313 | contexts rebuilt from a precalculated state are good for all later updates although their block buffers are empty |
| Hmac.HmacContext.Final | src/data-types/md5.c:315-321 | the result is the HMAC of section 2 of RFC 2104 |
| Hmac.SwapTwice | src/data-types/md5.c:288-313 | the byte order changed by the export is changed back by the import |
| Hmac.SwapReverses | src/data-types/md5.c:288-313 | exported words have their high byte first on either host |
| Hmac.TableOfXor | src/data-types/md5.c:246-286 | exclusive or as a truth table |
| Hmac.Pads | src/data-types/md5.c:246-286 | the loop builds the inner and outer padded keys |
| Hmac.PrecalcKey | src/data-types/md5.c:288-300 | gives a state from which the key can be imported |
| Hmac.ComputeHmac | src/data-types/md5.c:323-331 | the HMAC of text and key with the lengths given, negative ones taken as zero |
| Hmac.ComputeImported | src/data-types/md5.c:288-321 | precalculation and import give the same digest |
| JsonText.WhitespaceIs | src/data-types/mailjson.c:64-74 | whitespace is the four code points of section 2 of RFC 8259 |
| JsonText.TerminalsAre | src/data-types/mailjson.c:76-105 | digits, hexadecimal digits, plain and escaped characters of RFC 8259 by code point |
| JsonText.NumbersAre | src/data-types/mailjson.c:246-254 | the forms of numbers of section 6 of RFC 8259 |
| JsonScan.SpaceIsWhitespace | src/data-types/mailjson.c:64-74 | the bytes the scanner skips are the grammar's whitespace |
| JsonScan.ScanStringText | src/data-types/mailjson.c:76-105 | on every string of RFC 8259 the scanner stops behind its closing quotation mark, and the literal is the string |
| JsonScan.AllNewExactly | src/data-types/mailjson.c:187-192 | comparing each key with those before it finds a repetition exactly when two keys are equal |
| JsonScan.ScanValueText | src/data-types/mailjson.c:232-256 | on every value the scanner stops where it ends, unless an object in it has a key twice or one that cannot be decoded |
| JsonScan.ScanItemsText | src/data-types/mailjson.c:136-157 | the same for the items of an array |
| JsonScan.ScanMembersText | src/data-types/mailjson.c:159-230 | the same for the members of an object, with the keys already seen |
| JsonScan.DuplicatesAreFound | src/data-types/mailjson.c:258-269 | on every JSON text the answer is 0 exactly when no object at any depth has two equal keys |
| JsonScan.EmptyObjectIsAccepted | src/data-types/mailjson.c:258-269 | any of the four whitespace bytes, in any number, may surround an empty object |
| JsonScan.Scanner.ScanLiteral | src/data-types/mailjson.c:76-105 | the loop does what the function says on every input, within bounds |
| JsonScan.Scanner.ScanArrayHere | src/data-types/mailjson.c:136-157 | the same for arrays |
| JsonScan.Scanner.ScanObjectHere | src/data-types/mailjson.c:159-230 | the same for objects |
| JsonScan.Scanner.ScanValueHere | src/data-types/mailjson.c:232-256 | the same for values; the mutual recursion ends on every input |
| JsonScan.DuplicateKeysFound | src/data-types/mailjson.c:258-269 | ends on every input, reads no byte past the last, answers as the function does, and finds nothing in an empty object with whitespace around it |
| Calendar.DayNumberOfDate | src/data-types/timeutils.c:112-162 | the closed form counts the days of the calendar that gmtime follows |
| Calendar.DateOfDayNumber | src/data-types/timeutils.c:112-162 | every date of the calendar is reached, by its own number |
| Calendar.DatesIncrease | src/data-types/timeutils.c:112-162 | later days have later dates |
| GmTime.GmtimeIncreases | src/data-types/timeutils.c:99-110 | gmtime is strictly increasing in the order of tmcomp |
| GmTime.SecondsOfGmtime | src/data-types/timeutils.c:112-162 | the seconds of the fields of an instant are the instant |
| GmTime.SideOf | src/data-types/timeutils.c:146-156 | the comparison tells on which side of the match the search is |
| GmTime.MagnitudeBits | src/data-types/timeutils.c:128-134 | doubling a 64-bit signed time ends after 63 steps at a negative number |
| GmTime.NarrowedFurther | src/data-types/timeutils.c:146-156 | each miss halves the interval and keeps the match in it |
| GmTime.MailMkgmtime | src/data-types/timeutils.c:112-162 | returns the seconds of the fields when they name a minute within 2^40 seconds, WRONG otherwise, asking gmtime at most 42 times |
| GmTime.MkgmtimeIsTheMatch | src/data-types/timeutils.c:112-162 | the answer is t + tm_sec for the only t within reach that has the fields with seconds zeroed, if there is one |
| GmTime.SomeInstants | src/data-types/timeutils.c:112-162 | the seconds of three instants of 1900 and 2000, and a day 1900 did not have |
| GmTime.RightAnswerLooksWrong | src/data-types/timeutils.c:146-161 | one second before the epoch the right answer is WRONG |
| GmTime.LongMinuteLooksWrong | src/data-types/timeutils.c:146-161 | so it is for second 119 of the minute before |
| GmTime.WrongMeansNotFound | src/data-types/timeutils.c:112-162 | for all fields: WRONG is returned exactly when nothing matches, if and only if the fields do not count up to the second before the epoch |
| GmTime.WrongMeansNotFoundButOnce | src/data-types/timeutils.c:112-162 | with seconds from 0 to 59 the only fields that do are those of that second |
| GmTime.MkgmtimeInvertsGmtime | src/data-types/timeutils.c:112-162 | an instant is recovered from its fields exactly between -2^40 + 16 and 2^40 + 43 |
| Registry.AddingIndexes | src/engine/mailengine.c:361-403 | the indexes agree after an addition exactly when no other message had the UID |
| Registry.FolderRefInfo.FolderMessageRef | src/engine/mailengine.c:299-306 | one more reference, for this message only |
| Registry.FolderRefInfo.FolderMessageAdd | src/engine/mailengine.c:361-403 | the message enters both indexes without references; when they still agree |
| Registry.FolderRefInfo.FolderMessageRemove | src/engine/mailengine.c:406-426 | the message leaves both indexes, which still agree |
| Registry.FolderRefInfo.FolderMessageUnref | src/engine/mailengine.c:317-338 | one reference less; at zero the message is removed and freed, and no registered message is ever a freed one |
| Registry.FolderRefInfo.MarkAll | src/engine/mailengine.c:449-457 | all messages are marked, in whatever order the table gives them |
| Registry.FolderRefInfo.MatchOne | src/engine/mailengine.c:465-491 | a known UID gives the registered object and frees the new one; another UID registers it |
| Registry.FolderRefInfo.MatchListing | src/engine/mailengine.c:449-492 | the marks left are those of absent messages, and lost_count is their number less the UIDs listed again |
| Registry.NoRepeats | src/engine/mailengine.c:459-492 | that difference is zero exactly when no UID is listed twice |
| Registry.RegisteredExactlyIfNamed | src/engine/mailengine.c:467-534 | after matching, every message in the list is registered, as referencing needs, exactly when every listed message has a UID |
| Registry.FolderRefInfo.CollectLost | src/engine/mailengine.c:494-520 | the slots are all filled and never exceeded, with the lost messages and no repeats |
| Registry.ListsAll | src/engine/mailengine.c:494-520 | such a table has as many slots as messages and holds all of them |
| Registry.FolderRefInfo.ReferenceAll | src/engine/mailengine.c:528-534 | each message gets one reference for each place in the list |
| Registry.FolderRefInfo.FolderUpdateMsgList | src/engine/mailengine.c:429-539 | known UIDs give the same objects, the lost list is exactly the absent messages, listed messages have one more reference, indexes agree, replaced messages are freed |
| Registry.RefreshIs | src/engine/mailengine.c:465-491 | what becomes of each listed message: kept and registered, or replaced by the known one and freed |
| Registry.RefreshRefersOnce | src/engine/mailengine.c:528-534 | a refresh raises the count of each listed message by one, and of no other |
| Registry.FolderRefInfo.FolderFreeMsgList | src/engine/mailengine.c:592-606 | each place in the list releases once; messages released for the last time are removed and freed |
| Registry.FreeableExactly | src/engine/mailengine.c:592-606 | freeing a list never meets a message freed before or unknown exactly when each is registered and has no references, or as many as places in the list |
| Registry.RefreshedIsFreeable | src/engine/mailengine.c:592-606 | what a refresh returns can be freed |
| Registry.ReleaseUndoesRefresh | src/engine/mailengine.c:592-606 | freeing the list of a refresh restores every count, and removes only listed messages nobody held before |
| Semaphore.WhatCanHappen | src/data-types/mailsem.c:117-190 | the system leaves out no arrival, wakeup, resumption or signal that the functions allow |
| Semaphore.StepKeeps | src/data-types/mailsem.c:117-190 | every critical section keeps the count of waiters and loses no wakeup |
| Semaphore.NoWakeupIsEverLost | src/data-types/mailsem.c:117-190 | in every reachable state waiters_count is the number of sleeping and woken threads, and if a thread sleeps the count is at most the number of woken ones |
| Semaphore.RunIsAtomic | src/data-types/mailsem.c:117-190 | the operations completed in any run are a legal run of an atomic semaphore whose value is the count, wraps aside |
| Semaphore.LegalMeansCovered | src/data-types/mailsem.c:117-190 | a run is one of the atomic semaphore exactly when no prefix has more waits than the initial value and posts cover |
| Semaphore.RefinesAtomicSemaphore | src/data-types/mailsem.c:117-190 | initial count plus posts is count plus waits exactly when the count never wrapped |
| Semaphore.CountCanWrap | src/data-types/mailsem.c:160-190 | one post to a count of 2^32 - 1 wraps it to 0 |
| Semaphore.WaitersAreServed | src/data-types/mailsem.c:132-149 | once the woken threads have run, in any order, as many waiting threads have gone on as the count allowed |
| Semaphore.Mailsem.Wait | src/data-types/mailsem.c:117-158 | the first critical section of a wait is one step of the system, in unsigned arithmetic |
| Semaphore.Mailsem.WaitOn | src/data-types/mailsem.c:132-149 | so is the one after a wakeup |
| Semaphore.Mailsem.Post | src/data-types/mailsem.c:160-190 | so is a post, which signals only if somebody waits |
| MmapString.NearestPower | src/data-types/mmapstring.c:210-223 | the doubling loop finds the least power of two that is large enough, or the greatest size |
| MmapString.GrowthIsLarge | src/data-types/mmapstring.c:313-355 | a capacity that does not suffice is at most half of the next one |
| MmapString.MMAPString.MaybeExpand | src/data-types/mmapstring.c:313-355 | makes room, keeps the contents and the terminating NUL; the capacity stays a power of two or the greatest size, and all allocated so far stays within twice the capacity |
| MmapString.MMAPString.EndsInNul | src/data-types/mmapstring.c:494-522 | between operations a NUL stands behind the contents, within the array |
| MmapString.MMAPString.AllocatesLittle | src/data-types/mmapstring.c:313-355 | in every run that grows, the sizes ever allocated add up to less than four times what the longest contents needed |
| MmapString.MMAPString.InsertLen | src/data-types/mmapstring.c:494-522 | refines insertion into a sequence; refuses exactly when position or size is impossible or memory is short, and then changes nothing |
| MmapString.MMAPString.InsertC | src/data-types/mmapstring.c:577-601 | the same for one byte |
| MmapString.MMAPString.EraseLen | src/data-types/mmapstring.c:604-623 | refines erasure from a sequence, and refuses exactly when the range is not there |
| MmapString.MMAPString.TruncateTo | src/data-types/mmapstring.c:450-457 | refines truncation |
| MmapString.MMAPString.SetSize | src/data-types/mmapstring.c:473-484 | sets the length, keeps the bytes that were there before, and says what that does to the greatest length and the growth |
| MmapString.Replay | src/data-types/mmapstring.c:450-623 | a whole run of operations refines the same run on a sequence; an append-only run that grows allocates less than four times what its contents need at the end |

## Left out

- Getopt.Parser.Next: how an option word is spelled (`parse_long_options`, the option letters, `-W`) is a parameter that says how many letters a word has and whether it takes the next word; the check for a null option string is not modelled.
- Getopt.Parser.ReturnLetter: the return of -1 in the middle of a word (src/bsd/getopt_long.c:528-529) is not modelled.
- Getopt.Parser.StartOption: a word is an option when it starts with a dash and has more; the environment variable and the first letter of the option string appear as the mode.
- Mutf7Encoder.EncodeText: on strings that are not well-formed a memory error is only bounded (it needs 6n + 16 above SIZE_MAX); on the others it is characterised. Allocation itself always succeeds.
- Mutf7Decoder.DecodeText: allocation always succeeds.
- Framing.SendData: progress callbacks are left out.
- Framing.ReadLineAppend: the line is a sequence here, not the growable string, and running out of memory is not modelled.
- Framing.ReadMultiline: as a method that ends, it needs a terminator among the pending bytes; `Framing.ReadMultilineFor` is the same loop for any number of turns without that. Size estimates, progress callbacks and running out of memory are left out.
- MailStream.Stream.Write: `count + write_buffer_len` is not wrapped at the size of size_t, and there is no logger.
- Md5Transform.Transform: the 64 constants are those of RFC 1321 and are not derived from the sine function.
- Md5Stream.Context.Update: asks that the loop guard does not wrap, the exact condition being that of `Md5Stream.GuardFailsOnWrap`.
- JsonScan.DuplicateKeysFound: decoding a key is an arbitrary function of the literal that may fail; json-c, the limit of INT_MAX on a key, and the growth of the key array are not modelled.
- GmTime.MailMkgmtime: gmtime is total and follows the Gregorian calendar; the differences in tmcomp do not wrap, which in C needs fields far from the limits of int.
- Registry.FolderRefInfo.FolderUpdateMsgList: asks for a listing of new messages whose UIDs are all present and different, the exact conditions under which its later loops find what they need (`Registry.RegisteredExactlyIfNamed`, `Registry.NoRepeats`); what C does beyond them, dereferencing NULL or leaving the table of lost messages, is not modelled. Failing allocations and failing listings are left out.
- Registry.FolderRefInfo.FolderFreeMsgList: asks for the condition of `Registry.FreeableExactly`; beyond it the code uses a message that was freed or is not registered, which is not modelled.
- Registry.FolderRefInfo.MatchListing: one loop of the source is cut into methods for marking, matching, collecting and referencing; the tables are maps, and a table with slots is a sequence.
- Registry.FolderRefInfo.FolderMessageUnref: the mime reference count is kept but its operations, which call into mailprivacy, are not modelled.
- Semaphore.Mailsem.Wait: error returns of the pthread functions are left out, and there are fewer than 2^32 threads.
- MmapString.MMAPString.InsertLen: the inserted bytes are not the string's own; the memory-mapped file behind large strings is only a memory that may run out.
- TLS, sockets, compression, databases and HTTP: plumbing around other libraries.
- The charset conversions of charconv.c other than modified UTF-7: foreign tables and libraries.
- maillock.c and mailprivacy.c: they depend on clocks, processes and files outside the program.
- base64.c and getopt.c: simpler relatives of what is modelled.
