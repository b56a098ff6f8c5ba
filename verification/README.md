# A verified model of fastjson

fastjson is a PHP extension that encodes and decodes JSON on top of the yyjson library. This project models
the algorithms the extension itself contributes, in the form its C code gives them (loops over buffers,
objects with mutable fields, recursive traversals), and proves each against a specification a reader can
check on its own. Everything is stated for all inputs, all sizes and all flag combinations; the engine's
limits (`ZSTR_MAX_LEN`, `SIZE_MAX`, chunk and threshold sizes, the segment cap, the cache's dimensions) are
parameters.

The main results:

* **Text that can be read back.** A reader of the RFC 8259 grammar, written in literal bytes, reads every printed
  document back as the document it was printed from, compact or pretty, under every flag; where every line break and
  space goes is told in literal bytes too. So what the splice writer and the encoder return is read as the edited
  document and as the document the PHP value stands for.
* **Strings.** Every way of writing a large string (clean copy, copied prefix and tail, chunks written in
  place, exact-size) appends exactly what the one-pass escaper would, fails exactly on ill-formed UTF-8, and
  leaves the output alone when it fails. What is written reads back as the same string. The backwards,
  in-place hex-escape rewrite is the token-wise one.
* **UTF-8.** The three validity tests in the code are the grammar of RFC 3629 section 4. Sanitised text is
  always well-formed, is the input exactly when the input was, and the two ways of skipping bad bytes cannot be
  told apart when they are dropped. When they are replaced, encoding and decoding can differ; exactly which
  inputs they agree on is proved for every combination of flags, and what is written for each broken sequence, byte by
  byte.
* **Pointers.** Parsing inverts printing (RFC 6901 sections 3 and 4), and a lookup reaches exactly the member or
  element that its unescaped segments name. The one-pass splice writer prints the
  functionally edited document, compact or pretty, or fails for the first reason that document has no text
  within the depth budget: that document with what the segments name replaced and everything else as and where it was.
  With room for that text and one more string it never fails for a size. Setting and
  resolving obey the lens laws.
* **Merge.** The linear and the hash-indexed merge are both MergePatch of RFC 7396 section 2 on objects with
  duplicates resolved, and fail for depth exactly when the merged document is too deep, however deep the
  discarded branches are. A merged object holds a member exactly when the patch gives it, or the target has it and the
  patch does not mention it. Merging and decoding commute; merging twice is merging once.
* **Decoding.** The walk builds the ordered map that last-wins resolution defines, whatever the key-sharing
  cache does: read back as a document it is the one decoded, its text sanitised and its repeated names resolved; the cache keeps resident keys unique and reference counts exact over every run of lookups. A walk,
  failed or not, holds exactly the references its value's tables hold, values it replaced included.
* **Depth.** The stack-based probe, the merge, the decode walk and the splice writer apply one test: nesting depth
  below the budget. So a successful merge always decodes, and a document with a value set always decodes at the
  depth it was set with.
* **Encoding.** The encoder, with its second traversal for later errors, reports what one left-to-right
  traversal would. It restores recursion marks, guards and indentation on every exit. With room for the text and
  one more string it never fails for a size. Given that, it succeeds exactly when the value has a document, defined
  without a traversal, that nests within the depth: no cycle, no serializer that comes back to itself, nothing without
  a text. It shows the visible properties in table order and is the same whether or not the hidden ones are there. On
  plain graphs it reports recursion exactly when a cycle can be reached.

## Layout

| file | part of the system |
|---|---|
| Wrappers.dfy, ByteStrings.dfy, WordScan.dfy, Utf8.dfy | optional values, bytes, word-at-a-time scans, UTF-8 |
| Sanitizer.dfy, Escape.dfy, HexEscapes.dfy | sanitiser, string escapes and their reader, hex rewrite |
| SmartStr.dfy, StringWriter.dfy | the output buffer and the large-string writers |
| LiteralScan.dfy | the search for bare Inf and NaN |
| Json.dfy, OrderedMap.dfy | documents, nesting, printing; insertion-ordered maps |
| Reading.dfy, Layout.dfy | the reader of RFC 8259 and what it makes of printed documents; how they are laid out |
| PointerText.dfy, PointerTree.dfy, Edits.dfy, Splice.dfy | pointer syntax, resolving and setting, what an edit comes to, the splice writer |
| DepthProbe.dfy, MergePatch.dfy, Merge.dfy | the depth probe, the meaning of a merge, the merge itself |
| KeyCache.dfy, Decoding.dfy, MergeDecode.dfy | key sharing, the decode walk, merge and decode together |
| PhpHeap.dfy, Encoding.dfy, EncodeSteps.dfy, Encoder.dfy | the PHP heap, what encoding means, how steps compose, the encoder |
| EncodeVisible.dfy, EncodeMeaning.dfy | the properties and elements that show; the document a PHP value stands for |
| EncodeGraph.dfy, EncodeFits.dfy, PointerSet.dfy | cycles and sharing; depth of what is encoded; setting a PHP value end to end |

`dafny verify dfyconfig.toml` checks the whole project.

## Model

| member | source | states |
|---|---|---|
| WordScan.WordHasHigh | fastjson.c:408-423 | the masked-word test is true iff one of the eight bytes is 0x80 or above |
| WordScan.WordHasControl | fastjson.c:408-423 | the subtract-and-mask test is true, for ASCII words, iff some byte is below 0x20 |
| WordScan.WordHasByte | fastjson.c:408-423 | the xor-and-subtract test is true iff some byte equals the one looked for |
| WordScan.AsciiWordNeedsEscape | fastjson.c:408-423 | a word of ASCII needs escaping iff one of its bytes does |
| WordScan.IsCopyableAscii | fastjson.c:541-570 | copyable iff no byte needs escaping; the prefix reported otherwise is clean and inside the string |
| WordScan.LocateAsciiPos | fastjson.c:34-81 | the naive line and column, or nothing iff a non-ASCII byte comes before the position |
| WordScan.CountedLines | fastjson.c:34-81 | the line is one more than the newlines before the position, a byte-order mark left out; the column counts from the last newline |
| Utf8.WellFormedIffEncoded | fastjson.c:347-406 | well-formed byte strings are exactly the encodings of scalar-value sequences |
| Utf8.WellFormedAppend | fastjson.c:347-406 | well-formedness of a concatenation whose first part is well-formed is that of the second |
| Utf8.EncodingSpells | fastjson.c:206-233 | how long the encoding of a scalar value is, and that the payload bits of its bytes spell it |
| Utf8.ByteIsValidUtf8Start | fastjson.c:206-233 | true iff a valid sequence starts at the position |
| Utf8.SequenceAt | fastjson.c:347-406 | the branches on the lead byte decide validity there and give the sequence's length |
| Utf8.Utf8WellFormed | fastjson.c:347-406 | the scan with its eight-byte skip holds iff the string splits into valid sequences |
| Sanitizer.Classify | fastjson.c:264-323 | the sanitiser's own validity test is the grammar's, and its advance is the sequence length or the maximal subpart |
| Sanitizer.SanitizeUtf8 | fastjson.c:239-345 | the buffer holds the input's valid sequences in order, the rest dropped or replaced as flags and side ask, within its worst-case size; it is the input iff that is well-formed; with both flags it is what SUBSTITUTE alone gives the decoder and IGNORE alone the encoder |
| Sanitizer.BrokenSequence | fastjson.c:239-345 | what becomes of the first broken sequence: the decoder passes one byte, the encoder the maximal subpart; nothing is written under IGNORE alone, the bytes EF BF BD once under SUBSTITUTE alone, and under both by the decoder only |
| Sanitizer.BadAdvanceIsMaximal | fastjson.c:264-323 | the encoder's long step takes the bytes announced, short of the end and of a byte that could begin a sequence |
| Sanitizer.SidesUnderBothFlags | fastjson.c:239-248 | with both flags the decoder does as under SUBSTITUTE and the encoder as under IGNORE, and on ill-formed input not as under the other |
| Sanitizer.SanitizedIsWellFormed | fastjson.c:239-345 | sanitised text is well-formed for every input, flag and advance policy |
| Sanitizer.SanitizeFixesExactlyTheIllFormed | fastjson.c:239-345 | the result equals the input iff the input was well-formed; sanitising is idempotent |
| Sanitizer.SanitizedSize | fastjson.c:239-345 | never longer when dropping, at most three times as long when substituting |
| Sanitizer.AdvancePoliciesAgreeWhenDropping | fastjson.c:239-345 | when bad bytes are dropped, one-byte and maximal advance give the same text from every position |
| Sanitizer.IgnoreAloneIsModeIndependent | fastjson.c:239-345 | with IGNORE alone, encode and decode sanitise alike |
| Sanitizer.SubstituteAloneAgreesIff | fastjson.c:239-345 | with SUBSTITUTE alone, encode and decode sanitise alike iff no byte that could begin a sequence but does not is followed by one that could not begin one |
| Sanitizer.BothFlagsAgreeIff | fastjson.c:239-345 | with both flags, where the encoder drops and the decoder replaces, they agree iff the input is well-formed |
| Sanitizer.LongStepShows | fastjson.c:264-323 | one long step anywhere makes the encoder's substituted text shorter than the decoder's |
| Sanitizer.SubstitutionDependsOnMode | fastjson.c:239-345 | an input on which they differ: one replacement character against two for the same two bytes |
| Escape.QuotedReadsBack | fastjson.c:572-632 | reading a written string under RFC 8259 section 7 gives back its bytes, whatever the escape flags |
| Escape.AsciiEscapes | fastjson.c:594-628 | how each ASCII character is written, in literal bytes |
| Escape.UnicodeEscapes | fastjson.c:594-628 | the rest is written as it is or, when asked for, as one or two `\u` escapes whose digits spell its UTF-16 units |
| Escape.HexTable | fastjson.c:776-817 | the five characters the JSON_HEX_* flags rewrite, and to what |
| Escape.EscapedBodyIsAscii | fastjson.c:594-628 | with Unicode escaped, only ASCII is written |
| Escape.BodyAppend | fastjson.c:478-539 | escaping is compositional at code-point boundaries |
| Escape.BodySize | fastjson_internal.h:58-72 | escaped text is at most six times as long |
| SmartStr.SmartStr.AppendNewlineIndent | fastjson_internal.h:84-100 | the block path and the loop both append a newline and four spaces a level |
| StringWriter.JsonChunkLen | fastjson.c:435-471 | a chunk is never empty, keeps to the size asked (of at least four) and to within three bytes of it, and on well-formed input ends at a code-point boundary |
| StringWriter.WriteChunk | fastjson.c:478-539 | the quote written over the last visible byte is undone; a chunk's body is appended, or nothing |
| StringWriter.NextChunk | fastjson.c:478-539 | one turn appends the next chunk's body or fails, writing only into reserved space |
| StringWriter.WriteJsonStringChunked | fastjson.c:478-539 | the quoted string is appended, or nothing changes; ill-formed input is the only other reason than room |
| StringWriter.SizeAtIsExact | fastjson.c:594-628 | the per-sequence sizes of the measuring pass are those of the escaper |
| StringWriter.JsonStringSize | fastjson.c:572-632 | the exact length of the quoted string, copyable iff clean; fails only on ill-formed input or when that length exceeds the limit |
| StringWriter.WritePrefixAndTail | fastjson.c:657-676 | a clean prefix copied and the tail escaped over its last byte give the quoted string; failure leaves the buffer as it was; out of room iff the tail's worst case does not fit |
| StringWriter.WriteMeasured | fastjson.c:707-734 | measuring, then writing in exactly that room, gives the quoted string; out of room only if the exact length does not fit |
| StringWriter.CopyCleanWords | fastjson.c:681-695 | what is copied word by word is a clean prefix, in scratch space past the visible text |
| StringWriter.WriteFused | fastjson.c:681-734 | clean strings always succeed; others are measured with nothing visible changed |
| StringWriter.WriteLargeJsonString | fastjson.c:634-734 | whichever strategy the sizes choose: the quoted string appended, or nothing changed and a true reason; clean strings run out of room exactly when their own size does not fit |
| StringWriter.WriteString | fastjson_internal.h:58-72 | the choice between the one-pass and the sized writer cannot be observed; with enough room there is no size failure |
| HexEscapes.RewriteOfQuoted | fastjson.c:736-817 | rewriting an encoded string gives what an escaper with the hex flags would have written |
| HexEscapes.RewrittenIsScrubbedAndEquivalent | fastjson.c:736-817 | after the rewrite the string decodes as before and none of the requested characters is left |
| HexEscapes.CountGrowth | fastjson.c:736-776 | the forward count is exactly how much longer the rewrite is, or that is more than any string can hold |
| HexEscapes.RewriteFromIsBodyRewrite | fastjson.c:776-817 | looking one byte at a time from the end finds the same tokens as reading from the start |
| HexEscapes.BackwardStep | fastjson.c:776-817 | one backward step writes its piece without touching input still to be read |
| HexEscapes.RewriteBackwards | fastjson.c:776-817 | the backward pass leaves the token-wise rewrite in place, the write cursor ending where the string starts |
| HexEscapes.ApplyHexEscapes | fastjson.c:736-817 | everything from the start position is rewritten, or the buffer is unchanged because the result would not fit |
| LiteralScan.NextToken | fastjson.c:819-864 | a bare word lies ahead iff one starts here or one lies past this string, comment or byte |
| LiteralScan.InputHasInfNanLiteral | fastjson.c:819-864 | true iff "inf" or "nan" starts, in any case, outside every string and (when allowed) comment |
| LiteralScan.BareByte | fastjson.c:851-862 | outside strings and comments, a byte begins "inf" or "nan" in some case, or is passed over |
| LiteralScan.StringIsSkipped | fastjson.c:827-833 | nothing between two quotes counts, escaped quotes and backslashes included |
| LiteralScan.OpenStringHoldsNothing | fastjson.c:827-833 | nor after a quote that is never closed |
| LiteralScan.LineCommentIsSkipped | fastjson.c:834-850 | nor, with comments allowed, from two slashes to the end of the line |
| LiteralScan.BlockCommentIsSkipped | fastjson.c:834-850 | nor in a block comment, closed or not |
| Json.FaultFree | fastjson_pointer_splice.c:182-222 | a document prints within a budget iff its leaves have a text and it nests less deep than the budget |
| Json.OnlyDepthStops | fastjson_pointer_splice.c:182-222 | with encodable leaves the writer's depth checks pass iff the nesting depth is below the budget |
| Json.FaultHasCause | fastjson_pointer_splice.c:182-222 | each fault reported is there: a string that is ill-formed, a number that is not finite, or too many levels |
| Json.FirstFaultyItem | fastjson_pointer_splice.c:323-361 | the fault of an array is that of its first faulty element |
| Json.FirstFaultyMember | fastjson_pointer_splice.c:363-409 | the fault of an object is that of its first faulty member, the name before the value |
| Json.ReindentPrint | fastjson_pointer_splice.c:224-266 | pushing every line after the first to the right is printing at a deeper level |
| Json.LongestTextIsLeast | fastjson_pointer_splice.c:81-113 | the string length the room is measured by is the least bound on a document's strings and keys |
| Json.CompactIgnoresLevel | fastjson_pointer_splice.c:224-266 | compact text is the same at every level |
| Reading.PrintedReadsBack | fastjson_pointer_splice.c:182-222 | a reader of the RFC 8259 grammar reads a printed document back as that document, at every level and in every style |
| Layout.ArrayLayout | fastjson_pointer_splice.c:323-361 | an array is its printed elements between brackets and commas, on lines of their own indented by four spaces a level when pretty |
| Layout.ObjectLayout | fastjson_pointer_splice.c:363-409 | the same of an object, each member its quoted name, a colon (and a space when pretty) and its value |
| PointerText.ParseInvertsPointerOf | fastjson_pointer_splice.c:649-715 | any list of byte-string segments, escaped and joined, parses back to itself |
| PointerText.PointerOfInvertsParse | fastjson_pointer_splice.c:649-715 | printing what was parsed gives the pointer back |
| PointerText.EscapesDecoded | fastjson_pointer_splice.c:687-700 | in a segment, tilde one is a slash and tilde zero a tilde |
| PointerText.SlashSeparates | fastjson_pointer_splice.c:649-664 | a slash ends a segment |
| PointerText.Malformed | fastjson_pointer_splice.c:649-715 | a pointer that does not begin with a slash, or has another byte or nothing after a tilde, is refused; the empty one has no segments |
| PointerText.CountSegments | fastjson_pointer_splice.c:649-664 | the count of segments is that of the separators |
| PointerText.FillSegment | fastjson_pointer_splice.c:666-715 | one segment's unescaped bytes go into storage, failing exactly on a bad escape, within the pointer's own length |
| PointerText.FillSegments | fastjson_pointer_splice.c:666-715 | succeeds iff the pointer parses, and then describes exactly the parsed segments |
| PointerText.ParsesIffEscapesOk | fastjson_pointer_splice.c:750-761 | a pointer parses iff every tilde is followed by 0 or 1 |
| PointerText.PrescanEscapes | fastjson_pointer_splice.c:750-761 | the over-limit prescan accepts exactly the pointers the parser would |
| PointerText.PointerParse | fastjson_pointer_splice.c:735-772 | a syntax error outranks the segment gate, the gate (more segments than the cap, or as many as the depth limit) outranks success, success gives the segments |
| PointerText.SegIsIndex | fastjson_pointer_splice.c:271-298 | a segment is an index iff it is a canonical numeral of at most nineteen digits within the largest size |
| PointerText.IndexIffDecimal | fastjson_pointer_splice.c:271-298 | the index of a segment is n iff the segment is n's numeral, so different segments name different elements |
| PointerTree.FindMember | fastjson_pointer_splice.c:785-803 | the matches in an object, none, one with its value, or ambiguous |
| PointerTree.KeyEquals | fastjson_pointer_splice.c:300-315 | sanitising only keys tagged as ill-formed compares as sanitising every key would |
| PointerTree.KeyMatchesSanitized | fastjson_pointer_splice.c:300-315 | the same of the predicate that counting matches uses |
| PointerTree.PointerWalk | fastjson_pointer_splice.c:774-831 | the loop reaches the target, or refuses with the status, that following the segments defines |
| PointerTree.ResolveLimited | fastjson_pointer_splice.c:863-883 | status and target of a lookup, case by case; a target is reached iff it is what the segments name, one by one |
| PointerTree.TargetIffNamed | fastjson_pointer_splice.c:774-831 | following the segments reaches a value iff each names the only member so called, or the element of that number, and the last that value |
| PointerTree.EscapedNamesReached | fastjson_pointer_splice.c:863-883 | looking up an escaped name reaches the only member whose name has the slash or tilde itself |
| PointerTree.PreflightIsExact | fastjson_pointer_splice.c:833-850 | the preflight accepts iff a value can be set there, and its refusals tell unsettable from ambiguous |
| PointerTree.SetThenResolve | fastjson_pointer_splice.c:470-647 | the pointer then names the value that was set |
| PointerTree.SetIsEdit | fastjson_pointer_splice.c:470-647 | setting replaces what the segments name or adds the missing objects last, and leaves everything else as and where it was |
| Edits.EditedDocument | fastjson_pointer_splice.c:411-625 | an edited document nests as deep as the pointer is long and the value deep, or as deep as it did; it keeps to the grammar where the document and the value do, and has no text where the value has none |
| PointerTree.SetTwice | fastjson_pointer_splice.c:470-647 | of two values set in turn only the second matters |
| PointerTree.SetSame | fastjson_pointer_splice.c:470-647 | setting the value already there changes nothing |
| PointerTree.SetElsewhere | fastjson_pointer_splice.c:470-647 | from the point where two pointers part, setting one does not move what the other names |
| PointerTree.UnrelatedPointersResolveAlike | fastjson_pointer_splice.c:470-647 | a pointer that is neither a prefix nor an extension of the edited one resolves with the same status and target |
| PointerTree.ResolveWithFlags | fastjson_pointer_splice.c:774-831 | resolving with UTF-8 flags is resolving without them in the document whose keys were sanitised first, ambiguity included |
| Splice.Writer.WriteString | fastjson_pointer_splice.c:81-113 | the quoted string with its hex escapes, or ill-formed input; out of room only where the text and one worst case of the string would not fit |
| Splice.Writer.WriteNumber | fastjson_pointer_splice.c:115-155 | the lexeme, or a non-finite number; out of room only where the text and one number more would not fit |
| Splice.Writer.WriteFull | fastjson_pointer_splice.c:182-222 | prints the whole value at the current level, or stops at its first fault; never for a size while the value and its longest string have room |
| Splice.Writer.WriteArrayFull | fastjson_pointer_splice.c:323-361 | the same for an array's elements |
| Splice.Writer.WriteObjectFull | fastjson_pointer_splice.c:363-409 | the same for an object's members |
| Splice.Writer.EmitReindented | fastjson_pointer_splice.c:224-266 | copying line by line gives the re-indented text |
| Splice.Writer.WriteReplacement | fastjson_pointer_splice.c:224-266 | scalar or pre-encoded, the replacement appears as its value printed at this level |
| Splice.Writer.BuildSuffix | fastjson_pointer_splice.c:586-625 | missing segments become nested one-member objects around the value |
| Splice.Writer.WriteAt | fastjson_pointer_splice.c:627-647 | a container on the path prints as its edited self, or fails if it cannot be edited |
| Splice.Writer.WriteArrayAt | fastjson_pointer_splice.c:411-468 | the same for an array on the path |
| Splice.Writer.WriteMembersAt | fastjson_pointer_splice.c:470-582 | the members in order with the wanted one edited; a second one with its key is ambiguous, unless a fault or want of room comes before it |
| Splice.Writer.WriteObjectAt | fastjson_pointer_splice.c:470-582 | an object on the path, its missing member added last |
| Splice.PlanInit | fastjson_pointer_splice.c:833-850 | the preflight's status for every pointer and document, and the parsed plan: refused for its syntax, for its length, or exactly where no value can be set, with the reason |
| Splice.BudgetIsExact | fastjson_decode.c:1298-1407 | the segment gate and the depth given to the replacement are exact: beyond either the edited document is too deep, and within both it is not if the document was not |
| Splice.PointerSetWrite | fastjson_pointer_splice.c:965-1007 | the text of the document with what the segments name replaced and all else in place, which a reader of RFC 8259 reads as that document; or the status of its first fault; nothing where there is no such document; never too large where its text and one worst case of its longest string or of a number fit |
| EncodeFits.WalkIsSound | fastjson_directwrite.c:409-730 | whatever errors are met, the document an encoding prints nests within its depth and every leaf has a text |
| PointerSet.DirectIsEncoded | fastjson_pointer_splice.c:898-947 | the scalar shortcut splices what the encoder would print, and has a text exactly when the encoder succeeds |
| PointerSet.BuildReplacement | fastjson_pointer_splice.c:889-963 | the replacement stands for the value it was built from, within its depth, or the encoder's error is reported, which is no size failure where its text has room |
| PointerSet.NewValueIsDocument | fastjson_pointer_splice.c:889-963 | by the shortcut or by the encoder, what is spliced is the document the PHP value stands for |
| PointerSet.Set | fastjson_decode.c:1298-1407 | past the preflight a write never ends unsettable or ambiguous; what is written is read as the document with the PHP value's document set where the segments lead, nesting less deep than the budget; each stage fails for a size only where its own text lacks room |
| DepthProbe.DepthReaches | fastjson_decode.c:799-860 | the explicit-stack probe is true iff the nesting depth reaches the limit |
| DepthProbe.DepthIsLongestChain | fastjson_decode.c:799-860 | nesting depth is the length of the longest chain of containers, each inside the one before |
| DepthProbe.Descend | fastjson_decode.c:838-856 | entering a container keeps the stack's invariant and uses up work, or proves the limit reached |
| DepthProbe.Leave | fastjson_decode.c:829-834 | leaving the root's frame proves the tree shallow |
| MergePatch.TwoPassesAreTheLoop | fastjson_decode.c:1035-1095 | keeping or replacing target members, then adding the patch's new ones, is the RFC's loop, order included |
| MergePatch.MergeTwice | fastjson_decode.c:1097-1125 | merging the same patch again changes nothing |
| MergePatch.MergedHolds | fastjson_decode.c:1035-1095 | what a merged object holds: what the patch gives, merged with what was there, and what the target has under names the patch does not mention; null takes away |
| OrderedMap.CanonFixes | fastjson_decode.c:925-935 | an object without duplicates needs no canonical form, so the linear pass may skip it |
| OrderedMap.CanonTakesLast | fastjson_decode.c:993-1021 | duplicates resolved, a name has the value of its last occurrence |
| OrderedMap.CanonKeepsOrder | fastjson_decode.c:993-1021 | and names stand in the order of their first ones |
| Merge.CopyChecked | fastjson_decode.c:886-897 | the value, or a depth failure iff it nests too deep |
| Merge.HasDuplicateKeys | fastjson_decode.c:902-923 | true iff some key of the object occurs twice |
| Merge.MergeBounded | fastjson_decode.c:1097-1125 | the RFC's merge, or nothing and a depth failure iff that merge nests too deep |
| Merge.MergeLinear | fastjson_decode.c:925-991 | the same, for small objects |
| Merge.MergeDistinct | fastjson_decode.c:937-991 | the same, by two passes with linear lookups, where no name repeats |
| Merge.MergeIndexed | fastjson_decode.c:1035-1095 | the same, through hash indexes and emitted flags |
| Merge.MergeIndex.constructor | fastjson_decode.c:993-1021 | the index lists each name once, at its first place with its last value |
| Merge.TakePatch | fastjson_decode.c:1052-1057 | looks a name up in the patch and ticks it off |
| Merge.KeepNext | fastjson_decode.c:945-967 | one target member more in the first pass, or a depth failure that the merged document deserves |
| Merge.AddNext | fastjson_decode.c:969-989 | one patch member more in the second pass, likewise |
| KeyCache.Absent | fastjson_decode.c:242-259 | a key its probe does not meet is not in the table |
| KeyCache.Filled | fastjson_decode.c:244-253 | filling the slot a probe ends at keeps every key reachable and resident once |
| KeyCache.Cache.Probe | fastjson_decode.c:240-260 | finds the key's slot, a free slot on its path, or a path all taken; what is not met is not resident |
| KeyCache.Cache.Acquire | fastjson_decode.c:231-263 | a string spelled like the key with its hash, the resident one if there is one; it is resident afterwards unless the table was full or its path taken; one more reference held |
| KeyCache.Cache.Share | fastjson_decode.c:231-275 | null iff sharing is off or the key too long, and then nothing is held; sharing goes off exactly at a full table whose misses outrun its hits by the margin; hits and misses are counted once the table is full; no resident string is dropped |
| KeyCache.Cache.Release | fastjson_walk.inc:230-234 | one reference less; the last one frees the string |
| KeyCache.Cache.Pop | fastjson_decode.c:295-305 | afterwards each string counts exactly the references callers hold, and the others are freed |
| KeyCache.Runtime.Push | fastjson_decode.c:279-293 | a fresh cache, installed unless the input is small, and the enclosing one to go back to |
| KeyCache.Runtime.Pop | fastjson_decode.c:295-305 | the enclosing cache is current again |
| Decoding.UpdateTable | fastjson_walk.inc:224-244 | the table update does not depend on the cache; the references held for the table and the value become exactly those the new table holds |
| Decoding.Destroy | fastjson_walk.inc:153-157 | a value that goes gives back exactly the references its tables hold |
| Decoding.DecodeSays | fastjson_walk.inc:78-260 | without flags, a decoded value read as a document is the document with repeated names resolved at every level |
| Decoding.FlagsSanitise | fastjson_walk.inc:101-123 | with flags, decoding is decoding without them of the document whose strings and names were sanitised first |
| Decoding.Walk | fastjson_walk.inc:78-260 | succeeds iff the document nests less deep than the budget, and then builds a value that stands for it: literals and numbers as they are, text sanitised, repeated names resolved; either way the references added are exactly those its tables hold |
| Decoding.WalkArray | fastjson_walk.inc:125-162 | the elements in order, stopping at the first that is too deep |
| Decoding.WalkObject | fastjson_walk.inc:164-250 | sanitised keys, last value wins, first place kept; a value replaced or left half-built gives back its references |
| Decoding.DecodeShared | fastjson_decode.c:399-427 | a whole decode with its cache installed and dropped: a value that stands for the document, same depth test, enclosing cache restored; the strings left count exactly the references the result holds, none after a failure |
| MergeDecode.WalkIsCanonical | fastjson_walk.inc:190-250 | the walker's table is the canonical member list, decoded |
| MergeDecode.DecodeMerged | fastjson_decode.c:1097-1125 | decoding a merged document gives the merge of the decoded documents, as ordered maps |
| MergeDecode.MergeDocuments | fastjson_decode.c:1127-1243 | fails iff the merged document is too deep, so the walk after a merge never does; without UTF-8 flags the result is the merge of the decoded operands |
| Encoding.ReportedIsFirst | fastjson_directwrite.c:447-469 | the reported error is the first that is not a non-finite number, whatever comes before it |
| Encoding.AllNonFinite | fastjson_directwrite.c:264-277 | a non-finite number is reported only where nothing else is wrong |
| Encoding.HushedProp | fastjson_directwrite.c:809-837 | in the search for later errors a getter is not called and its key not looked at |
| EncodeVisible.CleanWalks | fastjson_directwrite.c:647-651 | an encoding is the same whether or not the properties whose names begin with a NUL byte are there, errors included |
| EncodeVisible.CleanOutcome | fastjson_directwrite.c:1091-1134 | nor can a caller of the encoder tell, but for how much room it asks for |
| EncodeVisible.HeldPropShows | fastjson_directwrite.c:643-720 | every value held under a name that is not hidden is a member of what is printed, in table order |
| EncodeVisible.ElemsShow | fastjson_directwrite.c:409-512 | every element of an array is printed in its place: in a list iff the keys are 0, 1, 2 and so on and objects are not forced |
| EncodeVisible.ElemsAfterNonFinite | fastjson_directwrite.c:436-500 | after a non-finite number the rest of an array is only searched, unless output is partial |
| EncodeVisible.SearchCallsNothing | fastjson_directwrite.c:809-1001 | the search looks at values held under names that are not hidden, and calls neither serializers nor getters |
| EncodeMeaning.WalkUnfolds | fastjson_directwrite.c:409-730 | what is printed without an error is the document the value stands for, within the levels there are |
| EncodeMeaning.EncodedIffUnfolds | fastjson_directwrite.c:1003-1089 | a value whose references lead to containers of their own kind is encoded without an error iff it has a document within the depth, and that document is printed |
| EncodeMeaning.EncodesIffUnfolds | fastjson_directwrite.c:1091-1134 | the same of the encoder's outcome where size is not what stops it; and a reader of RFC 8259 reads its text as that document, if numbers are spelled by the grammar |
| EncodeMeaning.UnfoldsOnce | fastjson_directwrite.c:1003-1089 | a value stands for at most one document |
| EncodeMeaning.SubstitutePrinted | fastjson_directwrite.c:264-277 | what is printed in the place of what has no document, null or 0, and the error it leaves |
| EncodeMeaning.IntTextReads | fastjson_directwrite.c:253-262 | integers are spelled as the grammar spells numbers, and their spelling has their value, sign included |
| Encoder.Context.EmitString | fastjson_directwrite.c:173-246 | the quoted string, its sanitised form, or the error and (with partial output) the substitute; out of room only where the text and the worst case of both attempts would not fit |
| Encoder.Context.EmitDouble | fastjson_directwrite.c:264-277 | a non-finite number is replaced by zero with partial output, and loses the whole buffer without |
| Encoder.Context.EmitKey | fastjson_directwrite.c:379-405 | key, colon and space; integer keys as their numerals |
| Encoder.Context.EmitArray | fastjson_directwrite.c:409-512 | depth, then recursion, then the elements; marks, guards and indentation are restored on every exit |
| Encoder.Context.EmitNextItem | fastjson_directwrite.c:436-466 | an element that fails with a non-finite number starts the search in the rest of the list; the error is that of the whole list |
| Encoder.Context.EmitNextMember | fastjson_directwrite.c:468-500 | the same for arrays printed as objects |
| Encoder.Context.EmitNextProp | fastjson_directwrite.c:684-720 | the same for properties |
| Encoder.Context.EmitProps | fastjson_directwrite.c:633-730 | hidden, unset and getterless properties print nothing; the first that shows opens the body |
| Encoder.Context.EmitObject | fastjson_directwrite.c:563-730 | depth, then the property view, then recursion |
| Encoder.Context.EmitJsonSerializable | fastjson_directwrite.c:514-561 | a serializer entered again is recursion; its result takes the object's place and level; "this" means the properties |
| Encoder.Context.EncodeZval | fastjson_directwrite.c:1003-1089 | every value: the text of what it stands for, or the error one traversal of it reports |
| Encoder.Context.DiscardZval | fastjson_directwrite.c:929-1001 | finds the first error other than a non-finite number in what is left, calling nothing and writing nothing; a string is too large for it only if it is for an empty buffer |
| Encoder.Context.DiscardArray | fastjson_directwrite.c:781-807 | the same for an array, marks restored |
| Encoder.Context.DiscardObject | fastjson_directwrite.c:859-927 | the same for an object's properties |
| Encoder.Context.DiscardProps | fastjson_directwrite.c:839-857 | the same from a given property on |
| Encoder.Encode | fastjson_directwrite.c:1091-1134 | a whole encoding against one left-to-right traversal: success, text and reported error, with and without partial output; a size failure only where the text and one worst case of the longest string met do not fit |
| EncodeGraph.WalkPlain | fastjson_directwrite.c:409-512 | below a route of distinct containers, an error is met iff some path comes back to a container already entered |
| EncodeGraph.RecursionIffCycle | fastjson_directwrite.c:409-730 | with more levels than containers: recursion iff a cycle can be reached, otherwise the unfolding, so sharing is never mistaken for recursion |
| EncodeGraph.EncodingFindsCycles | fastjson_directwrite.c:1091-1134 | the same of what an encoding with room for its text returns: RECURSION iff a cycle can be reached, otherwise success with the text of the unfolding |
| PhpHeap.LongestRawIsLeast | fastjson_directwrite.c:115-131 | the string length the room is measured by is the least bound on the strings and keys that can be met |

## Left out

- yyjson itself: parsing, number reading and the string escaper's own code. Parsed trees are inputs, numbers
  are opaque lexemes with a finiteness flag, and the escaper is a reference function.
- Floating point: number formatting, `serialize_precision`, and the growth projection of the chunked writer,
  which is any value that is at least what is needed.
- Memory: allocation failure and native stack overflow never happen. `call_depth`, which stands in for the
  native limit on old builds, is not modelled.
- PointerSet.Set: takes it that numbers are spelled without newlines, since number formatting is not modelled. For the
  same reason what Reading.PrintedReadsBack and Splice.PointerSetWrite say of reading the text back is said of documents
  whose numbers are spelled by the grammar.
- EncodeMeaning.EncodedIffUnfolds: takes it that a reference leads to a container of its own kind, as a pointer of the
  engine does.
- Encoder.Encode: says when it cannot fail for a size, not that it must when the text does not fit: brackets and
  separators are appended without a reservation, where the engine itself would stop the request. The same holds
  of Splice.PointerSetWrite.
- Encoder.Context.EncodeZval: user code is an oracle. A serializer and a getter come with the value they
  return; exceptions, and user code that changes the values being walked, are not modelled.
- Encoder.Context.EmitArray: every array is marked, including constants of the engine that the code does not
  mark because no cycle can pass through them. PHP references are taken as already followed, and arrays have
  no holes.
- Encoder.Context.EmitObject: an object has one property view, of which all walks share the recursion mark.
- Decoding.Walk: numeric keys stay strings and property names that begin with NUL are not refused, so an object
  decodes as an ordered map with string keys.
- KeyCache.Cache.Share: the hit and miss counters do not wrap.
- Merge: parsing the two operands and the error state around it.
- Streams, files, INI settings, module startup, exceptions, argument parsing and the PHP-version branches.
