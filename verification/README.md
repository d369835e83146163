# Parsers, lexers and shuffle tables of OpenZL, modelled and proved

This project models five parts of OpenZL that take bytes apart and must be able to put them back
together, and proves what they promise for every input.

1. **The ZIP lexer and the PyTorch segmenter** (`ZipFormat`, `ZipRecords`, `ZipPlan`, `ZipLexer`,
   `ZipCounts`, `ZipArchive`, `ZipExamples`, `Segments`, `Alignment`, `PytorchModel`, `PytorchTags`).
   `ZipFormat` reads the records; `ZipRecords` says on the bytes, at the offsets of APPNOTE.TXT, exactly
   what is accepted and as what. `ZipPlan` says what lexing means: a list of known sections, and a
   reference `Run` that fills the gaps between them; tiling, the grammar of token types and the bounds
   on tokens are proved there. `ZipLexer` is the resumable lexer, a class whose methods update its
   fields; it is proved to give exactly the reference stream for every way of choosing output
   capacities. `ZipCounts` says when a stream reaches the end record and how many tokens it has.
   `ZipArchive` describes archives as APPNOTE.TXT does, without the lexer, with or without Zip64 end
   records and with any bytes before, between and after their sections, and proves that each of them is
   opened and split into exactly its sections and those bytes. `ZipExamples` holds concrete sources.
   `Segments` and `Alignment` cut a tagged stream into chunks; `PytorchModel` is the segmenter on top of
   the lexer, and its capacity checks are proved unreachable from facts about the whole stream;
   `PytorchTags` says which successor every byte of an archive goes to.
2. **The MBP-10 parser** (`Dispatch`, `Mbp10`, `Mbp10Book`, `Mbp10Bytes`, `Mbp10Frames`): three nested
   dispatch steps that lose no byte, one stream per instrument and per field, said on the bytes of the
   original records, and framing at record boundaries.
3. **Tables for SIMD kernels** (`PivcoTables`, `PivcoMerge`, `PivcoStreams`, `RepcodeTables`): each table
   row does what a sequential algorithm does, for any number of lanes, given control values that can
   tell an index from the pad; streams of any length, partial last register included, partition, in
   place or not, and merge back to the same bytes; and the merge drivers detect every inconsistent
   bitmap without reading out of bounds.
4. **The CSV lexer** (`CsvLexer`, `CsvSpec`, `CsvField`): the resumable lexer, a specification by quote
   parity, independence from how calls are split, and the printer of the benchmark command read back.
5. **The "extract" stream format** (`ExtractStreams`): writer and reader are inverse to each other.

`Bytes` holds little-endian reads and the option type, `Sequences` concatenation, `TokenStreams` what a
lexer gives, `Arithmetic` facts about remainders. A pointer is an offset into the source, NULL is
`None`, an error return is a failed result. Integers read from the input are bounded by their width;
sums that the source guards against overflow are exact.

## Where the code and its description differ

- `custom_parsers/zip_lexer.h:44-54` says garbage after a zip file is allowed. The search for the end
  record never tries offset 0 of a source longer than 65557 bytes, so an empty zip file followed by
  more than 65535 bytes is not found. `ZipLexer.EmptyZipMissed` gives the input, `ZipLexer.TriedUnlessFirst`
  says that this is the only place ever missed.
- `custom_parsers/zip_lexer.c:634-681` can report success before the end record is reached, when a
  section runs up to the end of the source. `ZipExamples.EarlySuccess` gives a source of 98 bytes that
  lexes into two tokens. `ZipCounts.ReachesEndExactly` says on the layout when the end record is reached:
  exactly when every directory entry is readable and no section reaches past the beginning of the next
  one, as `custom_parsers/zip_lexer.h:51-53` asks; then the stream is all sections and the bytes between.
- `custom_parsers/zip_lexer.h:51-53` says all zip files with such a directory are supported. The search for
  the beginning of a Zip64 archive asks for a directory entry even when it has no files:
  `ZipArchive.EmptyZip64Rejected` gives archives that are not read, `ZipArchive.Zip64BeginsExactly` says
  exactly when the beginning is found.
- `custom_parsers/csv/tests/lex_test.cpp:29-50` expects token-by-token lexing and lexing in one go to
  agree. With null-awareness they do not for the text `a,` and a newline: `CsvSpec.NullAwareSplitDiffers`.
  `CsvSpec.SplitAnywhereExactly` says for which texts every way of splitting agrees: those where, outside
  quotes, no separator is right before a newline. `CsvSpec.CallsAgreeExactly` says it for given calls:
  none may end between the two. They always agree after dropping empty fields: `CsvSpec.CallsAgreeKept`.
- `examples/mbp10.cpp:447` says frames are independent. A later frame whose bytes start with the
  letters DBN and a length that fits is parsed as if it began with a metadata block:
  `Mbp10Frames.DbnFrameMisread` gives the input, `Mbp10Frames.FrameIndependent` the exact condition.
- `custom_parsers/zip_lexer.c:875-878` gives 4n + 4 as the expected number of tokens for n files.
  The bound is 4n + 8: `ZipExamples.FiveTokens` has five tokens and `ZipExamples.EightTokens`
  eight, both without files, and `ZipCounts.ExpectedSuffices` says on the layout exactly when 4n + 4 is
  enough.

## Model

| member | source | states |
|---|---|---|
| ZipFormat.HasZip64Info | custom_parsers/zip_lexer.c:79-99 | The scan of the extra fields finds a Zip64 entry exactly when the first malformed entry does not come before it |
| ZipFormat.ReadZip64Info | custom_parsers/zip_lexer.c:106-126 | The value is the 8 bytes at a position of the first Zip64 entry, if they are inside that entry |
| ZipFormat.ReadCdfh | custom_parsers/zip_lexer.c:134-176 | A directory entry that is accepted has its signature, is at least 46 bytes long and ends inside the directory |
| ZipFormat.ReadEocd64 | custom_parsers/zip_lexer.c:182-222 | A Zip64 end record that is accepted is at least 56 bytes long and ends before the given end |
| ZipFormat.FirstRecord | custom_parsers/zip_lexer.c:291-336 | The position found is the first one where a record and the headers it leads to are valid; none is found exactly when there is none |
| ZipFormat.ParseEocd | custom_parsers/zip_lexer.c:402-485 | Whatever the bytes, an accepted end record gives sections inside the source, a locator that ends at the end record, a Zip64 record that ends before it, and a plausible file count |
| ZipFormat.ReadFile | custom_parsers/zip_lexer.c:723-794 | Header, data and descriptor of an accepted file are back to back and inside the source, and so is its name |
| ZipRecords.Zip64Exactly | custom_parsers/zip_lexer.c:79-126 | The scan of extra fields finds the content of the first entry with id 1 after well-formed entries with other ids, and nothing else |
| ZipRecords.EntryExactly | custom_parsers/zip_lexer.c:134-176 | A directory entry is read as something if and only if its bytes say so: signature, lengths, and size and header offset at 20 and 42, or when these are all ones at 0 and 16 of the Zip64 entry |
| ZipRecords.FileExactly | custom_parsers/zip_lexer.c:723-794 | A local file is read as something if and only if its bytes say so: signature, method, lengths, bit 3 of the flags for a descriptor, and the size of the descriptor |
| ZipRecords.Record64Exactly | custom_parsers/zip_lexer.c:182-222 | The same for a Zip64 end record |
| ZipRecords.IsRecordExactly | custom_parsers/zip_lexer.c:228-289 | A place is taken for a record exactly when it leads to a directory entry whose local header has its signature |
| ZipRecords.BeginningExactly | custom_parsers/zip_lexer.c:291-336 | The beginning is found exactly when its record leads to a file and no earlier place does |
| ZipRecords.Zip64EndExactly | custom_parsers/zip_lexer.c:343-395 | The locator and the Zip64 end record are found as something if and only if the bytes say so |
| ZipRecords.ParsedExactly | custom_parsers/zip_lexer.c:402-485 | An end record is accepted with a layout if and only if the bytes say so: signatures, fields, first disk, plausible count, sections inside the source, and the first beginning that leads to a file |
| ZipPlan.ReadFiles | custom_parsers/zip_lexer.c:688-706 | Reading n directory entries gives at most n files, each whole and inside the source |
| ZipPlan.RunTiles | custom_parsers/zip_lexer.c:575-631 | Each token starts where the previous one ended; a successful run ends at the end of the source |
| ZipPlan.TilesText | custom_parsers/zip_lexer.c:575-631 | Tokens that tile the source concatenate to its bytes |
| ZipPlan.RunGrammatical | custom_parsers/zip_lexer.c:607-681 | Wherever gaps fall, the token types spell a prefix of a word of the grammar |
| ZipPlan.DataApart | custom_parsers/zip_lexer.c:796-844 | In a grammatical stream two data tokens are never neighbours |
| ZipPlan.RunCost | custom_parsers/zip_lexer.c:846-868 | Lexing stops after a number of tokens bounded by the sections, although sections may be empty |
| ZipPlan.RunKnown | custom_parsers/zip_lexer.c:796-868 | Without the Unknown tokens the stream is a prefix of the sections: none invented, skipped or reordered |
| ZipPlan.RunComplete | custom_parsers/zip_lexer.c:575-631 | A successful run gives every section if and only if no section reaches past the beginning of the last one |
| ZipPlan.FilesPlanFits | custom_parsers/zip_lexer.c:796-844 | The sections of n files and the end records fit the grammar, cost at most 4n + 8 tokens and hold at most n data sections |
| ZipPlan.PlanIsWellLexed | custom_parsers/zip_lexer.c:634-868 | For every source and directory: tokens tile the source and concatenate to it on success, keep the grammar, keep data tokens apart, and are at most 4n + 8, n of them data |
| ZipPlan.EverySectionLexed | custom_parsers/zip_lexer.c:634-868 | With a complete directory a successful run gives every header, data and end section, in order, exactly when none reaches past the end record |
| ZipLexer.TriedUnlessFirst | custom_parsers/zip_lexer.c:509-542 | A readable end record is among the offsets tried exactly when it is not at offset 0 of a source longer than 65557 bytes |
| ZipLexer.EmptyZipMissed | custom_parsers/zip_lexer.c:533-541 | Concrete inputs with a readable end record at offset 0 where no offset that is tried opens |
| ZipLexer.ChosenExactly | custom_parsers/zip_lexer.c:526-541 | An end record is chosen exactly when it is tried, opens, and none tried before it opens |
| ZipLexer.ChosenIsUnique | custom_parsers/zip_lexer.c:526-541 | The order of preference among readable end records chooses at most one |
| ZipLexer.StreamIsWellLexed | custom_parsers/zip_lexer.h:86-92 | The stream of any source has all promised properties, for a file count of at most the source size / 76 |
| ZipLexer.Lexer.FindZipBegin | custom_parsers/zip_lexer.c:291-336 | The search loop moves the beginning to the first record's position less its recorded offset, or leaves it alone and fails |
| ZipLexer.Lexer.FindEocd64 | custom_parsers/zip_lexer.c:343-395 | The Zip64 end record and its locator are found and stored exactly when the reference finds them |
| ZipLexer.Lexer.ParseEndRecord | custom_parsers/zip_lexer.c:402-485 | Succeeds exactly when the end record is acceptable; then all pointers and sizes are those of the layout |
| ZipLexer.Lexer.InitWithEocd | custom_parsers/zip_lexer.c:544-565 | Succeeds exactly when the end record leads to a readable directory and first file; then the whole plan is pending |
| ZipLexer.Lexer.TryInit | custom_parsers/zip_lexer.c:489-507 | Succeeds exactly when the end record at that distance from the end opens |
| ZipLexer.Lexer.Init | custom_parsers/zip_lexer.c:509-542 | Succeeds exactly when some tried offset opens, and then uses the one that its order of preference says |
| ZipLexer.Lexer.SetFileState | custom_parsers/zip_lexer.c:723-794 | Loading a file changes nothing of what remains to be lexed; it fails exactly when the entry or the file is unreadable |
| ZipLexer.Lexer.LexSection | custom_parsers/zip_lexer.c:575-631 | Emits the gap before a section or the section itself, and fails exactly when the section begins before the position |
| ZipLexer.Lexer.LexTail | custom_parsers/zip_lexer.c:634-681 | One step after the files is one step of the reference |
| ZipLexer.Lexer.LexFile | custom_parsers/zip_lexer.c:796-844 | One step inside the files is one step of the reference |
| ZipLexer.Lexer.LexOne | custom_parsers/zip_lexer.c:846-856 | The token is the first of the pending stream and the rest stays pending; an error means that the stream is corrupt here |
| ZipLexer.Lexer.Lex | custom_parsers/zip_lexer.c:858-868 | A call gives the next part of the pending stream, as long as it has capacity; fewer tokens than the capacity mean that lexing is finished |
| ZipLexer.Lexer.FinishedStream | custom_parsers/zip_lexer.c:870-873 | The lexer is finished exactly when its pending stream is empty and not corrupt |
| ZipLexer.LexCalls | custom_parsers/zip_lexer.c:858-868 | A lexer called with any sequence of capacities gives the first tokens of its pending stream, as many as they sum up to, and keeps the rest pending; calls fail exactly when they ask for more than a corrupt stream has |
| ZipCounts.ReachesEndExactly | custom_parsers/zip_lexer.h:51-53 | The stream of any source gives its end record if and only if the directory is readable and its sections are in order of occurrence; then there is no corruption, and the stream is all sections with the bytes between them |
| ZipCounts.RunInOrder | custom_parsers/zip_lexer.c:607-631 | A complete list of sections is given in full exactly when no section reaches past the beginning of the next one |
| ZipCounts.ReachesEndWhenOk | custom_parsers/zip_lexer.c:634-681 | Without an error the end record is reached exactly when nothing reaches past its beginning |
| ZipCounts.TokensExactly | custom_parsers/zip_lexer.c:575-681 | A stream that reaches its end record has two tokens per file, one per descriptor, two or four at the end, and one per gap |
| ZipCounts.FilesRun | custom_parsers/zip_lexer.c:634-868 | Short of the end record, n files give at most 4n + 2 tokens |
| ZipCounts.ExpectedSuffices | custom_parsers/zip_lexer.c:875-878 | The expected 4n + 4 tokens are enough exactly when the directory is unreadable or its sections are not in order, or descriptors, gaps and Zip64 records leave room |
| ZipExamples.EarlySuccess | custom_parsers/zip_lexer.c:634-681 | A concrete source that is opened and lexed without error into two tokens, neither of them the directory or the end record |
| ZipExamples.FiveTokens | custom_parsers/zip_lexer.c:875-878 | A concrete source without files that has five tokens |
| ZipExamples.EightTokens | custom_parsers/zip_lexer.c:875-878 | A concrete source without files that has eight tokens: the bound 4n + 8 is attained |
| ZipArchive.ReadEntryAt | custom_parsers/zip_lexer.c:134-176 | A directory entry laid out as APPNOTE.TXT section 4.3.12 says is read as what it says |
| ZipArchive.ReadFileAt | custom_parsers/zip_lexer.c:723-794 | A file laid out as sections 4.3.7 and 4.3.9 say is read as its header, data and descriptor, wherever the archive begins |
| ZipArchive.EntriesRead | custom_parsers/zip_lexer.c:688-706 | The directory of an archive is read to its end and gives the sections of every file |
| ZipArchive.BeginsExactly | custom_parsers/zip_lexer.c:291-336 | The search finds where the archive begins exactly when no earlier place can be taken for its directory, or for its Zip64 end record |
| ZipArchive.FirstEntry | custom_parsers/zip_lexer.c:228-256 | The first directory entry of an archive leads to its first file |
| ZipArchive.Zip64BeginsExactly | custom_parsers/zip_lexer.c:262-289 | The beginning of a Zip64 archive is found exactly when no earlier place can be taken for its record and there is a directory entry at the offset of its directory |
| ZipArchive.EmptyZip64Rejected | custom_parsers/zip_lexer.c:262-289 | A Zip64 archive that is nothing but its end records is not read |
| ZipArchive.OpensExactly | custom_parsers/zip_lexer.c:544-565 | An end record opens if and only if it is accepted and, when there are files, the bytes of the first directory entry and of its file are readable |
| ZipArchive.FilesExactly | custom_parsers/zip_lexer.c:688-706 | Reading a directory gives certain files, all of them, if and only if its bytes are as many entries that fill it, each with the bytes of its file |
| ZipArchive.DirectoryReadExactly | custom_parsers/zip_lexer.c:634-650 | The directory of a source is read if and only if as many readable entries as the end records say fill it |
| ZipArchive.EndRecordRead | custom_parsers/zip_lexer.c:402-485 | The end records of an archive are accepted with the beginning and the layout they describe |
| ZipArchive.ArchiveLexed | custom_parsers/zip_lexer.h:44-54 | Every archive with its files in order, with or without Zip64 end records and whatever comes before, between and after its sections, is opened and lexed into exactly its sections and the other bytes, without corruption; its end record is chosen exactly when none tried before it opens |
| Segments.FlushedSize | custom_parsers/pytorch_model_parser.c:220-261 | A flush takes at least one byte out, leaves at least one, and fills the chunk to within 8 bytes of the limit |
| Segments.ChunksKeepBytes | custom_parsers/pytorch_model_parser.c:187-284 | The chunks hold every byte once, in order, under the tag of its token |
| Segments.ChunkSizes | custom_parsers/pytorch_model_parser.c:220-284 | Every chunk but the last is full, none exceeds the limit, none is empty unless the stream is |
| Segments.AlternatingLength | custom_parsers/pytorch_model_parser.c:209-217 | Merged segments number at most twice the data segments plus one |
| Segments.PendingBound | custom_parsers/pytorch_model_parser.c:178-218 | With n data tokens there are never more than 2n + 1 pending segments |
| Alignment.CutOnGrid | custom_parsers/pytorch_model_parser.c:220-261 | A flush keeps file data on the 8-byte grid of its token, in the chunk and in what is carried |
| Alignment.ChunksOnGrid | custom_parsers/pytorch_model_parser.c:187-284 | All file data in all chunks is on the 8-byte grid of its token |
| Alignment.SplitCount | custom_parsers/pytorch_model_parser.c:129-136 | All pieces of a segment but the last have the maximum size, none exceeds it, none is empty unless the segment is |
| Alignment.SplitAllKeeps | custom_parsers/pytorch_model_parser.c:108-137 | The oversize split keeps every byte under its tag, no piece exceeds the maximum, and the pieces are at most the segments plus the total size / maximum |
| Alignment.SplitEachChunk | custom_parsers/pytorch_model_parser.c:84-137 | Splitting every chunk by itself gives the pieces of the whole list of segments |
| Alignment.PiecesAligned | custom_parsers/pytorch_model_parser.c:122-137 | After cuts, carries and splits every piece of file data starts at a multiple of 8 from its token's start and has a size that is a multiple of 8 unless it ends the token |
| PytorchModel.HasDir | custom_parsers/pytorch_model_parser.c:62-76 | True exactly when the directory occurs at the start of the name or right after a slash |
| PytorchModel.TagOf | custom_parsers/pytorch_model_parser.c:196-207 | The tag depends on type, compression method, directory and guessed float width as documented |
| PytorchModel.Add | custom_parsers/pytorch_model_parser.c:209-218 | Merges or appends in the arrays; fails exactly when they are full |
| PytorchModel.FlushOne | custom_parsers/pytorch_model_parser.c:221-260 | One flush in the arrays is one flush of the specification; the bytes flushed are the size of the chunk and within the limit, and something is carried |
| PytorchModel.FlushChunks | custom_parsers/pytorch_model_parser.c:220-261 | The flush loop ends below the limit and gives the chunks of the specification |
| PytorchModel.TaggedFacts | custom_parsers/zip_lexer.c:796-844 | The tags of any lexed stream total the source, have at most one data tag per file and no two neighbouring data tags |
| PytorchModel.FeedBatch | custom_parsers/pytorch_model_parser.c:193-262 | The loop over a batch never reaches its capacity error |
| PytorchModel.SegmentLexed | custom_parsers/pytorch_model_parser.c:177-284 | From a started lexer, fails exactly when the stream is corrupt; else gives the chunks of the stream |
| PytorchModel.Segment | custom_parsers/pytorch_model_parser.c:156-287 | Succeeds exactly when an end record is chosen and its stream is not corrupt, so never fails for lack of room; with chunks none exceeds the maximum and all but the last are within 8 bytes of it, without there is at most one; and the chunks hold every byte under the tag of its token |
| PytorchTags.ByteTag | custom_parsers/pytorch_model_parser.c:193-218 | In a stream that tiles the source a byte has the tag of the token that holds it |
| PytorchTags.UnderExactly | custom_parsers/pytorch_model_parser.c:78-82 | The two directories are data/ and xl_model_weights/, at the start of a name or right after a slash |
| PytorchTags.DataByteTag | custom_parsers/pytorch_model_parser.c:23-53 | Every data byte of a compressed file of an archive has tag 5; of a stored one in the two directories 0, 1, 2 or 3 for a guessed width of 1, 2, 4 or 8; of another stored one 4 |
| PytorchTags.OtherByteTag | custom_parsers/pytorch_model_parser.c:205-207 | Every byte outside the data of the files has tag 6 |
| PytorchModel.SplitLast | custom_parsers/pytorch_model_parser.c:129-136 | Splitting the last array entry in place gives its pieces, within the capacity |
| PytorchModel.SplitOversized | custom_parsers/pytorch_model_parser.c:103-137 | The split never reaches its capacity checks and gives the pieces of the specification |
| PytorchModel.ModelChunks | custom_parsers/pytorch_model_parser.c:84-287 | For every source that lexes, with every chunk split by itself: bytes, tags, chunk sizes, piece sizes and alignment all hold at once |
| Dispatch.RestoreStreams | examples/training.cpp:122-133 | Dispatching into streams and restoring is the identity, for every input and segmentation |
| Dispatch.StreamMerge | examples/mbp10.cpp:154-162 | Merging neighbouring segments with one tag changes no stream |
| Dispatch.StreamGather | examples/training.cpp:122-133 | Dispatching a concatenation piece by piece concatenates the contributions of the pieces |
| Mbp10.RecordLen | examples/mbp10.cpp:124-130 | A record is never empty and never longer than what is left |
| Mbp10.Records | examples/mbp10.cpp:294-305 | The records of any byte string concatenate to it |
| Mbp10.SegmentList.Add | examples/mbp10.cpp:154-162 | Adding a segment merges it with an equal last one |
| Mbp10.InputTags | examples/mbp10.cpp:286-303 | All tags are below the reported number of streams |
| Mbp10.DispatchRecords | examples/mbp10.cpp:286-305 | Step 1 gives the merged segments of header and records, the number of streams and the number of book records |
| Mbp10.InputStreams | examples/mbp10.cpp:55-63 | For every byte string, each stream is the concatenation of what header and records contribute to it |
| Mbp10.CollectLength | examples/mbp10.cpp:318-326 | The record streams hold one integer of their width per book record |
| Mbp10Bytes.RecordLength | examples/mbp10.cpp:124-130 | The length of a record is four times its first byte, or what is left when that is 0 or too much |
| Mbp10Bytes.IsBookExactly | examples/mbp10.cpp:118-122 | A book record has 368 bytes, 92 as its first and 10 as its second |
| Mbp10Bytes.RecordsAfterMetadata | examples/mbp10.cpp:132-139 | The records of a DBN file start right after its metadata |
| Mbp10Bytes.HeaderExactly | examples/mbp10.cpp:132-139 | The metadata block, byte by byte, and when there is none |
| Mbp10Bytes.StreamsOnBytes | examples/mbp10.cpp:50-63 | The streams of step 1 are bytes 0 to 8, 16 to 32 and 48 to 368, 8 to 16, 32 to 40, 40 to 44 and 44 to 48 of every book record, and what is kept verbatim |
| Mbp10Bytes.ParsedOnBytes | examples/mbp10.cpp:271-352 | Without a book record the input is passed on; otherwise there are five streams, or six when something is kept verbatim, and the books are split again |
| Mbp10Bytes.InstrumentsOnBytes | examples/mbp10.cpp:236-269 | Each of the first 32 streams of step 2 holds what is left of the records of one instrument in input order, bytes 4 to 8 of the original record being its instrument; stream 32 those of all others |
| Mbp10Bytes.InstrumentParts | examples/mbp10.cpp:256-267 | Step 2 has a part for each instrument, 33 at most |
| Mbp10Bytes.FieldsAre | examples/mbp10.cpp:75-99 | Where every field of a book with any number of levels begins, its width, and whether it is delta-coded |
| Mbp10Bytes.FieldsOnBytes | examples/mbp10.cpp:201-232 | Step 3 gives 68 streams, each with the bytes of its field of every book |
| Mbp10Book.SplitInstruments | examples/mbp10.cpp:236-258 | Step 2 reads in bounds and gives the merged segments by instrument, the first 32 instruments having a stream each |
| Mbp10Book.InstrumentStreams | examples/mbp10.cpp:236-258 | Each stream of step 2 is the selection of the book records of its slot |
| Mbp10Book.PerInstrument | examples/mbp10.cpp:145-147 | Each of the first 32 streams holds exactly the records of one instrument in input order; stream 32 those of all others |
| Mbp10Book.BookFields | examples/mbp10.cpp:75-99 | The loop builds the head fields and ten levels |
| Mbp10Book.FieldsTotal | examples/mbp10.cpp:75-99 | The fields of a book record with any number of levels cover it exactly |
| Mbp10Book.SplitFields | examples/mbp10.cpp:201-219 | Step 3 gives one segment per field of every record |
| Mbp10Book.FieldStream | examples/mbp10.cpp:201-219 | The stream of a field of a record is the bytes of that field |
| Mbp10Book.FieldStreams | examples/mbp10.cpp:225-232 | Each field stream holds one integer of the field's width per record |
| Mbp10Book.RoundTrip | examples/mbp10.cpp:271-352 | For every byte string, undoing all three dispatches restores it |
| Mbp10Book.ParseInstruments | examples/mbp10.cpp:236-269 | Step 2 followed by step 3 of each instrument |
| Mbp10Book.ParseInput | examples/mbp10.cpp:271-352 | The whole parser gives the specified tree, which decodes to the input; without book records the input is passed on as it is |
| Mbp10Frames.RecordsPrefix | examples/mbp10.cpp:439-445 | Scanning the first k records alone finds the same k records |
| Mbp10Frames.FrameEnd | examples/mbp10.cpp:437-445 | A frame is a whole number of records, at most the maximum, plus the header for the first |
| Mbp10Frames.GroupSizes | examples/mbp10.cpp:437-445 | The groups of records concatenate to all records; every group but the last has exactly the maximum, and only that of an input without records is empty |
| Mbp10Frames.Compress | examples/mbp10.cpp:447-459 | The loop gives the specified frames; they concatenate to the input; a frame parsed alone finds its group of records exactly when it is the first or has no header of its own |
| Mbp10Frames.FrameIndependent | examples/mbp10.cpp:447 | The exact condition for a frame to be independent |
| Mbp10Frames.DbnFrameMisread | examples/mbp10.cpp:447 | An input whose second frame, with one record per frame, is not independent |
| PivcoTables.PartitionLo | scripts/gen_pivco_huffman_tables.py:47-66 | The two loops write the set lanes forward at the front and the unset lanes reversed at the back |
| PivcoTables.PartitionHiBase | scripts/gen_pivco_huffman_tables.py:69-84 | The same for the high half, shifted, with the unset lanes ending at the last low byte |
| PivcoTables.PartitionControlCorrect | scripts/gen_pivco_huffman_tables.py:91-96 | The low row overlaid with the high row loaded at its offset gathers all set lanes, then all unset lanes reversed |
| PivcoMerge.RowsOnLanes | scripts/gen_pivco_huffman_tables.py:47-84 | Entry by entry: a set lane at its rank from the front, an unset one at its rank from the back, the pad between |
| PivcoMerge.MergeLo | scripts/gen_pivco_huffman_tables.py:99-115 | The loop writes ranks of set lanes and flipped ranks of unset ones, then the number of set lanes |
| PivcoMerge.MergeHi | scripts/gen_pivco_huffman_tables.py:118-132 | The loop writes the high-half control |
| PivcoMerge.NeonRows | scripts/gen_pivco_huffman_tables.py:143-158 | The loops write the two NEON rows |
| PivcoMerge.MergeControlCorrect | scripts/gen_pivco_huffman_tables.py:99-132 | The combined AVX2 control holds each set lane's rank and each unset lane's flipped rank, over the whole register |
| PivcoMerge.NeonControlCorrect | scripts/gen_pivco_huffman_tables.py:143-158 | The difference of the NEON rows indexes the right source by rank, then the left one |
| PivcoMerge.MergeAt | src/openzl/codecs/pivco_huffman/arch/decode_pivco_arch.c:88-120 | Bit-by-bit merging takes each byte at its rank in its source |
| PivcoMerge.MergePick | src/openzl/codecs/pivco_huffman/arch/encode_pivco_arch.c:49-91 | Bit-by-bit merging undoes a partition, whatever follows in the buffers |
| PivcoMerge.CompactCorrect | src/openzl/codecs/pivco_huffman/arch/encode_pivco_avx2.c:46-129 | One shuffle gives the right values forward and the left values reversed |
| PivcoMerge.Avx2MergeCorrect | src/openzl/codecs/pivco_huffman/arch/decode_pivco_avx2.c:44-104 | The AVX2 kernel merges one register as the bit-by-bit reference does |
| PivcoMerge.NeonMergeCorrect | src/openzl/codecs/pivco_huffman/arch/decode_pivco_arm.c:51-69 | The NEON kernel merges one register as the bit-by-bit reference does |
| PivcoMerge.MergeConcat | src/openzl/codecs/pivco_huffman/arch/decode_pivco_avx2.c:98-103 | Merging some bits and then the next from where the sources stand is merging all |
| PivcoStreams.PartitionRegister | src/openzl/codecs/pivco_huffman/arch/encode_pivco_avx2.c:107-119 | Storing the shuffled register twice appends the right and the left values and touches nothing behind |
| PivcoStreams.PartitionBlock | src/openzl/codecs/pivco_huffman/arch/encode_pivco_avx2.c:84-129 | Two registers, both loaded before, append their right and left values and advance both cursors |
| PivcoStreams.PickPadded | src/openzl/codecs/pivco_huffman/arch/encode_pivco_avx2.c:92-95 | Clearing the bits beyond the end leaves the right values as they are and puts what was read too much behind the left ones |
| PivcoStreams.PartitionFull | src/openzl/codecs/pivco_huffman/arch/encode_pivco_avx2.c:131-158 | For ranks of any number, also when one buffer is the ranks themselves, the bitmap says which ranks go right, and the buffers hold the right and the left values |
| PivcoStreams.MergeRegister | src/openzl/codecs/pivco_huffman/arch/decode_pivco_avx2.c:81-96 | Either kernel merges a register bit by bit |
| PivcoStreams.MergeRun | src/openzl/codecs/pivco_huffman/arch/decode_pivco_avx2.c:63-104 | A run of registers continues the merge, in bounds, and advances each index by at most its output |
| PivcoStreams.MergeTail | src/openzl/codecs/pivco_huffman/arch/decode_pivco_avx2.c:205-219 | The last register with cleared bits, of which what is too much is dropped, completes the merge |
| PivcoStreams.CountDecides | src/openzl/codecs/pivco_huffman/arch/decode_pivco_arch.h:35-36 | A driver that stops at the end or when it took too much from one source counts the expected number exactly when the bitmap has it |
| PivcoStreams.MergeWide | src/openzl/codecs/pivco_huffman/arch/decode_pivco_avx2.c:163-182 | The wide phase, which does not check the indices, never passes the end of a source, for every bitmap |
| PivcoStreams.MergeNarrow | src/openzl/codecs/pivco_huffman/arch/decode_pivco_avx2.c:183-204 | Single registers, as many at a time as have room with the slop, stay in bounds for every bitmap and leave less than a register unless an index is outside |
| PivcoStreams.MergeAvx2 | src/openzl/codecs/pivco_huffman/arch/decode_pivco_avx2.c:138-221 | For every bitmap, consistent or not, nothing is read out of bounds; the count is the expected one exactly when the bitmap has that many ones, and then the output is the merge, bit by bit |
| PivcoStreams.MergeNeon | src/openzl/codecs/pivco_huffman/arch/decode_pivco_arm.c:124-206 | The same for the NEON driver |
| PivcoStreams.RoundTrip | benchmark/micro/micro_pivco_huffman.cpp:166-185 | Partition, in place or not, then merge with either driver is the identity on streams of any length |
| RepcodeTables.BuildRow | scripts/gen_decompress_field_lz_offset_tables.py:43-73 | The assignments of the loop body run the repcode update on positions |
| RepcodeTables.BuildTables | scripts/gen_decompress_field_lz_offset_tables.py:43-79 | The tables hold at a + 4b + 16c + 64d the row and the count of the types a, b, c, d |
| RepcodeTables.UpdateCases | src/openzl/codecs/lz/decode_field_lz.c:110-133 | What each of the four types does to the repcodes |
| RepcodeTables.SomeRows | src/openzl/codecs/lz/decode_field_lz_offset_tables.h:75 | Two rows as the generated header has them |
| RepcodeTables.Natural | scripts/gen_decompress_field_lz_offset_tables.py:43-68 | Updating positions and looking them up is updating the values, for any number of types |
| RepcodeTables.RowCorrect | src/openzl/codecs/lz/decode_field_lz.c:65-82 | Permuting the vector by a row gives the offsets and repcodes of the one-at-a-time update |
| RepcodeTables.UpdateConcat | src/openzl/codecs/lz/decode_field_lz.c:102-134 | Updating in two parts, the second from where the first stopped, is updating in one |
| RepcodeTables.DecodeBatches | src/openzl/codecs/lz/decode_field_lz.c:65-82 | For any run of batches with a batch of offsets readable before each, rows give the same offsets, final repcodes and number of explicit offsets as one at a time |
| RepcodeTables.DecodeFours | src/openzl/codecs/lz/decode_field_lz.c:65-82 | The same with the built tables, looked up by the index of four types |
| CsvLexer.FieldEnd | custom_parsers/csv/csv_lexer.c:67-97 | A field ends at a separator, a newline or the end of the input, and is not empty before another byte |
| CsvLexer.CountField | custom_parsers/csv/csv_lexer.c:69-89 | The quote-skipping loop finds the end of the field or an unterminated quote |
| CsvLexer.CountSeps | custom_parsers/csv/csv_lexer.c:134-145 | With null-awareness the size is that of the whole run of separators, else 1 |
| CsvLexer.Next | custom_parsers/csv/csv_lexer.c:66-151 | A token covers the bytes that the state moves over; only a field may be empty |
| CsvLexer.LexLoop | custom_parsers/csv/csv_lexer.c:54-151 | The loop with its jumps writes the tokens of the specification of a call into the arrays |
| CsvLexer.Lexer.constructor | custom_parsers/csv/csv_lexer.c:10-29 | The initial state |
| CsvLexer.Lexer.Lex | custom_parsers/csv/csv_lexer.c:31-165 | A call gives the specified tokens and state; an error leaves the state unchanged |
| CsvSpec.CallsAgree | custom_parsers/csv/tests/lex_test.cpp:29-50 | Without null-awareness, any sequence of budgets and size limits gives one and the same stream |
| CsvSpec.CallsAgreeKept | custom_parsers/csv/csv_lexer.c:59-64 | With null-awareness, the streams agree after dropping empty fields |
| CsvSpec.CallsAgreeExactly | custom_parsers/csv/csv_lexer.c:128-133 | With null-awareness, given calls give the stream of one call exactly when none ends between a separator and a newline |
| CsvSpec.SplitAnywhereExactly | custom_parsers/csv/csv_lexer.c:59-64 | With null-awareness, a text that lexes gives one and the same stream for every way of splitting the calls if and only if, outside quotes, no separator is right before a newline |
| CsvSpec.CallsExactly | custom_parsers/csv/csv_lexer.c:59-64 | Each call that ends between a separator and a newline loses exactly one token |
| CsvSpec.NullAwareSplitDiffers | custom_parsers/csv/tests/lex_test.cpp:29-50 | An input where lexing one token at a time changes the tokens |
| CsvSpec.CallProgress | custom_parsers/csv/csv_lexer.c:66-162 | A call with a budget on unfinished input fails, moves forward, or reads the field that was expected |
| CsvSpec.CallStops | custom_parsers/csv/csv_lexer.c:123-126 | A call passes no newline that ends at or beyond the size limit; when it has neither used up its tokens nor reached the end, its last token is a newline at or beyond the limit |
| CsvSpec.SuccessExactly | custom_parsers/csv/csv_lexer.c:66-151 | A text lexes without error if and only if its quotes are balanced and its terminated rows are equally wide; tokens mean what they should and cover the text |
| CsvSpec.ByteKinds | custom_parsers/csv/csv_lexer.c:99-150 | In a successful lex a byte is in a separator or newline token exactly when it is the separator or a newline after an even number of quotes |
| CsvField.WriteCsvField | cli/commands/cmd_benchmark.cpp:74-90 | The printer quotes a field exactly when it holds a comma, a quote or a line break, doubling quotes |
| CsvField.PrintedOnBytes | cli/commands/cmd_benchmark.cpp:74-90 | A field is quoted exactly when it holds a comma, a quote, a carriage return or a newline, and then each of its quotes is doubled |
| CsvField.UnquotedPrinted | cli/commands/cmd_benchmark.cpp:74-90 | Removing the quoting gives the string back |
| CsvField.LexPrinted | custom_parsers/csv/csv_lexer.c:66-97 | A printed field followed by a comma or newline is lexed as one field, quotes included |
| CsvField.LexRow | custom_parsers/csv/csv_lexer.c:66-150 | A printed row gives one field per string, separators between, and a newline |
| CsvField.TableRoundTrip | cli/commands/cmd_benchmark.cpp:74-90 | Any table of equally long rows of any strings is lexed without error into one field per string, and unquoting the fields gives the table back |
| ExtractStreams.WriteRecord | tools/zstrong_cpp.cpp:503-513 | The writer gives the 17-byte header and the content |
| ExtractStreams.RecordOnBytes | tools/zstrong_cpp.cpp:503-513 | A written record, byte by byte |
| ExtractStreams.ValidExactly | tools/zstrong_cpp.cpp:503-505 | What is written: 64-bit numbers, and as many bytes as their product modulo 2^64 |
| ExtractStreams.ReadAt64 | tools/zstrong_json.cpp:206-209 | Eight bytes are the writer's form of a number exactly when the reader reads that number |
| ExtractStreams.SplitStreams | tools/zstrong_json.cpp:198-222 | The shrinking loop ends on every byte string and gives the records or an error |
| ExtractStreams.SplitEncoded | tools/zstrong_json.cpp:198-222 | Splitting the concatenation of written records gives the same list |
| ExtractStreams.EncodeSplit | tools/zstrong_json.cpp:198-222 | Whatever the splitter accepts is the concatenation of the records it found |

## Left out

- ZipLexer.Lexer.LexOne: after an error the state of the lexer is not specified.
- ZipLexer.Lexer.Init: the state left behind by a failed initialization is not specified, and the log level and error texts are not modelled.
- ZipArchive.ArchiveLexed: bytes before an archive without files are not covered, since nothing tells them apart; for these the statements about any source apply.
- ZipRecords.EntryExactly: in a Zip64 entry the fixed positions 0 and 16 that the code reads are modelled, not the order that section 4.5.3 of APPNOTE.TXT prescribes.
- PytorchModel.Segment: the float width guess of a file's data is a parameter; processing a chunk never fails, since `ZL_Segmenter_processChunk` is not part of this model.
- PivcoStreams.MergeAvx2: for an inconsistent bitmap the output is unspecified and the number returned is only said to differ from the expected one.
- PivcoStreams.MergeNeon: loading the next mask ahead of its use is not modelled.
- PivcoTables.PartitionControlCorrect: a mask is a list of lane bits and a control byte a number below twice the pad; the 256 concrete rows are the instances with 8 lanes and the pad 0x80.
- RepcodeTables.RowCorrect: the shift of explicit offsets by the element width is applied before, and the 32-to-8-bit form of the rows is not modelled.
- CsvLexer.Lexer.Lex: token sizes and columns are not truncated to 32 bits, so inputs are below 2^32 bytes.
- ExtractStreams.WriteRecord: appending to the file, its lock and the parameter lookup are not modelled.
- Numeric conversion, delta, zigzag, metadata tags and successor graphs of the MBP-10 streams: library nodes; the model ends at the bytes of each stream.
- Memory allocation failures and scratch space lifetimes.
- Graph, profile and transform registration, command lines, file I/O, self-tests and benchmarks: wiring and plumbing.
- compress tables, AVX-512 permutes, mux-length and parse-integer tables: easier members of the same kind, or consumers that are not part of this model.
