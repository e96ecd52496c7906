# Verified model of the ycmd identifier engine and LSP clients

This project models, in Dafny, the parts of ycmd-cpp that compute: the identifier engine of `src/core` (UTF-8
splitting, the Unicode table lookup, normalisation, grapheme clusters, words and candidates, interning, smart
matching, ranking, partial sorting, the identifier database), the framing of LSP messages (`src/lsp/comms.cpp`), and
the bookkeeping of the clangd client (`src/completers/cpp/clangd_completer.cpp`): which documents the server has open,
and which request a response belongs to.

Code that changes things step by step is a method or a class, proved against a specification function or predicate;
the lemmas then say what that specification means.

| file | module | models |
|---|---|---|
| `Bytes.dfy` | `Bytes` | byte strings, thrown errors, concatenation, the order of `std::string` |
| `Utf8.dfy` | `Utf8` | the code point splitter |
| `CodePoints.dfy` | `CodePoints` | code points, the Unicode table and its binary search |
| `Segmentation.dfy` | `Segmentation` | grapheme clusters against section 3.1.1 of UAX #29, revision 37 |
| `Characters.dfy` | `Characters` | canonical ordering, the `Character` constructor, `NormalizeInput`, smart matching of characters |
| `Repository.dfy` | `Repositories` | the memo tables, with object identity |
| `Words.dfy` | `Words` | words and candidates |
| `WordCharacters.dfy` | `WordCharacters` | the characters words have, and smart matching between them |
| `Ranking.dfy` | `Ranking` | the LCS program, result features, `operator<` |
| `Matching.dfy` | `Matching` | the greedy matcher |
| `Prefilter.dfy` | `Prefilter` | the byte-set prefilter |
| `Sorting.dfy` | `Sorting` | `PartialSort` and the standard algorithms under it |
| `IdentifierDatabase.dfy` | `Database` | the database and its queries |
| `Framing.dfy` | `Framing` | printing and reading LSP frames |
| `DocumentSync.dfy` | `DocumentSync` | `sync_files` and the notifications it sends |
| `RequestTracker.dfy` | `RequestTracker` | `get_response`, `message_pump` and the pending requests |

## Parameters and hypotheses

- The Unicode table is a parameter (`Unicode.table`), sorted by original text (`TableSorted`), as the binary search
  needs. Two further conditions appear where a result needs them: `NormalClosed` (normal strings are fully decomposed)
  and `FoldKeepsKind` (a code point folds to marks if it is a mark, to other code points if not), asked of the code points
  of a text or of the rows of a table.
- `std::sort` over combining classes is a parameter (`Unicode.sortByClass`) with the standard's contract (`Sorts`):
  sorted, a permutation, nothing said about equal elements.
- The 64-bit hash of the document synchronisation is an arbitrary function.
- Hash maps are walked in an arbitrary order: nondeterministic choice in the database, order parameters in
  `SyncFiles`.
- The pipe of the LSP reader delivers any sequence of non-empty chunks.
- A C++ exception is a `Result` with the error; an exception leaves exactly the state the contract's error case states.

## What turned out not to hold

- The prefilter can drop a match. `Character` leaves extending marks out of its base by break property but appends the
  *folded* text of the rest, so a mark that folds to a letter matches that letter ignoring case while sharing none of
  its base bytes. U+0345 does so in the shipped table: it is EXTEND and folds to U+03B9 (entries 753 and 858 of the
  arrays at `src/core/UnicodeTable.inc:16-24`). `Prefilter.IotaIsDropped` is that case, `Prefilter.MarkFoldingAwayIsDropped`
  its family. `Prefilter.PrefilterExact` is the exact condition, over every `NormalClosed` table: no two texts lose a
  match iff case folding respects base bytes among the characters words can have. For one query, the prefilter is
  invisible as soon as that holds between its characters and those of the stored candidates (`Prefilter.PrefilterSound`,
  `Database.PrefilterInvisible`), as it does whenever their code points, once normalised, fold within their kind
  (`Database.StableTextsDropNothing`). U+0345 is the only fully decomposed code point of the shipped table that does not.
- didClose sends the bare file name as the URI (line 367 of the completer) where didOpen and didChange send
  `file://` and the name. Keyed by file name the server follows every run of syncs (`DocumentSync.RunReplays`); keyed by
  URI it ends a run in step exactly when no sync of the run closed anything (`DocumentSync.RunFollowsIffNothingCloses`).
- A sync compares hashes, so a text that collides with the one the server has is not sent. The server has the requested
  texts exactly when there is no such collision (`DocumentSync.ServerTexts`).
- `next_id` is a double: from 2^53 on it no longer grows. The pending ids of every run of at most n requests are distinct
  iff n is at most 2^53 + 1 (`RequestTracker.IdsDistinctIff`), and only so long does every handler get exactly the first
  response to its request (`RequestTracker.FirstAnswersIff`).
- The comment at `src/core/Candidate.cpp:84-86` has the two exits of the loop the wrong way round, and the comment at
  `src/core/Result.cpp:81-84` speaks of the candidate's word boundary characters where the code asks whether every query
  character is matched. The flag `is_regional_indicator_nb_odd` is set when the number of regional indicators so far is
  even. The model follows the code.

## Model

| member | source | states |
|---|---|---|
| `Bytes.LexCharacterised` | src/core/Result.cpp:137-139 | the order of std::string: the first difference decides, and without one the proper prefix is less |
| `Utf8.LeadBytes` | src/core/CodePoint.cpp:29-47 | the lead bytes of each length; 0x80 to 0xBF and 0xF8 to 0xFF lead nothing |
| `Utf8.BreakIntoPieces` | src/core/CodePoint.cpp:95-106 | the loop computes the split, including which error it throws |
| `Utf8.SplitCharacterised` | src/core/CodePoint.cpp:95-106 | a split succeeds with these pieces iff they concatenate to the text and each announces its own length |
| `Utf8.SplitErrors` | src/core/CodePoint.cpp:46-103 | a split throws an error iff some rest after well-shaped pieces begins with a byte that leads nothing, or is shorter than its lead byte says |
| `Utf8.SplitConcat` | src/core/CodePoint.cpp:95-106 | splitting distributes over concatenation whenever the left part splits |
| `Utf8.SplitEncoded` | src/core/CodePoint.cpp:95-106 | splitting the UTF-8 encoding (RFC 3629, section 3) of any scalar sequence gives the encoding of each scalar in order |
| `Utf8.EncodingInjective` | src/core/CodePoint.cpp:95-106 | no two scalar sequences have one encoding, so splitting loses nothing |
| `CodePoints.FindCodePoint` | src/core/CodePoint.cpp:50-73 | the binary search returns the row of the text if there is one, and otherwise a code point of that text in all forms, of no kind, class zero |
| `CodePoints.GetCodePoints` | src/core/Repository.h:68-96 | through the memo table of code points: entries agree with the Unicode table and never change, the new ones are the texts asked for, output i is the object of text i |
| `CodePoints.BreakIntoCodePoints` | src/core/CodePoint.cpp:95-109 | splitting and looking up every piece through the memo table, which keeps its entries and gains the pieces; or the decoding error |
| `Segmentation.PictographStep` | src/core/Word.cpp:152-216 | the GB11 look-behind over one more code point |
| `Segmentation.IndicatorStep` | src/core/Word.cpp:218-246 | the GB12/GB13 parity over one more code point |
| `Segmentation.HangulSyllables` | src/core/Word.cpp:81-139 | two Hangul code points stay together iff the second goes on in the syllable stage the first ends in, or begins the next |
| `Segmentation.MarksJoin` | src/core/Word.cpp:63-262 | a mark or joiner begins a cluster only after a control, and nothing but a control begins one after a prepended mark |
| `Segmentation.ControlsStandAlone` | src/core/Word.cpp:64-80 | a control is a cluster of its own, but for CR LF, which is one |
| `Segmentation.TwoFlagsSuffice` | src/core/Word.cpp:54-267 | the two flags decide the boundary as rules GB3 to GB999 do, carry over, and are both false after every break |
| `Segmentation.Decide` | src/core/Word.cpp:63-262 | the switch joins exactly when the rules, with the flags for look-behind, give no boundary, and updates the flags |
| `Segmentation.BreakCodePointsIntoCharacters` | src/core/Word.cpp:31-268 | the machine returns the texts of the clusters of the standard |
| `Segmentation.ClustersAreTheSegmentation` | src/core/Word.cpp:28-32 | the clusters are the one cut into non-empty parts that begin exactly where the standard has a boundary |
| `Segmentation.ClusterTextsJoin` | src/core/Word.cpp:42-71 | the concatenated clusters are the concatenated normal strings |
| `Segmentation.LookBehindStops` | src/core/Word.cpp:54-267 | after a boundary the rules see the same in the rest of the text alone |
| `Segmentation.ClustersRestart` | src/core/Word.cpp:54-267 | segmenting the whole is segmenting the part before a boundary, then the part after it |
| `Segmentation.ClusterIsWhole` | src/core/Word.cpp:54-267 | every cluster, segmented alone, is one cluster |
| `Characters.FindIf` | src/core/Character.cpp:41-54 | the search finds the next class that is, or is not, zero |
| `Characters.SortNextRun` | src/core/Character.cpp:39-59 | one turn sorts one run and strictly advances the start position |
| `Characters.CanonicalSort` | src/core/Character.cpp:35-62 | the in-place loop computes the canonical order and terminates |
| `Characters.CanonicalOrderCorrect` | src/core/Character.cpp:33-62 | a permutation; class zero stays in place and is crossed by nothing; runs of non-zero classes ascend |
| `Characters.ConstructCharacter` | src/core/Character.cpp:75-102 | the decoding error, or a character made of the code points of the text in a canonical order; they end up in their memo table |
| `Characters.AssembleCharacter` | src/core/Character.cpp:84-101 | the four texts join those of the code points in order, the base without PREPEND, EXTEND and SPACINGMARK; the character is a base iff it has none of these, and has each other flag iff some code point has it |
| `Characters.AssembleSnoc` | src/core/Character.cpp:84-101 | what one more code point adds to each field; marks leave the base alone |
| `Characters.AssembleIsMadeOf` | src/core/Character.cpp:75-101 | the same of the fields as a function of the code points; of none, they are those of an empty base character |
| `Characters.ComputeNormalizeInput` | src/core/Character.cpp:105-113 | the normal strings of the code points, joined in order, or the decoding error |
| `Characters.NormalFormFixed` | src/core/Character.cpp:68-71 | a text of fully decomposed code points is a fixed point of NormalizeInput |
| `Characters.NormalizeIdempotent` | src/core/Character.cpp:105-113 | normalising twice is normalising once, over a table of fully decomposed normal strings |
| `Repositories.Repository.GetValueElseInsert` | src/core/Utils.h:66-73 | the entry of the key if there is one, otherwise a new null entry |
| `Repositories.Repository.Keep` | src/core/Repository.h:87-89 | a null entry gets a new object |
| `Repositories.Repository.OneMade` | src/core/Repository.h:82-89 | an entry that was missing or null is what fresh construction gives, and null if that throws; no other changes |
| `Repositories.Repository.StopsAt` | src/core/Repository.h:76-92 | when a construction throws, the outcome is the error constructing every element afresh gives, and the entries made are those of the attempted texts |
| `Repositories.Repository.Ends` | src/core/Repository.h:76-96 | otherwise the outcome is that of constructing every element afresh, and output i is the object of element i |
| `Repositories.Repository.ClearElements` | src/core/Repository.h:99-101 | no entry is left |
| `Repositories.Repository.constructor` | src/core/Repository.h:104 | a table starts empty |
| `Repositories.GotTwice` | src/core/Repository.h:46-96 | across calls, equal texts get the same object |
| `Words.ComputeBytesPresent` | src/core/Word.cpp:280-286 | the bits set are the bytes of the bases |
| `Words.GetCharacters` | src/core/Repository.h:68-96 | through the memo table of characters: entries agree with fresh construction and never change, the new ones are the attempted texts, output i is the object of text i, a throw is the first one; the code points of every character are in theirs |
| `Words.ConstructWord` | src/core/Word.cpp:272-293 | through both memo tables, the word fresh construction gives, or its error; the tables keep their entries and gain all the word is made of |
| `Words.BuiltIsWord` | src/core/Word.cpp:272-293 | a word has its text, for every cluster a character made of its code points, and exactly the bytes of their bases |
| `Words.CharacterTextsNormal` | src/core/Character.cpp:68-71 | every character text Word builds is a fixed point of NormalizeInput: the assertion holds |
| `Words.WordBuilds` | src/core/Word.cpp:289-293 | a word can be built of exactly the texts that split, and fails for the same reason |
| `Words.ComputeCaseSwappedText` | src/core/Candidate.cpp:23-27 | the swapped texts of the characters, joined in order |
| `Words.ComputeWordBoundaryChars` | src/core/Candidate.cpp:30-55 | a first character that is no punctuation, uppercase characters after others, letters after punctuation: all of them, in order |
| `Words.WordBoundaryCharsExact` | src/core/Candidate.cpp:30-55 | the same as a function of the characters, with the positions |
| `Words.ComputeTextIsLowercase` | src/core/Candidate.cpp:58-67 | true iff no character is uppercase |
| `Words.ConstructCandidate` | src/core/Candidate.cpp:70-75 | the candidate fresh construction gives, or its error, with the same effect on the memo tables |
| `Words.BuiltIsCandidate` | src/core/Candidate.cpp:23-75 | a candidate has its word, its swapped text, its word boundary characters, and is lowercase iff it has no uppercase character |
| `WordCharacters.NormalTextDetermines` | src/core/Character.h:75-97 | fully decomposed code points can be read back from their normal text |
| `WordCharacters.BuiltOfSelfNormal` | src/core/Character.cpp:75-102 | every character of a word is made of fully decomposed code points |
| `WordCharacters.NormalDeterminesCharacter` | src/core/Character.h:75-97 | so two characters of words with one normal text are equal: the last arm of MatchesSmart is equality |
| `WordCharacters.SmartMatchIsTable` | src/core/Character.h:87-97 | between characters of words, MatchesSmart by case: a lowercase base matches equal bases or equal folded texts, an uppercase base itself or an uppercase character of its base, a lowercase character with marks equal folded texts, an uppercase one with marks itself alone |
| `WordCharacters.DocumentedMatches` | src/core/Character.h:86-91 | the sixteen pairs of the documented examples, for any letter in two cases and any mark |
| `Ranking.LongestCommonSubsequenceLength` | src/core/Result.cpp:25-51 | the two rows return the maximum length of a common subsequence under base equality: attained, never exceeded |
| `Ranking.FillRow` | src/core/Result.cpp:37-43 | one row of the table from the row before it |
| `Ranking.LcsIsLongest` | src/core/Result.cpp:25-51 | the recurrence gives the maximum, no longer than either sequence |
| `Ranking.LcsSymmetric` | src/core/Result.cpp:27-28 | swapping longer and shorter changes nothing |
| `Ranking.ConstructResult` | src/core/Result.cpp:56-153 | same start iff both words begin with one base; the longest common subsequence of the query and the word boundary characters, or 0 if either word is empty; the rest as given |
| `Ranking.RankForQuery` | src/core/Result.cpp:143-153 | the word boundary matches never exceed the query length |
| `Ranking.LessComparesKeys` | src/core/Result.cpp:71-140 | over the results of one query operator< is the lexicographic order of one key, with fully matched results told apart up front |
| `Ranking.DocumentedOrder` | src/core/Result.cpp:76-135 | the ten documented conditions in their order, each deciding where those before it do not |
| `Ranking.EmptyQueryOrder` | src/core/Result.cpp:137-139 | for an empty query, only the order of the swapped texts counts |
| `Ranking.LessIsStrictWeakOrder` | src/core/Result.cpp:71-140 | irreflexive, asymmetric, transitive, negatively transitive; ties are equal keys |
| `Matching.QueryMatchResult` | src/core/Candidate.cpp:78-131 | the loop computes the result of the greedy positions, or no result |
| `Matching.GreedyFits` | src/core/Candidate.cpp:95-97 | a query longer than the candidate never matches, so the early exit is sound |
| `Matching.GreedyLeast` | src/core/Candidate.cpp:78-131 | any embedding makes the matcher succeed, and is nowhere before the greedy positions |
| `Matching.MatchIffEmbeds` | src/core/Candidate.cpp:78-131 | the matcher succeeds iff a strictly increasing embedding exists |
| `Matching.MatchIffTable` | src/core/Candidate.cpp:78-131 | between words, the matcher succeeds iff increasing positions meet the table of smart matching at every query character |
| `Matching.EmbeddingByTable` | src/core/Candidate.cpp:78-131 | such positions put every uppercase query character on an uppercase character |
| `Matching.MatchSumLeast` | src/core/Candidate.cpp:99-124 | the index sum is the minimum over all embeddings, and attained |
| `Matching.PrefixFlag` | src/core/Candidate.cpp:119-124 | twice the sum is at least m(m-1); equality iff the prefix flag iff the first m characters match pointwise |
| `Prefilter.PrefilterSound` | src/core/Word.h:63-65 | between two words among whose characters folding respects base bytes, an embedding implies ContainsBytes |
| `Prefilter.CharacterAlone` | src/core/Word.cpp:272-277 | every character of a word is the only character of some word |
| `Prefilter.PrefilterExact` | src/core/Word.h:61-65 | the prefilter drops no match between any two texts iff case folding respects base bytes among the characters of words |
| `Prefilter.BaseFromFolded` | src/core/Character.cpp:84-100 | where folding keeps marks and others apart, the base is a function of the folded text |
| `Prefilter.StableTextsRespect` | src/core/Character.h:92-97 | between texts whose normalised code points fold so, folding respects base bytes |
| `Prefilter.TableMakesTextsStable` | src/core/Character.cpp:92-100 | a condition on table rows makes every text such |
| `Prefilter.MarkFoldingAwayIsDropped` | src/core/IdentifierDatabase.cpp:143-146 | a mark that folds to a lowercase letter matches the letter and is rejected all the same |
| `Prefilter.IotaIsDropped` | src/core/Character.cpp:92-100 | U+0345 and U+03B9 of the shipped table are such a pair |
| `Sorting.StdPartialSort` | src/core/Utils.h:137-139 | std::partial_sort: the smallest elements in front, sorted |
| `Sorting.StdNthElement` | src/core/Utils.h:141-143 | std::nth_element: nothing from the position on is less than anything before it, nothing after it less than the element there |
| `Sorting.StdSort` | src/core/Utils.h:144 | std::sort of a prefix; the rest untouched |
| `Sorting.PartialSort` | src/core/Utils.h:118-151 | both branches meet one specification for any strict weak order on the elements |
| `Sorting.SortedAfterPartition` | src/core/Utils.h:141-144 | partitioning, then sorting the front alone, sorts the smallest elements |
| `Sorting.PartialSortUnique` | src/core/Utils.h:115-117 | two answers agree position by position, up to ties |
| `Database.SlotOfWithSlot` | src/core/IdentifierDatabase.cpp:164-169 | assigning one slot changes no other |
| `Database.AddOnceIdempotent` | src/core/IdentifierDatabase.cpp:91-98 | adding is idempotent and never makes a text occur twice |
| `Database.AddOnceAdds` | src/core/IdentifierDatabase.cpp:91-98 | what is in a slot stays, in order; the clipped text is appended at most once, and only if it was not there |
| `Database.StoredInSlots` | src/core/IdentifierDatabase.cpp:126-130 | what a query walks through are the candidates of all slots of the filetype |
| `Database.IdentifierDatabase.constructor` | src/core/IdentifierDatabase.cpp:62-64 | a database starts empty |
| `Database.IdentifierDatabase.GetCandidateSet` | src/core/IdentifierDatabase.cpp:164-169 | makes the slot if it is not there and changes nothing else |
| `Database.IdentifierDatabase.GetCandidates` | src/core/Repository.h:68-96 | through the memo table of candidates, as for characters; object i has the text of element i, or no text if that is over 80 bytes; all that a candidate is made of is in the other two tables |
| `Database.IdentifierDatabase.RecreateIdentifiers` | src/core/IdentifierDatabase.cpp:102-191 | the slot gets a candidate for every identifier, in order, with its text or none if it is over 80 bytes; on a decoding error its old contents stay; the memo tables keep every entry |
| `Database.IdentifierDatabase.RecreateAllIdentifiers` | src/core/IdentifierDatabase.cpp:67-78 | every named slot is recreated so and no other changes; an error stops the walk between two slots; the memo tables keep every entry |
| `Database.IdentifierDatabase.AddSingleIdentifier` | src/core/IdentifierDatabase.cpp:81-99 | the slot keeps what it has, and has the clipped text, appended only if it was not there; no slot changes on an error; the memo tables keep every entry |
| `Database.IdentifierDatabase.CollectResults` | src/core/IdentifierDatabase.cpp:128-155 | whatever the walk, the results are the hits of the filetype, each once |
| `Database.IdentifierDatabase.ResultsForQueryAndType` | src/core/IdentifierDatabase.cpp:113-159 | the best max_results of the hits, or all, sorted, those that start with the base of the query first; and of all non-empty candidates the query embeds in, unless folding matches a query character to a stored one that lacks its base bytes |
| `Database.KeptExactly` | src/core/IdentifierDatabase.cpp:143-152 | a hit is a non-empty candidate the query embeds in whose bases have every byte of the bases of the query |
| `Database.MatchByTable` | src/core/IdentifierDatabase.cpp:143-152 | and, prefilter aside, one with positions by the table of smart matching |
| `Database.PrefilterInvisible` | src/core/IdentifierDatabase.cpp:143-152 | then filtering by bytes first changes no answer |
| `Database.StableTextsDropNothing` | src/core/IdentifierDatabase.cpp:143-146 | so it is whenever the normalised code points of the query and of the stored texts fold within their kind |
| `Database.StableTablesDropNothing` | src/core/IdentifierDatabase.cpp:143-146 | and for every query and database over a table that folds within kind |
| `Database.MatchIsRank` | src/core/IdentifierDatabase.cpp:148-152 | a match is ranked by the least index sum and the pointwise prefix test |
| `Database.HitsDistinctTexts` | src/core/IdentifierDatabase.cpp:128-141 | no two hits have the same text |
| `Database.BestOfAll` | src/core/IdentifierDatabase.cpp:157-158 | when nothing is cut off the answer holds every hit |
| `Database.LeastSum` | src/core/Candidate.cpp:99-124 | the sum a match is ranked by is the least of all embeddings |
| `Database.EachTextOnce` | src/core/IdentifierDatabase.cpp:113-159 | no text is returned twice; with nothing cut off (max_results zero or not below the number of matches), exactly the texts of the non-empty candidates the query embeds in |
| `Database.PartialSortIsBest` | src/core/IdentifierDatabase.cpp:157-158 | a partial sort of the hits keeps the best of them, each once |
| `Framing.MessageReader.ReadSome` | src/lsp/comms.cpp:41-145 | a read moves bytes from the pipe to the buffer and loses none |
| `Framing.MessageReader.ReadUntilNewline` | src/lsp/comms.cpp:39-45 | buffers up to the first line end of the remaining bytes, or to the end of the stream |
| `Framing.MessageReader.ReadExactly` | src/lsp/comms.cpp:139-147 | buffers as many bytes as the message has |
| `Framing.MessageReader.ReadHeaderLines` | src/lsp/comms.cpp:32-123 | the header loop ends with the content length at the byte the stream function says, or with the incomplete line the stream ends in |
| `Framing.MessageReader.NextMessage` | src/lsp/comms.cpp:24-165 | one resumption yields the first message of the remaining bytes and leaves what follows it, however they are chunked |
| `Framing.MessageReader.Drain` | src/lsp/comms.cpp:30-164 | repeated resumption yields the messages of the stream, empties the pipe, and leaves in the buffer the incomplete line or body after the last message, if any |
| `Framing.MessageWriter.SendMessage` | src/lsp/comms.cpp:167-186 | one frame is written |
| `Framing.SendAll` | src/lsp/comms.cpp:167-186 | sending messages one after the other writes their frames in order |
| `Framing.FromCharsDecimal` | src/lsp/comms.cpp:108-176 | parsing a printed size gives it back |
| `Framing.DecimalLength` | src/lsp/comms.cpp:174-176 | a size is printed in base ten, without leading zeros |
| `Framing.NameInAnyCase` | src/lsp/comms.cpp:78-91 | a header names the length iff it spells content-length, every letter in either case |
| `Framing.LengthLineRead` | src/lsp/comms.cpp:74-122 | the length line announces the length, in any case, with any white space and any number of CRs |
| `Framing.SkipBlanks` | src/lsp/comms.cpp:131-137 | blank lines between frames are skipped |
| `Framing.SkipOthers` | src/lsp/comms.cpp:87-91 | other header lines change nothing |
| `Framing.SkipEmptyPacket` | src/lsp/comms.cpp:131-137 | a frame that announces no bytes is skipped |
| `Framing.SkipBadLength` | src/lsp/comms.cpp:93-137 | a length that is missing, no number or too large ends the headers, and reading starts over after its line |
| `Framing.ReadPacket` | src/lsp/comms.cpp:24-165 | reading a frame as any program may write it yields its body and leaves exactly what follows |
| `Framing.ReadPackets` | src/lsp/comms.cpp:24-165 | any sequence of such frames is read back in order with no byte over |
| `Framing.FrameSpelled` | src/lsp/comms.cpp:174-178 | the bytes send_message writes |
| `Framing.FrameIsPacket` | src/lsp/comms.cpp:174-178 | what send_message writes is such a frame |
| `Framing.FramesArePackets` | src/lsp/comms.cpp:167-186 | so are the frames of any non-empty messages, in order |
| `Framing.Receive` | src/lsp/comms.cpp:24-165 | any sequence of such frames, in any chunking, is received as its messages in order, and no byte is left in the pipe or the buffer |
| `Framing.ReceiveSent` | src/lsp/comms.cpp:24-186 | in particular what send_message writes for any non-empty messages |
| `DocumentSync.ClangdDocuments.UpdateOne` | src/completers/cpp/clangd_completer.cpp:310-354 | one requested file: opened, changed by one version, or left alone; what is sent has its URI, text and, on opening, first file type |
| `DocumentSync.ClangdDocuments.UpdateRequested` | src/completers/cpp/clangd_completer.cpp:308-355 | the first loop, in any order |
| `DocumentSync.ClangdDocuments.CloseOthers` | src/completers/cpp/clangd_completer.cpp:357-375 | the second loop, in any order |
| `DocumentSync.ClangdDocuments.SyncFiles` | src/completers/cpp/clangd_completer.cpp:304-378 | the records are those of the request; all notifications ever sent replay without breaking the protocol, into documents with the recorded versions and hashes |
| `DocumentSync.SyncRecords` | src/completers/cpp/clangd_completer.cpp:304-378 | the records after a sync do not depend on the orders of the walks |
| `DocumentSync.SyncReplays` | src/completers/cpp/clangd_completer.cpp:320-369 | from any agreeing server state, a sync opens only closed documents, changes and closes only open ones, counts versions by one, and ends in agreement |
| `DocumentSync.SyncSendsNotices` | src/completers/cpp/clangd_completer.cpp:320-369 | every notification is of a requested file, with its URI, text and first file type, or closes another one under its bare name |
| `DocumentSync.SyncIsIdempotent` | src/completers/cpp/clangd_completer.cpp:314-370 | repeating a sync sends nothing and changes nothing |
| `DocumentSync.ServerTexts` | src/completers/cpp/clangd_completer.cpp:310-337 | after a sync the server has the requested files, each with the requested text unless it had another of that hash; so the requested texts iff no two collide |
| `DocumentSync.RunReplays` | src/completers/cpp/clangd_completer.cpp:304-378 | every run of syncs replays without breaking the protocol, into documents that agree with the records |
| `DocumentSync.ClosesLeaveExcess` | src/completers/cpp/clangd_completer.cpp:357-370 | keyed by URI, every close leaves the server with names too long for the documents, for good |
| `DocumentSync.UrisFollowIffNoCloses` | src/completers/cpp/clangd_completer.cpp:327-367 | from an agreeing state, a server that knows documents by URI follows what is sent iff it has no didClose |
| `DocumentSync.RunFollowsIffNothingCloses` | src/completers/cpp/clangd_completer.cpp:304-378 | it ends a run of syncs in step with the client iff no sync of the run closed anything |
| `RequestTracker.ClangdRequests.GetResponse` | src/completers/cpp/clangd_completer.cpp:193-216 | registers the handler under the next id |
| `RequestTracker.ClangdRequests.HandleMessage` | src/completers/cpp/clangd_completer.cpp:234-292 | a response completes the first pending request with its id; everything else is ignored |
| `RequestTracker.RunInvariant` | src/completers/cpp/clangd_completer.cpp:188-294 | over every interleaving: issued is the disjoint union of pending and completed; a handler fires at most once, with its own id |
| `RequestTracker.PendingIdsBelowNext` | src/completers/cpp/clangd_completer.cpp:203-206 | up to 2^53 requests, pending ids are the numbers of their requests, distinct, and below next_id |
| `RequestTracker.UnansweredRun` | src/completers/cpp/clangd_completer.cpp:193-216 | after n unanswered requests, request k is pending k-th under its id |
| `RequestTracker.IdsDistinctIff` | src/completers/cpp/clangd_completer.cpp:57-204 | the pending ids of every run of at most n requests are distinct iff n is at most 2^53 + 1 |
| `RequestTracker.FiredIffFirstAnswer` | src/completers/cpp/clangd_completer.cpp:272-291 | so long, handler k has fired with a message iff it is the first response with id k after request k was issued |
| `RequestTracker.DuplicateMisfires` | src/completers/cpp/clangd_completer.cpp:272-291 | a run of 2^53 + 2 requests and one response sent twice in which a handler gets a response to another request |
| `RequestTracker.FirstAnswersIff` | src/completers/cpp/clangd_completer.cpp:188-294 | that holds in every run of at most n requests iff n is at most 2^53 + 1 |

## Left out

- The HTTP server, coroutine plumbing, flags, logging, Python embedding, regular expression extraction and cursor
  arithmetic: input and output, wrappers, or libraries whose behaviour is not part of this model.
- JSON: a message is its dumped bytes in `Framing`, and its method, id and the rest in `RequestTracker`; a payload that does
  not parse, or an id that is neither string nor number, ends the C++ generator or pump and has no counterpart.
- Launching clangd, initialisation, and mapping completion items: a foreign process and field copying.
- Interleaving of two `sync_files` calls or two sends: each runs to completion here.
- Tag files and file system paths; equal paths are equal strings.
- The contents of the Unicode table, apart from the two entries named above; that NUL stands in it as the empty string.
- Stability of the canonical reordering, which `std::sort` does not promise.
- Object lifetimes and locks (commented out in the source). Words and candidates are values; only the memo tables have
  object identity.
- Fixed widths: sums, versions and lengths are unbounded, except the size parsed by `Framing.FromChars` and `next_id`.
- The cost of the algorithms: `StdPartialSort`, `StdNthElement` and `StdSort` all stand on one selection routine; callers
  see only the standard contracts.
- Numeric response ids that are not integers: they equal no issued id, like any unknown id.
