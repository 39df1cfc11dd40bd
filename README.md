# pg_bulkload reader: a verified model

This project models the reader of pg_bulkload, the loader's control logic in
`lib/reader.c`. It covers six parts:

- **Resolving the control directives** (`ReaderCreate`, `choice`,
  `ParseControlFileLine`, `ParseControlFile`).
  - The control file is read in `fgets` buffers and the inline options in
    '\n'-terminated segments.
  - Each line loses its comment, is split at its first unquoted `=` and
    becomes a `keyword = value` directive applied to the Reader.
  - Most keywords may be given once only.
  - After the last line:
    1. TYPE, TABLE and INFILE must be present.
    2. Missing output file names are derived from a prefix.
    3. The quotas and the writer get their defaults.
    4. The four file names must be pairwise distinct.
- **The parse-error quota loop** (`ReaderNext`). Parse errors are absorbed,
  counted and written to the parse bad file until the count passes
  PARSE_ERRORS. Shutdown, cancel and non-field errors are re-raised.
- **Tuple shaping** (`TupleFormerInit`, `TupleFormerNullTuple`,
  `tupledesc_match`). This covers the column mapping over the live columns,
  the all-null row, and the check that a function's result row fits the
  target table.
- **The filter function** (`FilterInit`, `FilterTuple`). Covered here:
  - the catalog checks;
  - the strict short cut;
  - a null result giving an all-null row;
  - the result-shape cache.
- **The checker flags** (`CheckerInit`).
- **The parameter dump** (`ReaderDumpParams`). The model proves that the
  dump reads back as the same settings when it is parsed as a control file.

## Modules

- `Wrappers`: Option and Result.
- `StrUtil`: the string helpers the reader calls (trimming, searching outside
  quotes, unquoting, quoting, case folding and the integer and boolean
  parsers). Their C code is in `pg_strutil.c`, which is not part of this
  model, so each has a small specification of its own.
- `ControlFile`: the Reader's settings as a record of optional fields, the
  lexing of one line, the effect of one directive, the line fold, the final
  checks and defaults, and the imperative `ParseControlFile` proved equal to
  the functional `Resolve`.
- `ControlFacts`: properties of resolution, plus the option-copy finding.
- `Errors`: the error codes the reader tells apart.
- `ReaderLoop`: `ReaderNext` as a class whose `Next` method is proved
  against the function `NextFrom`.
- `TupleDesc`: attributes, rows, live columns and `tupledesc_match`.
- `FilterStage`: the tuple former and the filter as classes over arrays, with
  `FilterTuple` proved against `FilterSpec`.
- `Checker`: `CheckerInit` as a class method proved against `InitFlags`.
- `DumpParams`: the dump, its read-back proof and the TABLE-line finding.

## How the model treats the environment

- **Parser.** The parser's reads are a script of outcomes (a tuple, the end
  of input, or an error with its code, `parsing_field` and dumped record).
  `ParserParam` is an oracle parameter.
- **Control file.** The control file is given as its text. The generated
  output-file prefix is an opaque string. It stands for the loader
  directory, the timestamp and the database, schema and table names.
- **Catalog.** No lookups are made. The target table's qualified name, the
  function's catalog entry, the relation's constraints and the database
  encoding are all parameters.
- **Errors.** `ereport(ERROR)` becomes a `Failure` value. In the control
  directives the error carries the number of the line being parsed.

Details of `lib/reader.c` that the model keeps:

- `TYPE = FIXED` selects the binary parser, as BINARY does.
- `LOADER` is accepted for WRITER, `MAX_ERR_CNT` for PARSE_ERRORS and `LIMIT`
  for LOAD.
- `LOAD = INFINITE` may be repeated, because INT64_MAX is also LOAD's "not
  given" marker.
- The dump is modelled with its TABLE line quoted (`DumpParams.TableLine`).
  The bare name the code prints is `DumpParams.TableLineAsWritten` (see
  Findings).

## Model

| member | source | states |
|---|---|---|
| StrUtil.Lower | lib/reader.c:194-301 | the ASCII case folding pg_strcasecmp compares: same length, each character folded |
| StrUtil.IndexOf | lib/reader.c:145-147 | strchr: the first position of the character, with none before it; None exactly when it is absent |
| StrUtil.LastIndexOf | lib/reader.c:437-438 | strrchr: the last position of the character, with none after it; None exactly when it is absent |
| StrUtil.LastAt | lib/reader.c:437-438 | a position holding the character with none after it is the one strrchr finds |
| StrUtil.TrimSpace | lib/reader.c:158-161 | the result is the part of the text that starts where its leading white space ends, with only white space after it; it has no white space at either end, and is empty exactly when the text is all white space |
| StrUtil.TrimKeepsOut | lib/reader.c:178-179 | trimming adds no character to the text |
| StrUtil.TrimTwice | lib/reader.c:159-178 | trimming twice is trimming once |
| StrUtil.FindUnquotedFrom | lib/reader.c:152-154 | FindUnquotedChar: a found position is in the text and holds the target; on quote-free text it is the first occurrence (FindPlainIsIndexOf), and a quoted value is skipped whole (FindSkipsQuoteString) |
| StrUtil.FindPlainIsIndexOf | lib/reader.c:152-154 | in a text without quotes the search finds the plain first position, as strchr would |
| StrUtil.UnquoteFrom | lib/reader.c:181-186 | UnquoteString: the result is never longer than the text; a text without quotes unquotes to itself; a quote left open fails (UnclosedQuote) |
| StrUtil.UnclosedQuote | lib/reader.c:181-186 | inside quotes, a text without a closing quote does not unquote |
| StrUtil.LoneQuoteUnterminated | lib/reader.c:181-186 | a text with a single quote does not unquote |
| StrUtil.TrimmedLoneQuote | lib/reader.c:179-186 | a text with a single quote still does not unquote once trimmed |
| StrUtil.ParseInt64 | lib/reader.c:270-285 | a value is an int64; any value other than INT64_MAX is at least the lower bound; INFINITE in any case is INT64_MAX |
| StrUtil.ParseBoolean | lib/reader.c:300 | an empty value gives the default; a value is accepted exactly when its lower case is one of the eight spellings, and is true exactly for true/yes/on/1 |
| StrUtil.FindAbsent | lib/reader.c:152 | a search for a character the text does not hold finds nothing, inside quotes or not |
| StrUtil.SkipEscaped | lib/reader.c:152 | inside quotes, the search passes over an escaped text whole |
| StrUtil.FindSkipsQuoted | lib/reader.c:152 | a search that starts inside quotes skips the escaped text and its closing quote, then goes on outside quotes |
| StrUtil.FindSkipsQuoteString | lib/reader.c:152 | outside quotes, the search passes over a whole QuoteString text |
| StrUtil.UnquotePlainPrefix | lib/reader.c:181-186 | unquoting passes a prefix without quotes through unchanged |
| StrUtil.EscapeUnchanged | lib/reader.c:657 | a text without quote or escape characters is its own escaped form |
| StrUtil.UnquoteEscaped | lib/reader.c:181-186 | unquoting the escaped text and a closing quote, from inside quotes, gives back the text |
| StrUtil.QuoteRoundTrip | lib/reader.c:657 | UnquoteString undoes QuoteString for every text |
| StrUtil.ParseDecimalOfIntToString | lib/reader.c:686 | the decimal parser reads back every integer int64_FMT prints, negative ones included |
| StrUtil.ParseInt64OfIntToString | lib/reader.c:686 | ParseInt64 reads back every printed int64 its lower bound admits |
| StrUtil.TrimUnpadded | lib/reader.c:158 | trimming leaves text without white space at its ends alone |
| StrUtil.TrimLeadingSpace | lib/reader.c:178-179 | white space in front of a text is trimmed away |
| StrUtil.TrimTrailingSpace | lib/reader.c:178-179 | white space after a text is trimmed away |
| StrUtil.FindAfterPlain | lib/reader.c:166 | outside quotes, the first target after a text without quotes or targets is found at the text's length |
| ControlFile.Choice | lib/reader.c:101-114 | the index of the first key equal ignoring case, with no earlier key equal; None exactly when no key is equal |
| ControlFile.LineText | lib/reader.c:143-147 | the buffer up to its first '\n', which the result does not contain |
| ControlFile.StripComment | lib/reader.c:149-154 | either the whole text, or the prefix that ends just before a '#'; where the cut falls is pinned by CommentCut, QuotedHashFound and QuotedCommentIgnored |
| ControlFile.LexContent | lib/reader.c:156-186 | blank exactly when the trimmed text is empty; invalid input exactly when the trimmed text is not empty and has no '=' outside quotes; every other failure is the unterminated quote, never the too-long error; a directive's keyword is trimmed |
| ControlFile.LexDirective | lib/reader.c:166-186 | invalid input exactly when there is no '=' outside quotes; otherwise the unterminated quote or a directive with a trimmed keyword |
| ControlFile.LexContentAt | lib/reader.c:166-189 | a trimmed line whose first unquoted '=' is at k lexes to the trimmed text before it and the unquoted, trimmed text after it |
| ControlFile.LexLine | lib/reader.c:136-186 | the too-long error exactly when the buffer does not end in '\n'; the only other failures are invalid input and the unterminated quote; a directive's keyword is trimmed |
| ControlFile.Apply | lib/reader.c:194-308 | a once-only keyword already set fails as a duplicate; unset TYPE and WRITER, and ON_DUPLICATE, succeed exactly when the value names one of their choices, and otherwise fail as an invalid choice; an unset quota given as -1 becomes INT64_MAX, and one ParseInt64 refuses is an invalid value; any other keyword succeeds exactly when a parser is chosen and accepts it, appending it to the parameters, and otherwise is an invalid keyword |
| ControlFile.ApplyInRange | lib/reader.c:266-286 | a directive keeps each quota at its "not given" marker or in int64 range, and the limit in range |
| ControlFile.ApplyKeepsSet | lib/reader.c:194-286 | a directive never unsets a setting ASSERT_ONCE guards |
| ControlFile.ParseControlFileLine | lib/reader.c:125-309 | an error carries the line's number; an unterminated buffer is too long; a blank line changes nothing; settings stay in range |
| ControlFile.ChunkLength | lib/reader.c:349 | fgets reads through the first '\n' but at most LINEBUF - 1 characters; a buffer without '\n' is full or the rest of the file |
| ControlFile.FileChunks | lib/reader.c:349-350 | every buffer is non-empty and shorter than LINEBUF |
| ControlFile.OptionCopyLength | lib/reader.c:361-363 | the copied length never exceeds the segment and leaves room for the terminator (corrected bound) |
| ControlFile.OptionBuffers | lib/reader.c:356-367 | every option buffer is non-empty and shorter than LINEBUF |
| ControlFile.ControlLines | lib/reader.c:336-353 | every buffer read from the control file is non-empty and shorter than LINEBUF |
| ControlFile.ApplyLines | lib/reader.c:349-366 | on success, the line counter has advanced by the number of lines |
| ControlFile.ApplyLinesAppend | lib/reader.c:349-366 | applying two runs of lines is applying the first, then the second from where the first stopped |
| ControlFile.ApplyLinesErrorLine | lib/reader.c:132 | a failure names one of the lines applied, numbered as it was read |
| ControlFile.ApplyLinesInRange | lib/reader.c:266-286 | any run of lines keeps the numeric settings in range |
| ControlFile.Extension | lib/reader.c:437-442 | either empty or the tail of the input file name after a '.' that has a '/' before it; it holds neither '.' nor '/', so it follows the last '.', which follows the last '/'; a name without '/' has none |
| ControlFile.DefaultFileNames | lib/reader.c:387-468 | names already given are kept; missing ones are prefix + log / prs.ext / dup.csv and shorter than MAXPGPATH; it fails exactly when a name is missing and the prefix, or a missing name derived from it, would reach MAXPGPATH; a too long prefix fails first; nothing else changes |
| ControlFile.Finish | lib/reader.c:374-493 | TYPE, TABLE, INFILE missing fail in that order; with all three, a too long derived name fails, and otherwise it succeeds exactly when INFILE and the three output names, given or derived, are pairwise distinct, failing as SameFileName when they are not; success is Resolved; writer defaults to DIRECT, quotas to 50, other settings kept |
| ControlFile.Resolve | lib/reader.c:336-494 | a successful resolution is Resolved |
| ControlFile.ReadControlFile | lib/reader.c:349-350 | the fgets loop gives the fold of the lines over the file's buffers |
| ControlFile.ReadOptions | lib/reader.c:356-367 | the options loop gives the fold of the lines over the option buffers |
| ControlFile.FinishInPlace | lib/reader.c:374-493 | the in-place checks and defaults give Finish |
| ControlFile.ParseControlFile | lib/reader.c:323-494 | the imperative resolver gives Resolve |
| ControlFacts.ApplyFrame | lib/reader.c:194-308 | a directive changes only its own keyword's setting; a parser directive appends itself to the parameters |
| ControlFacts.OnceOnlyRejectsRepeat | lib/reader.c:196-285 | a second directive of a once-only keyword is a duplicate, except after LOAD = INFINITE |
| ControlFacts.LoadInfiniteRepeatable | lib/reader.c:281-286 | LOAD = INFINITE on an unset limit changes nothing, so it may be repeated |
| ControlFacts.LastOneWins | lib/reader.c:287-301 | a second ON_DUPLICATE or VERBOSE overrides the first |
| ControlFacts.FixedIsBinary | lib/reader.c:225-246 | TYPE = FIXED selects the binary parser |
| ControlFacts.ParseLineKeepsSet | lib/reader.c:125-309 | a line never unsets a guarded setting |
| ControlFacts.ApplyLinesKeepsSet | lib/reader.c:349-366 | once set, a guarded setting stays set through later lines, so a control-file directive blocks the same one in the options |
| ControlFacts.ResolveAsOneSequence | lib/reader.c:336-367 | for an absolute or absent file name, resolution is the fold over the file's lines followed by the option lines, numbered on, then Finish |
| ControlFacts.LineTextOf | lib/reader.c:143-147 | a buffer's text is the line without its '\n' |
| ControlFacts.CommentIgnored | lib/reader.c:149-154 | after text without quotes, a '#' starts a comment: the line lexes as if it ended there |
| ControlFacts.QuotedCommentIgnored | lib/reader.c:149-154 | a '#' inside a quoted part does not start a comment; the first '#' after the part does, and the line lexes as if it ended there |
| ControlFacts.QuotedHashFound | lib/reader.c:152 | the search for '#' passes over a quoted part and stops at the first '#' after it |
| ControlFacts.QuotedNoHash | lib/reader.c:152 | a '#' inside a quoted part is never found |
| ControlFacts.NoEqualsRejected | lib/reader.c:166-171 | a line with text but no '=' fails as invalid input |
| ControlFacts.UnterminatedQuoteRejected | lib/reader.c:179-186 | a value that opens a quote and never closes it fails as an unterminated quoted field |
| ControlFacts.CommentCut | lib/reader.c:149-154 | StripComment cuts at the first '#' after plain text and leaves plain text alone |
| ControlFacts.SpaceLineIsBlank | lib/reader.c:156-161 | a line of only white space is blank and changes nothing |
| ControlFacts.FileChunksConcat | lib/reader.c:349 | the fgets buffers put together are the whole file |
| ControlFacts.FileChunkShape | lib/reader.c:349 | every buffer but the last ends in '\n' or holds LINEBUF - 1 characters |
| ControlFacts.LongLineRejected | lib/reader.c:136-138 | a control-file line of LINEBUF - 1 characters or more is rejected as too long |
| ControlFacts.OptionTailIgnored | lib/reader.c:359-366 | option text after the last '\n' is never applied |
| ControlFacts.OptionBufferLikeFgets | lib/reader.c:361-363 | with the corrected copy, an option line gets the same buffer fgets would give |
| ControlFacts.OptionCopyLengthAsWritten | lib/reader.c:361 | the copy length as written is at most LINEBUF, one more than the buffer can hold with its terminator |
| ControlFacts.OptionCopyAsWrittenOverflows | lib/reader.c:361-363 | as written, a 1023-character option line with its '\n' copies LINEBUF characters, so the terminator lands out of bounds and the copy passes the too-long check that the fgets buffer of the same text fails |
| ControlFacts.OptionCopyFits | lib/reader.c:361-363 | corrected, the terminator fits and a too long option line is rejected as in a file |
| ControlFacts.DefaultNamesDistinct | lib/reader.c:417-467 | the three derived names differ from each other for any prefix and extension |
| ControlFacts.ExtensionOfLastComponent | lib/reader.c:437-442 | the extension of d/b.x, where x has no '.' and b.x no '/', is x |
| ControlFacts.NoDotNoExtension | lib/reader.c:437-442 | a last component without '.' gives no extension, even when a directory name has one |
| ControlFacts.FinishWithDefaults | lib/reader.c:374-493 | with TYPE, TABLE and INFILE given and no output name, resolution succeeds with the derived names when they fit and INFILE is none of them |
| ReaderLoop.NextFrom | lib/reader.c:554-643 | reading only moves forward; the bad file only grows; the count rises by exactly the records added |
| ReaderLoop.AbsorbOne | lib/reader.c:582-638 | an absorbed error within the quota is counted, recorded, and reading goes on |
| ReaderLoop.SkipAbsorbed | lib/reader.c:564-641 | a run of absorbed errors within the quota adds its length to the count and its records in order |
| ReaderLoop.QuotaExceeded | lib/reader.c:619-637 | with quota N, N errors continue and error N+1 stops with no tuple, count N+1 and every record written |
| ReaderLoop.TupleIsFirstRead | lib/reader.c:564-641 | a returned tuple is the first read, after only absorbed errors within the quota |
| ReaderLoop.NoTupleMeansEndOrQuota | lib/reader.c:572-573 | NULL only at the end of input or when an absorbed error passed the quota |
| ReaderLoop.CountBound | lib/reader.c:619-627 | within the quota, one call takes the count at most one past it |
| ReaderLoop.RethrowKeepsCount | lib/reader.c:582-596 | a non-field or query-abort error is re-raised with count and bad file unchanged |
| ReaderLoop.Reader.constructor | lib/reader.c:80-83 | a new reader has no error counted and no bad file open |
| ReaderLoop.Reader.Next | lib/reader.c:554-643 | the do-while loop gives NextFrom's result, read position, error count and bad-file records, and keeps the reader valid |
| TupleDesc.FormRow | lib/reader.c:905-908 | each cell is null or the value, as its flag says |
| TupleDesc.NullRow | lib/reader.c:911-917 | the row of n nulls |
| TupleDesc.LiveColumns | lib/reader.c:858-878 | every listed position is a column that is not dropped |
| TupleDesc.LiveColumnsIncreasing | lib/reader.c:860-876 | the live columns are listed in strictly increasing order |
| TupleDesc.LiveColumnsComplete | lib/reader.c:860-876 | every column that is not dropped is listed |
| TupleDesc.FirstMismatchFrom | lib/reader.c:953-976 | None exactly when all later positions fit; otherwise the first misfit, as a type or a storage mismatch |
| TupleDesc.TupleDescMatch | lib/reader.c:940-977 | None exactly when the rows match; a count mismatch is reported first; other errors name a valid position |
| FilterStage.ResultMatched | lib/reader.c:1016-1035 | the table's row type matches; a RECORD fails exactly when its OUT row does not fit, and is not yet known to fit without OUT parameters; any other type fails exactly when it is not composite, and is not yet known to fit when it is; failures are datatype mismatches |
| FilterStage.FilterInitSpec | lib/reader.c:987-1093 | success exactly when no argument is polymorphic or internal, the function returns no set, the result check passes and it is not variadic; success copies argument types, defaults, strictness and the result check's verdict; an unsupported argument or a set result is a feature error; other failures are feature errors or the result check's datatype mismatch |
| FilterStage.FilterSpec | lib/reader.c:1112-1215 | the former is reset exactly for the strict short cut or a NULL result, and then the all-null row is produced; the match cache is never cleared |
| FilterStage.StrictShortCut | lib/reader.c:1128-1135 | strict with a null argument gives the all-null row whatever the function would do |
| FilterStage.CallsWithArguments | lib/reader.c:1139-1165 | otherwise the outcome depends only on the function's result on the first nargs buffers |
| FilterStage.MatchedCache | lib/reader.c:1196-1209 | the cache stays set; it becomes set only after a non-RECORD result that matched |
| FilterStage.FilterErrors | lib/reader.c:1158-1203 | a function error is raised with parsing field 0; a misfit result with -1 and a datatype mismatch |
| FilterStage.Filter.Init | lib/reader.c:980-1096 | nothing changes without a function; otherwise it fails exactly when FilterInitSpec does, with its error, and on success holds its settings |
| FilterStage.Filter.FilterTuple | lib/reader.c:1112-1215 | the outcome, parsing field and cache are FilterSpec's; the buffers are reset exactly when it says so |
| FilterStage.TupleFormer.constructor | lib/reader.c:804-880 | buffers all null; with a function, nargs inputs mapped to its arguments, of which the last ndargs may be left out; without, the live columns in order with their type modifiers |
| FilterStage.TupleFormer.NullTuple | lib/reader.c:911-917 | the first natts buffers are reset, the rest kept, and the all-null row returned |
| FilterStage.ArgumentMapping | lib/reader.c:838-853 | field i is argument i, read with no type modifier |
| FilterStage.ColumnMapping | lib/reader.c:854-879 | the fields are the live columns in order, each with its column's type modifier |
| Checker.InitFlags | lib/reader.c:708-758 | the encoding is checked exactly when an ENCODING other than SQL_ASCII is given and the database's is not SQL_ASCII, whether or not the two are equal; constraint flags as the option and descriptor say; relation kept exactly when a flag is on |
| Checker.SameEncodingChecked | lib/reader.c:718-722 | an ENCODING equal to the database's, neither being SQL_ASCII, still turns the check on |
| Checker.FreshCheckerKeepsRelation | lib/reader.c:724-757 | from a fresh checker, the relation stays open exactly when it has constraints and CHECK_CONSTRAINTS or NOT NULL apply |
| Checker.NoEncodingCheck | lib/reader.c:718-722 | no ENCODING, or SQL_ASCII on either side, means no encoding check |
| Checker.Checker.Init | lib/reader.c:708-758 | the flags after the method are InitFlags of the flags before |
| DumpParams.DumpLines | lib/reader.c:647-699 | the dump has ten lines |
| DumpParams.PlainLineLexes | lib/reader.c:683-699 | a `NAME = text` line with plain text lexes to that name and text |
| DumpParams.QuotedLineLexes | lib/reader.c:657-670 | a line with a quoted text lexes to the name and the original text |
| DumpParams.QuotedHasNoComment | lib/reader.c:657-670 | no '#' inside a quoted value starts a comment |
| DumpParams.QuotaReadsBack | lib/reader.c:683-699 | a quota as written, INFINITE included, reads back as itself |
| DumpParams.OnDuplicateReadsBack | lib/reader.c:693-694 | the ON_DUPLICATE name selects the same action |
| DumpParams.VerboseReadsBack | lib/reader.c:695 | YES/NO reads back as the same flag |
| DumpParams.InfileLineReads | lib/reader.c:657-659 | the INFILE line sets INFILE to the dumped name |
| DumpParams.ParseBadfileLineReads | lib/reader.c:661-663 | the PARSE_BADFILE line sets the dumped name |
| DumpParams.DupBadfileLineReads | lib/reader.c:665-667 | the DUPLICATE_BADFILE line sets the dumped name |
| DumpParams.LogfileLineReads | lib/reader.c:669-671 | the LOGFILE line sets the dumped name |
| DumpParams.TableLineReads | lib/reader.c:673-678 | the corrected TABLE line sets TABLE to the qualified name |
| DumpParams.ParseErrorsLineReads | lib/reader.c:683-687 | the PARSE_ERRORS line sets the dumped quota |
| DumpParams.DupErrorsLineReads | lib/reader.c:688-692 | the DUPLICATE_ERRORS line sets the dumped quota |
| DumpParams.OnDuplicateLineReads | lib/reader.c:693-694 | the ON_DUPLICATE line sets the dumped action |
| DumpParams.VerboseLineReads | lib/reader.c:695 | the VERBOSE line sets the dumped flag |
| DumpParams.LoadLineReads | lib/reader.c:696-699 | the LOAD line sets the dumped limit |
| DumpParams.DumpReadsBack | lib/reader.c:647-699 | read as control lines, the dump succeeds line by line and restores every dumped setting |
| DumpParams.TableLineAsWrittenLosesQuotes | lib/reader.c:675-677 | as written, schema."rel" reads back as schema.rel, a different name |
| DumpParams.TableLineLexes | lib/reader.c:675-677 | corrected, the TABLE line reads back as the qualified name, quotes included |

## Left out

- Catalog lookups (`RangeVarGetRelid`, `get_rel_name`, `get_namespace_name`, `get_database_name`, `SearchSysCache`, `build_function_result_tupdesc_t`, `lookup_rowtype_tupdesc`, `getTypeInputInfo`, `fmgr_info`): foreign calls, replaced by parameters. TABLE is kept as its text, not resolved to a relation id.
- `ParseFunction`: the filter function's catalog entry is a parameter.
- File I/O (`AllocateFile`, `fgets`' file handle, `FreeFile`): the control file is its text and the parse bad file a sequence of records.
- `make_absolute_path`, `localtime` and `strftime`: the default-name prefix is an opaque string, already absolute.
- Logging (`LoggerLog`, the warning texts of `ReaderNext`, the error context callback): message text is not modelled.
- Sub-transactions, memory contexts, resource owners and `PG_TRY`/`PG_CATCH`: errors are values.
- `FunctionCallInvoke`, the evaluation of default arguments (lib/reader.c:1040-1082) and `TupleFormerValue`: the filter function is an abstract function from the argument row to its result.
- The parsers and writers (`ParserInit`, `ParserRead`, `ParserParam`, `ParserDumpRecord`, `ParserDumpParams`, the `Create*` constructors): they appear as tags, a script or an oracle.
- `ReaderClose`, `CheckerTerm`, `TupleFormerTerm` and `FilterTerm`: they only release resources.
- `CheckerConversion` and `CheckerConstraints`: encoding conversion and constraint evaluation are engine internals.
- The bodies of `FindUnquotedChar`, `TrimSpace`, `UnquoteString`, `QuoteString`, `ParseInt64` and `ParseBoolean` are in `pg_strutil.c`, which is not part of this model. Each has its own specification instead, so their exact behaviour on unusual input can differ from the C code.
- The line buffer's `'\0'`: C strings cannot hold NUL characters, and the model's strings are never cut at one.
- `ReaderLoop.Reader.Next`: a failure to open the parse bad file is not modelled; opening it always succeeds.
- `FilterStage.Filter.Init`: the state a failing FilterInit leaves behind is not stated, since the loader stops on the error. The method requires the match cache to be clear, as the zero-filled allocation leaves it.
- `ControlFile.OptionCopyLength`: the rest of the model uses the corrected copy length (see Findings).
- `DumpParams.DumpLines`: the rest of the model uses the corrected, quoted TABLE line (see Findings).

## Findings

| source | as written | input that shows it | evidently intended | confidence | as-written member | corrected member |
|---|---|---|---|---|---|---|
| lib/reader.c:361-363 | the option copy takes Min(len, LINEBUF) characters and then writes `buf[len] = '\0'` | an option line of 1023 characters and its '\n': 1024 characters are copied, and the terminator goes to `buf[1024]`, past the end of the buffer | copy at most LINEBUF - 1 characters, so the terminator fits and a too long line is rejected as in a file | not executed | ControlFacts.OptionCopyAsWrittenOverflows | ControlFacts.OptionCopyFits |
| lib/reader.c:675-677 | the TABLE line prints the bare qualified name; the quoted form `str` is computed and freed unused | the table "T" of schema public, printed `TABLE = public."T"`, reads back through UnquoteString as `public.T`, which names the table t | print the quoted name, as for the file names | not executed | DumpParams.TableLineAsWrittenLosesQuotes | DumpParams.TableLineLexes |
