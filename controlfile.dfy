/**
 * Resolution of the loader's control directives: the control file and the
 * inline options are cut into lines, each line is lexed into a
 * `keyword = value` directive and applied to the Reader, and after the last
 * line the mandatory directives are checked, defaults are filled in and the
 * four file names are required to differ (lib/reader.c: choice,
 * ParseControlFileLine, ParseControlFile, ReaderCreate).
 */
module ControlFile {
  import opened Wrappers
  import opened StrUtil

  /** Size of the line buffer, terminator included. */
  const LINEBUF: nat := 1024
  const MAXPGPATH: nat := 1024

  datatype ParserKind = BinaryParser | CSVParser | TupleParser | FunctionParser
  datatype WriterKind = DirectWriter | BufferedWriter | ParallelWriter
  datatype OnDuplicate = OnDuplicateError | RemoveNew | RemoveOld

  /** A format-specific directive accepted by the parser. */
  type Param = (string, string)

  /**
   * ParserParam: whether a parser of the given kind, holding the directives it
   * accepted so far, accepts `keyword = value`.
   */
  type ParamOracle = (ParserKind, seq<Param>, string, string) -> bool

  /**
   * The Reader's control settings. A setting not given yet is None; the two
   * error quotas use -2 and the load limit INT64_MAX for "not given", as
   * ReaderCreate initialises them.
   */
  datatype Reader = Reader(
    table: Option<string>,
    infile: Option<string>,
    logfile: Option<string>,
    parseBadfile: Option<string>,
    dupBadfile: Option<string>,
    parser: Option<ParserKind>,
    params: seq<Param>,
    writer: Option<WriterKind>,
    maxParseErrors: int,
    maxDupErrors: int,
    limit: int,
    onDuplicate: OnDuplicate,
    verbose: bool)

  /** The Reader that ReaderCreate hands to ParseControlFile. */
  const Initial: Reader :=
    Reader(None, None, None, None, None, None, [], None, -2, -2, INT64_MAX, OnDuplicateError, false)

  datatype ErrorKind =
    | TooLongLine
    | InvalidInput
    | UnterminatedQuote
    | Duplicate(keyword: string)
    | InvalidChoice(keyword: string, value: string)
    | InvalidValue(keyword: string, value: string)
    | InvalidKeyword(keyword: string)
    | NotAbsolutePath
    | NoType
    | NoTable
    | NoInfile
    | OutputNameTooLong
    | LogNameTooLong
    | ParseBadNameTooLong
    | DupBadNameTooLong
    | SameFileName

  /** An error with the number of the control line being parsed; 0 outside any line. */
  datatype ConfigError = ConfigError(line: nat, kind: ErrorKind)

  function Min(a: nat, b: nat): nat {
    if a < b then a else b
  }

  // ---------------------------------------------------------------------
  // choice()
  // ---------------------------------------------------------------------

  /**
   * choice: the index of the first key equal to `key` ignoring case; none is
   * an error. The keys are written here in lower case, which makes no
   * difference to a case-insensitive comparison.
   */
  function Choice(key: string, keys: seq<string>): (r: Option<nat>)
    ensures r.Some? ==> r.value < |keys| && Lower(key) == keys[r.value]
    ensures r.Some? ==> forall j :: 0 <= j < r.value ==> Lower(key) != keys[j]
    ensures r.None? <==> forall j :: 0 <= j < |keys| ==> Lower(key) != keys[j]
  {
    var r := Position(Lower(key), keys);
    assert r.Some? ==> forall j :: 0 <= j < r.value ==> keys[j] == keys[..r.value][j];
    r
  }

  const TypeKeys: seq<string> := ["binary", "fixed", "csv", "tuple", "function"]
  const TypeValues: seq<ParserKind> := [BinaryParser, BinaryParser, CSVParser, TupleParser, FunctionParser]
  const WriterKeys: seq<string> := ["direct", "buffered", "parallel"]
  const WriterValues: seq<WriterKind> := [DirectWriter, BufferedWriter, ParallelWriter]
  const OnDuplicateNames: seq<string> := ["error", "remove_new", "remove_old"]
  const OnDuplicateValues: seq<OnDuplicate> := [OnDuplicateError, RemoveNew, RemoveOld]

  // ---------------------------------------------------------------------
  // One control line
  // ---------------------------------------------------------------------

  datatype Lexed = Blank | Directive(keyword: string, value: string)

  /**
   * Whether a line buffer ends in its '\n', that is, whether the whole line
   * fitted in it. fgets and the option split never produce an empty buffer.
   */
  predicate Terminated(buf: string) {
    |buf| > 0 && buf[|buf| - 1] == '\n'
  }

  /** The line before its first '\n' (ParseControlFileLine overwrites it with '\0'). */
  function LineText(buf: string): (t: string)
    requires Terminated(buf)
    ensures '\n' !in t && |t| < |buf|
    ensures buf[..|t| + 1] == t + "\n"
  {
    assert buf[|buf| - 1] in buf;
    buf[..IndexOf(buf, '\n').value]
  }

  /** The line without the text from its first '#' outside quotes. */
  function StripComment(text: string): (t: string)
    ensures t == text || (|t| < |text| && t == text[..|t|] && text[|t|] == '#')
  {
    match FindUnquotedChar(text, '#')
    case None => text
    case Some(k) => text[..k]
  }

  /** The lexical part of ParseControlFileLine, on the line after its comment is cut off. */
  function LexContent(text: string): (r: Result<Lexed, ErrorKind>)
    ensures r != Failure(TooLongLine)
    ensures (r.Success? && r.value.Blank?) <==> TrimSpace(text) == []
    ensures (r.Failure? && r.error.InvalidInput?) <==> TrimSpace(text) != [] && FindUnquotedChar(TrimSpace(text), '=').None?
    ensures r.Failure? ==> r.error.InvalidInput? || r.error.UnterminatedQuote?
    ensures r.Success? && r.value.Directive? ==> r.value.keyword == TrimSpace(r.value.keyword)
  {
    var content := TrimSpace(text);
    if content == [] then Success(Blank) else LexDirective(content)
  }

  /** A non-blank line split at its first unquoted '=' into a trimmed keyword and an unquoted value. */
  function LexDirective(content: string): (r: Result<Lexed, ErrorKind>)
    ensures r.Success? ==> r.value.Directive? && r.value.keyword == TrimSpace(r.value.keyword)
    ensures (r.Failure? && r.error.InvalidInput?) <==> FindUnquotedChar(content, '=').None?
    ensures r.Failure? ==> r.error.InvalidInput? || r.error.UnterminatedQuote?
  {
    var eq := FindUnquotedChar(content, '=');
    if eq.None? then Failure(InvalidInput)
    else
      var value := ValueAfter(content, eq.value);
      if value.None? then Failure(UnterminatedQuote)
      else Success(Directive(KeywordBefore(content, eq.value), value.value))
  }

  /** A trimmed line whose first unquoted '=' is at `k` lexes to the trimmed sides of that '='. */
  lemma LexContentAt(text: string, k: nat, keyword: string, value: string)
    requires text != [] && TrimSpace(text) == text
    requires k < |text| && FindUnquotedChar(text, '=') == Some(k)
    requires TrimSpace(text[..k]) == keyword && UnquoteString(TrimSpace(text[k + 1..])) == Some(value)
    ensures LexContent(text) == Success(Directive(keyword, value))
  {
    assert LexDirective(text) == Success(Directive(KeywordBefore(text, k), value));
  }

  /** The keyword: the text before the '=' at `k`, trimmed. */
  function KeywordBefore(content: string, k: nat): (keyword: string)
    requires k <= |content|
    ensures keyword == TrimSpace(keyword)
  {
    TrimTwice(content[..k]);
    TrimSpace(content[..k])
  }

  /** The value: the text after the '=' at `k`, trimmed and unquoted; None when a quote is left open. */
  function ValueAfter(content: string, k: nat): Option<string>
    requires k < |content|
  {
    UnquoteString(TrimSpace(content[k + 1..]))
  }

  /** The lexical part of ParseControlFileLine. */
  function LexLine(buf: string): (r: Result<Lexed, ErrorKind>)
    ensures r == Failure(TooLongLine) <==> !Terminated(buf)
    ensures r.Failure? ==> r.error.TooLongLine? || r.error.InvalidInput? || r.error.UnterminatedQuote?
    ensures r.Success? && r.value.Directive? ==> r.value.keyword == TrimSpace(r.value.keyword)
  {
    if !Terminated(buf) then Failure(TooLongLine)
    else LexContent(StripComment(LineText(buf)))
  }

  /** The recognised keywords, in the order ParseControlFileLine tests them. */
  datatype Keyword =
    | KTable | KInfile | KLogfile | KParseBadfile | KDupBadfile | KType | KWriter
    | KParseErrors | KDupErrors | KLoad | KOnDuplicate | KVerbose | KOther

  /** The keyword names in lower case, in the order ParseControlFileLine tests them, and their classes. */
  const KeywordNames: seq<string> := [
    "table", "infile", "logfile", "parse_badfile", "duplicate_badfile", "type",
    "writer", "loader", "parse_errors", "max_err_cnt", "duplicate_errors",
    "load", "limit", "on_duplicate", "verbose"]
  const KeywordClasses: seq<Keyword> := [
    KTable, KInfile, KLogfile, KParseBadfile, KDupBadfile, KType,
    KWriter, KWriter, KParseErrors, KParseErrors, KDupErrors,
    KLoad, KLoad, KOnDuplicate, KVerbose]

  /** The first keyword name equal to `keyword` ignoring case; any other keyword is the parser's. */
  function Classify(keyword: string): Keyword {
    match Position(Lower(keyword), KeywordNames)
    case None => KOther
    case Some(i) => KeywordClasses[i]
  }

  /** The keywords guarded by ASSERT_ONCE. */
  predicate OnceOnly(k: Keyword) {
    !(k.KOnDuplicate? || k.KVerbose? || k.KOther?)
  }

  /** The condition under which ASSERT_ONCE rejects another directive of this keyword. */
  predicate IsSet(rd: Reader, k: Keyword) {
    match k
    case KTable => rd.table.Some?
    case KInfile => rd.infile.Some?
    case KLogfile => rd.logfile.Some?
    case KParseBadfile => rd.parseBadfile.Some?
    case KDupBadfile => rd.dupBadfile.Some?
    case KType => rd.parser.Some?
    case KWriter => rd.writer.Some?
    case KParseErrors => !(rd.maxParseErrors < -1)
    case KDupErrors => !(rd.maxDupErrors < -1)
    case KLoad => rd.limit != INT64_MAX
    case _ => false
  }

  /** The numeric settings hold either their "not given" marker or an int64 in range. */
  predicate InRange(rd: Reader) {
    && (rd.maxParseErrors == -2 || 0 <= rd.maxParseErrors <= INT64_MAX)
    && (rd.maxDupErrors == -2 || 0 <= rd.maxDupErrors <= INT64_MAX)
    && 0 <= rd.limit <= INT64_MAX
  }

  /** A quota directive's value: -1 means unlimited, stored as INT64_MAX. */
  function QuotaValue(n: int): int {
    if n == -1 then INT64_MAX else n
  }

  /** The effect of one `keyword = value` directive, `keyword` being classified as `k`. */
  function Apply(rd: Reader, k: Keyword, keyword: string, value: string, accepts: ParamOracle): (r: Result<Reader, ErrorKind>)
    ensures OnceOnly(k) && IsSet(rd, k) ==> r == Failure(Duplicate(keyword))
    // TYPE, WRITER and ON_DUPLICATE take one of their names, or fail.
    ensures k.KType? && rd.parser.None? ==> (r.Success? <==> Choice(value, TypeKeys).Some?)
    ensures k.KType? && rd.parser.None? && r.Failure? ==> r.error == InvalidChoice(keyword, value)
    ensures k.KWriter? && rd.writer.None? ==> (r.Success? <==> Choice(value, WriterKeys).Some?)
    ensures k.KWriter? && rd.writer.None? && r.Failure? ==> r.error == InvalidChoice(keyword, value)
    ensures k.KOnDuplicate? ==> (r.Success? <==> Choice(value, OnDuplicateNames).Some?)
    ensures k.KOnDuplicate? && r.Failure? ==> r.error == InvalidChoice(keyword, value)
    // A quota of -1 means unlimited; anything ParseInt64 refuses is an invalid value.
    ensures k.KParseErrors? && rd.maxParseErrors < -1 && ParseInt64(value, -1) == Some(-1) ==>
      r == Success(rd.(maxParseErrors := INT64_MAX))
    ensures k.KDupErrors? && rd.maxDupErrors < -1 && ParseInt64(value, -1) == Some(-1) ==>
      r == Success(rd.(maxDupErrors := INT64_MAX))
    ensures (k.KParseErrors? || k.KDupErrors?) && !IsSet(rd, k) && ParseInt64(value, -1).None? ==>
      r == Failure(InvalidValue(keyword, value))
    // Any other keyword is the parser's, which must exist and accept it.
    ensures k.KOther? ==> (r.Success? <==> rd.parser.Some? && accepts(rd.parser.value, rd.params, keyword, value))
    ensures k.KOther? && r.Failure? ==> r.error == InvalidKeyword(keyword)
    ensures k.KOther? && r.Success? ==> r.value == rd.(params := rd.params + [(keyword, value)])
  {
    match k
    case KTable =>
      if rd.table.Some? then Failure(Duplicate(keyword)) else Success(rd.(table := Some(value)))
    case KInfile =>
      if rd.infile.Some? then Failure(Duplicate(keyword)) else Success(rd.(infile := Some(value)))
    case KLogfile =>
      if rd.logfile.Some? then Failure(Duplicate(keyword)) else Success(rd.(logfile := Some(value)))
    case KParseBadfile =>
      if rd.parseBadfile.Some? then Failure(Duplicate(keyword)) else Success(rd.(parseBadfile := Some(value)))
    case KDupBadfile =>
      if rd.dupBadfile.Some? then Failure(Duplicate(keyword)) else Success(rd.(dupBadfile := Some(value)))
    case KType =>
      if rd.parser.Some? then Failure(Duplicate(keyword))
      else
        (match Choice(value, TypeKeys)
         case None => Failure(InvalidChoice(keyword, value))
         case Some(i) => Success(rd.(parser := Some(TypeValues[i]))))
    case KWriter =>
      if rd.writer.Some? then Failure(Duplicate(keyword))
      else
        (match Choice(value, WriterKeys)
         case None => Failure(InvalidChoice(keyword, value))
         case Some(i) => Success(rd.(writer := Some(WriterValues[i]))))
    case KParseErrors =>
      if !(rd.maxParseErrors < -1) then Failure(Duplicate(keyword))
      else
        (match ParseInt64(value, -1)
         case None => Failure(InvalidValue(keyword, value))
         case Some(n) => Success(rd.(maxParseErrors := QuotaValue(n))))
    case KDupErrors =>
      if !(rd.maxDupErrors < -1) then Failure(Duplicate(keyword))
      else
        (match ParseInt64(value, -1)
         case None => Failure(InvalidValue(keyword, value))
         case Some(n) => Success(rd.(maxDupErrors := QuotaValue(n))))
    case KLoad =>
      if rd.limit != INT64_MAX then Failure(Duplicate(keyword))
      else
        (match ParseInt64(value, 0)
         case None => Failure(InvalidValue(keyword, value))
         case Some(n) => Success(rd.(limit := n)))
    case KOnDuplicate =>
      (match Choice(value, OnDuplicateNames)
       case None => Failure(InvalidChoice(keyword, value))
       case Some(i) => Success(rd.(onDuplicate := OnDuplicateValues[i])))
    case KVerbose =>
      (match ParseBoolean(value, false)
       case None => Failure(InvalidValue(keyword, value))
       case Some(b) => Success(rd.(verbose := b)))
    case KOther =>
      if rd.parser.None? || !accepts(rd.parser.value, rd.params, keyword, value) then
        Failure(InvalidKeyword(keyword))
      else Success(rd.(params := rd.params + [(keyword, value)]))
  }

  /** The effect of one `keyword = value` directive on the Reader. */
  function ApplyDirective(rd: Reader, keyword: string, value: string, accepts: ParamOracle): Result<Reader, ErrorKind> {
    Apply(rd, Classify(keyword), keyword, value, accepts)
  }

  /** A directive keeps the numeric settings in range. */
  lemma ApplyInRange(rd: Reader, k: Keyword, keyword: string, value: string, accepts: ParamOracle)
    ensures InRange(rd) && Apply(rd, k, keyword, value, accepts).Success? ==> InRange(Apply(rd, k, keyword, value, accepts).value)
  {
  }

  /** A directive never unsets what ASSERT_ONCE guards. */
  lemma ApplyKeepsSet(rd: Reader, k: Keyword, keyword: string, value: string, accepts: ParamOracle, guarded: Keyword)
    requires IsSet(rd, guarded)
    ensures Apply(rd, k, keyword, value, accepts).Success? ==> IsSet(Apply(rd, k, keyword, value, accepts).value, guarded)
  {
  }

  /** ParseControlFileLine: one line buffer, numbered `line`. */
  function ParseControlFileLine(rd: Reader, line: nat, buf: string, accepts: ParamOracle): (r: Result<Reader, ConfigError>)
    ensures r.Failure? ==> r.error.line == line
    ensures !Terminated(buf) ==> r == Failure(ConfigError(line, TooLongLine))
    ensures LexLine(buf) == Success(Blank) ==> r == Success(rd)
    ensures r.Success? && InRange(rd) ==> InRange(r.value)
  {
    match LexLine(buf)
    case Failure(kind) => Failure(ConfigError(line, kind))
    case Success(Blank) => Success(rd)
    case Success(Directive(keyword, value)) =>
      ApplyInRange(rd, Classify(keyword), keyword, value, accepts);
      match ApplyDirective(rd, keyword, value, accepts)
      case Failure(kind) => Failure(ConfigError(line, kind))
      case Success(rd') => Success(rd')
  }

  // ---------------------------------------------------------------------
  // Cutting the input into lines
  // ---------------------------------------------------------------------

  /**
   * The length fgets(buf, LINEBUF, file) reads: through the first '\n', but
   * never more than LINEBUF - 1 characters.
   */
  function ChunkLength(text: string): (n: nat)
    requires text != []
    ensures 0 < n <= |text| && n <= LINEBUF - 1
    ensures '\n' !in text[..n - 1]
    ensures text[n - 1] != '\n' ==> n == LINEBUF - 1 || n == |text|
  {
    match IndexOf(text, '\n')
    case Some(k) =>
      if k < LINEBUF - 1 then k + 1
      else
        assert text[..Min(|text|, LINEBUF - 1) - 1] == text[..k][..Min(|text|, LINEBUF - 1) - 1];
        Min(|text|, LINEBUF - 1)
    case None => Min(|text|, LINEBUF - 1)
  }

  /** The successive buffers fgets returns for a control file's text. */
  function FileChunks(text: string): (r: seq<string>)
    ensures forall i :: 0 <= i < |r| ==> 0 < |r[i]| < LINEBUF
    decreases |text|
  {
    if text == [] then [] else [text[..ChunkLength(text)]] + FileChunks(text[ChunkLength(text)..])
  }

  /**
   * How much of an option segment (the text through one '\n') is copied into
   * the line buffer. The source copies Min(segment, LINEBUF) characters; this
   * is the corrected bound, see OptionCopyLengthAsWritten.
   */
  function OptionCopyLength(segment: nat): (n: nat)
    ensures n <= segment && n < LINEBUF
  {
    Min(segment, LINEBUF - 1)
  }

  /** The line buffers made from the inline options: one per '\n'-terminated segment. */
  function OptionBuffers(options: string): (r: seq<string>)
    ensures forall i :: 0 <= i < |r| ==> 0 < |r[i]| < LINEBUF
    decreases |options|
  {
    match IndexOf(options, '\n')
    case None => []
    case Some(k) => [options[..OptionCopyLength(k + 1)]] + OptionBuffers(options[k + 1..])
  }

  /** The control file's lines, when a control file is named. */
  function ControlLines(fname: string, fileText: string): (r: seq<string>)
    ensures forall i :: 0 <= i < |r| ==> 0 < |r[i]| < LINEBUF
  {
    if |fname| > 0 then FileChunks(fileText) else []
  }

  /** One step of the line loop: the Reader, the number of the line and its buffer. */
  type LineStep = (Reader, nat, string) -> Result<Reader, ConfigError>

  /** ParseControlFileLine as a line step. */
  function LineParser(accepts: ParamOracle): LineStep {
    (rd: Reader, line: nat, buf: string) => ParseControlFileLine(rd, line, buf, accepts)
  }

  /**
   * The lines applied in order to the Reader, numbered from `line` + 1; the
   * first failing line ends resolution. The result holds the Reader and the
   * number of the last line.
   */
  function ApplyLines(step: LineStep, rd: Reader, bufs: seq<string>, line: nat): (r: Result<(Reader, nat), ConfigError>)
    ensures r.Success? ==> r.value.1 == line + |bufs|
    decreases |bufs|
  {
    if bufs == [] then Success((rd, line))
    else
      match step(rd, line + 1, bufs[0])
      case Failure(e) => Failure(e)
      case Success(rd') => ApplyLines(step, rd', bufs[1..], line + 1)
  }

  /** Applying `bufs` after `done`: the lines of `done`, then those of `bufs`. */
  lemma {:induction false} ApplyLinesAppend(step: LineStep, rd: Reader, done: seq<string>, bufs: seq<string>, line: nat)
    ensures ApplyLines(step, rd, done + bufs, line)
         == match ApplyLines(step, rd, done, line)
            case Failure(e) => Failure(e)
            case Success((rd', line')) => ApplyLines(step, rd', bufs, line')
    decreases |done|
  {
    if done == [] {
      assert done + bufs == bufs;
    } else {
      assert (done + bufs)[0] == done[0];
      assert (done + bufs)[1..] == done[1..] + bufs;
      match step(rd, line + 1, done[0])
      case Failure(_) =>
      case Success(rd') => ApplyLinesAppend(step, rd', done[1..], bufs, line + 1);
    }
  }

  /** A failing line is one of the lines applied, numbered as it was read. */
  lemma {:induction false} ApplyLinesErrorLine(accepts: ParamOracle, rd: Reader, bufs: seq<string>, line: nat)
    ensures ApplyLines(LineParser(accepts), rd, bufs, line).Failure? ==>
      line < ApplyLines(LineParser(accepts), rd, bufs, line).error.line <= line + |bufs|
    decreases |bufs|
  {
    if bufs != [] {
      match ParseControlFileLine(rd, line + 1, bufs[0], accepts)
      case Failure(_) =>
      case Success(rd') => ApplyLinesErrorLine(accepts, rd', bufs[1..], line + 1);
    }
  }

  /** Applying lines keeps the numeric settings in range. */
  lemma {:induction false} ApplyLinesInRange(accepts: ParamOracle, rd: Reader, bufs: seq<string>, line: nat)
    requires InRange(rd)
    ensures ApplyLines(LineParser(accepts), rd, bufs, line).Success? ==>
      InRange(ApplyLines(LineParser(accepts), rd, bufs, line).value.0)
    decreases |bufs|
  {
    if bufs != [] {
      match ParseControlFileLine(rd, line + 1, bufs[0], accepts)
      case Failure(_) =>
      case Success(rd') => ApplyLinesInRange(accepts, rd', bufs[1..], line + 1);
    }
  }

  // ---------------------------------------------------------------------
  // After the last line
  // ---------------------------------------------------------------------

  /**
   * The part of an INFILE name that names default parse-bad files: the text
   * after its last '.', when that '.' comes after its last '/'.
   */
  function Extension(infile: string): (e: string)
    ensures e == [] || (|e| < |infile| && e == infile[|infile| - |e|..] && infile[|infile| - |e| - 1] == '.')
    ensures '.' !in e
    ensures '/' !in e
    ensures e != [] ==> '/' in infile[..|infile| - |e| - 1]
    ensures '/' !in infile ==> e == []
  {
    match (LastIndexOf(infile, '/'), LastIndexOf(infile, '.'))
    case (Some(f), Some(x)) =>
      if f < x then
        assert forall i :: x + 1 <= i < |infile| ==> infile[i] == infile[f + 1..][i - f - 1];
        assert infile[..x][f] == '/';
        infile[x + 1..]
      else []
    case _ => []
  }

  const LogSuffix: string := "log"
  const DupSuffix: string := "dup.csv"

  function ParseBadSuffix(infile: string): string {
    "prs." + Extension(infile)
  }

  predicate NeedsDefaults(rd: Reader) {
    rd.logfile.None? || rd.parseBadfile.None? || rd.dupBadfile.None?
  }

  /** Some output name that is not given would be derived with MAXPGPATH characters or more. */
  predicate DefaultTooLong(rd: Reader, prefix: string)
    requires rd.infile.Some?
  {
    || |prefix| >= MAXPGPATH
    || (rd.logfile.None? && |prefix| + |LogSuffix| >= MAXPGPATH)
    || (rd.parseBadfile.None? && |prefix| + |ParseBadSuffix(rd.infile.value)| >= MAXPGPATH)
    || (rd.dupBadfile.None? && |prefix| + |DupSuffix| >= MAXPGPATH)
  }

  /**
   * The default output file names: `prefix` (an opaque text standing for the
   * loader directory, the timestamp and the database, schema and table names,
   * "." included) followed by "log", "prs.<ext>" or "dup.csv". A name of
   * MAXPGPATH characters or more is an error.
   */
  function DefaultFileNames(rd: Reader, prefix: string): (r: Result<Reader, ErrorKind>)
    requires rd.infile.Some?
    ensures !NeedsDefaults(rd) ==> r == Success(rd)
    ensures NeedsDefaults(rd) && |prefix| >= MAXPGPATH ==> r == Failure(OutputNameTooLong)
    ensures r.Success? ==> r.value == rd.(logfile := r.value.logfile, parseBadfile := r.value.parseBadfile, dupBadfile := r.value.dupBadfile)
    ensures r.Success? ==> r.value.logfile == Some(rd.logfile.GetOr(prefix + LogSuffix))
    ensures r.Success? ==> r.value.parseBadfile == Some(rd.parseBadfile.GetOr(prefix + ParseBadSuffix(rd.infile.value)))
    ensures r.Success? ==> r.value.dupBadfile == Some(rd.dupBadfile.GetOr(prefix + DupSuffix))
    ensures r.Success? && rd.logfile.None? ==> |r.value.logfile.value| < MAXPGPATH
    ensures r.Success? && rd.parseBadfile.None? ==> |r.value.parseBadfile.value| < MAXPGPATH
    ensures r.Success? && rd.dupBadfile.None? ==> |r.value.dupBadfile.value| < MAXPGPATH
    ensures r.Failure? <==> NeedsDefaults(rd) && DefaultTooLong(rd, prefix)
  {
    if !NeedsDefaults(rd) then Success(rd)
    else if |prefix| >= MAXPGPATH then Failure(OutputNameTooLong)
    else if rd.logfile.None? && |prefix| + |LogSuffix| >= MAXPGPATH then Failure(LogNameTooLong)
    else
      var rd1 := if rd.logfile.None? then rd.(logfile := Some(prefix + LogSuffix)) else rd;
      if rd1.parseBadfile.None? && |prefix| + |ParseBadSuffix(rd.infile.value)| >= MAXPGPATH then Failure(ParseBadNameTooLong)
      else
        var rd2 := if rd1.parseBadfile.None? then rd1.(parseBadfile := Some(prefix + ParseBadSuffix(rd.infile.value))) else rd1;
        if rd2.dupBadfile.None? && |prefix| + |DupSuffix| >= MAXPGPATH then Failure(DupBadNameTooLong)
        else Success(if rd2.dupBadfile.None? then rd2.(dupBadfile := Some(prefix + DupSuffix)) else rd2)
  }

  predicate PairwiseDistinct(a: string, b: string, c: string, d: string) {
    a != b && a != c && a != d && b != c && b != d && c != d
  }

  /** What a successful resolution guarantees about the Reader. */
  predicate Resolved(rd: Reader) {
    && rd.table.Some? && rd.infile.Some? && rd.parser.Some? && rd.writer.Some?
    && rd.logfile.Some? && rd.parseBadfile.Some? && rd.dupBadfile.Some?
    && 0 <= rd.maxParseErrors <= INT64_MAX
    && 0 <= rd.maxDupErrors <= INT64_MAX
    && 0 <= rd.limit <= INT64_MAX
    && PairwiseDistinct(rd.infile.value, rd.logfile.value, rd.parseBadfile.value, rd.dupBadfile.value)
  }

  /** An unset quota becomes 50. */
  function QuotaDefault(n: int): int {
    if n < -1 then 50 else n
  }

  /**
   * The checks and defaults of ParseControlFile after its last line: TYPE,
   * TABLE and INFILE are mandatory, in that order; missing output names are
   * derived; the writer defaults to DIRECT and the quotas to 50; the four
   * file names must be pairwise distinct.
   */
  function Finish(rd: Reader, prefix: string): (r: Result<Reader, ConfigError>)
    requires InRange(rd)
    ensures r.Failure? ==> r.error.line == 0
    ensures rd.parser.None? ==> r == Failure(ConfigError(0, NoType))
    ensures rd.parser.Some? && rd.table.None? ==> r == Failure(ConfigError(0, NoTable))
    ensures rd.parser.Some? && rd.table.Some? && rd.infile.None? ==> r == Failure(ConfigError(0, NoInfile))
    ensures r.Success? ==> Resolved(r.value)
    ensures r.Success? ==>
      && r.value.table == rd.table && r.value.infile == rd.infile && r.value.parser == rd.parser
      && r.value.params == rd.params && r.value.limit == rd.limit
      && r.value.onDuplicate == rd.onDuplicate && r.value.verbose == rd.verbose
      && r.value.writer == Some(rd.writer.GetOr(DirectWriter))
      && r.value.maxParseErrors == QuotaDefault(rd.maxParseErrors)
      && r.value.maxDupErrors == QuotaDefault(rd.maxDupErrors)
    ensures rd.parser.Some? && rd.table.Some? && rd.infile.Some? && NeedsDefaults(rd) && DefaultTooLong(rd, prefix) ==>
      r.Failure? && r.error.kind != SameFileName
    ensures rd.parser.Some? && rd.table.Some? && rd.infile.Some? && !(NeedsDefaults(rd) && DefaultTooLong(rd, prefix)) ==>
      && (r.Success? <==> PairwiseDistinct(
            rd.infile.value,
            rd.logfile.GetOr(prefix + LogSuffix),
            rd.parseBadfile.GetOr(prefix + ParseBadSuffix(rd.infile.value)),
            rd.dupBadfile.GetOr(prefix + DupSuffix)))
      && (r.Failure? ==> r.error.kind == SameFileName)
  {
    if rd.parser.None? then Failure(ConfigError(0, NoType))
    else if rd.table.None? then Failure(ConfigError(0, NoTable))
    else if rd.infile.None? then Failure(ConfigError(0, NoInfile))
    else
      match DefaultFileNames(rd, prefix)
      case Failure(kind) => Failure(ConfigError(0, kind))
      case Success(named) =>
        var done := named.(
          writer := Some(named.writer.GetOr(DirectWriter)),
          maxParseErrors := QuotaDefault(named.maxParseErrors),
          maxDupErrors := QuotaDefault(named.maxDupErrors));
        if PairwiseDistinct(done.infile.value, done.logfile.value, done.parseBadfile.value, done.dupBadfile.value) then
          Success(done)
        else Failure(ConfigError(0, SameFileName))
  }

  /**
   * ReaderCreate's resolution of the control file `fname` (whose text is
   * `fileText`; an empty name means no file) and of the inline `options`.
   */
  function Resolve(fname: string, fileText: string, options: string, prefix: string, accepts: ParamOracle): (r: Result<Reader, ConfigError>)
    ensures r.Success? ==> Resolved(r.value)
  {
    if |fname| > 0 && fname[0] != '/' then Failure(ConfigError(0, NotAbsolutePath))
    else
      var fromFile := ApplyLines(LineParser(accepts), Initial, ControlLines(fname, fileText), 0);
      if fromFile.Failure? then Failure(fromFile.error)
      else
        var fromOptions := ApplyLines(LineParser(accepts), fromFile.value.0, OptionBuffers(options), fromFile.value.1);
        if fromOptions.Failure? then Failure(fromOptions.error)
        else
          ApplyLinesInRange(accepts, Initial, ControlLines(fname, fileText), 0);
          ApplyLinesInRange(accepts, fromFile.value.0, OptionBuffers(options), fromFile.value.1);
          Finish(fromOptions.value.0, prefix)
  }

  // ---------------------------------------------------------------------
  // The imperative resolver
  // ---------------------------------------------------------------------

  /** The line loop unrolled once. */
  lemma ApplyLinesStep(step: LineStep, rd: Reader, buf: string, rest: seq<string>, line: nat)
    ensures var first := step(rd, line + 1, buf);
      ApplyLines(step, rd, [buf] + rest, line)
      == if first.Failure? then Failure(first.error) else ApplyLines(step, first.value, rest, line + 1)
  {
    assert ([buf] + rest)[0] == buf;
    assert ([buf] + rest)[1..] == rest;
  }

  /** Applying the chunks of a text is applying its first chunk, then the chunks of the rest. */
  lemma ApplyFirstChunk(step: LineStep, rd: Reader, text: string, line: nat)
    requires text != []
    ensures var n := ChunkLength(text);
      var first := step(rd, line + 1, text[..n]);
      ApplyLines(step, rd, FileChunks(text), line)
      == if first.Failure? then Failure(first.error) else ApplyLines(step, first.value, FileChunks(text[n..]), line + 1)
  {
    var n := ChunkLength(text);
    assert FileChunks(text) == [text[..n]] + FileChunks(text[n..]);
    ApplyLinesStep(step, rd, text[..n], FileChunks(text[n..]), line);
  }

  /**
   * The reading loop of ParseControlFile over the control file, one fgets
   * buffer at a time; `step` is the per-line function, which ParseControlFile
   * makes ParseControlFileLine.
   */
  method ReadControlFile(step: LineStep, rd0: Reader, line0: nat, fileText: string)
    returns (r: Result<(Reader, nat), ConfigError>)
    ensures r == ApplyLines(step, rd0, FileChunks(fileText), line0)
  {
    var rd, line, rest := rd0, line0, fileText;
    while rest != []
      invariant ApplyLines(step, rd0, FileChunks(fileText), line0) == ApplyLines(step, rd, FileChunks(rest), line)
      decreases |rest|
    {
      var n := ChunkLength(rest);
      ApplyFirstChunk(step, rd, rest, line);
      var res := step(rd, line + 1, rest[..n]);
      if res.Failure? {
        return Failure(res.error);
      }
      rd, line, rest := res.value, line + 1, rest[n..];
    }
    return Success((rd, line));
  }

  /** The loop of ParseControlFile over the '\n'-terminated segments of the options. */
  method ReadOptions(step: LineStep, rd0: Reader, line0: nat, options: string)
    returns (r: Result<(Reader, nat), ConfigError>)
    ensures r == ApplyLines(step, rd0, OptionBuffers(options), line0)
  {
    var rd, line, rest := rd0, line0, options;
    while IndexOf(rest, '\n').Some?
      invariant ApplyLines(step, rd0, OptionBuffers(options), line0) == ApplyLines(step, rd, OptionBuffers(rest), line)
      decreases |rest|
    {
      var k := IndexOf(rest, '\n').value;
      var buf := rest[..OptionCopyLength(k + 1)];
      ApplyLinesStep(step, rd, buf, OptionBuffers(rest[k + 1..]), line);
      var res := step(rd, line + 1, buf);
      if res.Failure? {
        return Failure(res.error);
      }
      rd, line, rest := res.value, line + 1, rest[k + 1..];
    }
    return Success((rd, line));
  }

  /** The checks and defaults after the last line, applied to the Reader one setting at a time. */
  method FinishInPlace(rd0: Reader, prefix: string) returns (r: Result<Reader, ConfigError>)
    requires InRange(rd0)
    ensures r == Finish(rd0, prefix)
  {
    var rd := rd0;
    if rd.parser.None? {
      return Failure(ConfigError(0, NoType));
    }
    if rd.table.None? {
      return Failure(ConfigError(0, NoTable));
    }
    if rd.infile.None? {
      return Failure(ConfigError(0, NoInfile));
    }
    var named := DefaultFileNames(rd, prefix);
    if named.Failure? {
      return Failure(ConfigError(0, named.error));
    }
    rd := named.value;
    if rd.writer.None? {
      rd := rd.(writer := Some(DirectWriter));
    }
    if rd.maxParseErrors < -1 {
      rd := rd.(maxParseErrors := 50);
    }
    if rd.maxDupErrors < -1 {
      rd := rd.(maxDupErrors := 50);
    }
    if !PairwiseDistinct(rd.infile.value, rd.logfile.value, rd.parseBadfile.value, rd.dupBadfile.value) {
      return Failure(ConfigError(0, SameFileName));
    }
    return Success(rd);
  }

  /**
   * ParseControlFile: reads the control file line by line as fgets does,
   * then the '\n'-terminated segments of the options, then applies the final
   * checks and defaults.
   */
  method ParseControlFile(fname: string, fileText: string, options: string, prefix: string, accepts: ParamOracle)
    returns (r: Result<Reader, ConfigError>)
    ensures r == Resolve(fname, fileText, options, prefix, accepts)
  {
    var fromFile: Result<(Reader, nat), ConfigError> := Success((Initial, 0));
    if |fname| > 0 {
      if fname[0] != '/' {
        return Failure(ConfigError(0, NotAbsolutePath));
      }
      fromFile := ReadControlFile(LineParser(accepts), Initial, 0, fileText);
    }
    if fromFile.Failure? {
      return Failure(fromFile.error);
    }
    var fromOptions := ReadOptions(LineParser(accepts), fromFile.value.0, fromFile.value.1, options);
    if fromOptions.Failure? {
      return Failure(fromOptions.error);
    }
    ApplyLinesInRange(accepts, Initial, ControlLines(fname, fileText), 0);
    ApplyLinesInRange(accepts, fromFile.value.0, OptionBuffers(options), fromFile.value.1);
    r := FinishInPlace(fromOptions.value.0, prefix);
  }
}
