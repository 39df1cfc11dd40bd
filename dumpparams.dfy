/**
 * ReaderDumpParams: the resolved settings written back as control lines,
 * and the proof that reading those lines back restores the settings.
 */
module DumpParams {
  import opened Wrappers
  import opened StrUtil
  import opened ControlFile
  import opened ControlFacts

  // ---------------------------------------------------------------------
  // Rendering
  // ---------------------------------------------------------------------

  /** One `NAME = text` line. */
  function DumpLine(name: string, text: string): string {
    name + " = " + text + "\n"
  }

  /** A quota or the load limit: INT64_MAX is written as INFINITE. */
  function QuotaText(n: int): string {
    if n == INT64_MAX then "INFINITE" else IntToString(n)
  }

  /** ON_DUPLICATE_NAMES: the upper-case names ReaderDumpParams writes. */
  function OnDuplicateName(o: OnDuplicate): string {
    match o
    case OnDuplicateError => "ERROR"
    case RemoveNew => "REMOVE_NEW"
    case RemoveOld => "REMOVE_OLD"
  }

  function YesNo(b: bool): string {
    if b then "YES" else "NO"
  }

  /**
   * The lines ReaderDumpParams logs for a resolved Reader whose target table
   * has the qualified name `tablename`: the four file names and the table,
   * quoted, then the two quotas, ON_DUPLICATE, VERBOSE and LOAD.
   */
  function DumpLines(rd: Reader, tablename: string): (lines: seq<string>)
    requires Resolved(rd)
    ensures |lines| == 10
  {
    InfilePair(rd) + DupBadfilePair(rd) + TablePair(rd, tablename) + DupErrorsPair(rd) + VerbosePair(rd)
  }

  // The dump two lines at a time, in order.

  function InfilePair(rd: Reader): seq<string>
    requires Resolved(rd)
  {
    [DumpLine("INFILE", QuoteString(rd.infile.value)), DumpLine("PARSE_BADFILE", QuoteString(rd.parseBadfile.value))]
  }

  function DupBadfilePair(rd: Reader): seq<string>
    requires Resolved(rd)
  {
    [DumpLine("DUPLICATE_BADFILE", QuoteString(rd.dupBadfile.value)), DumpLine("LOGFILE", QuoteString(rd.logfile.value))]
  }

  function TablePair(rd: Reader, tablename: string): seq<string> {
    [TableLine(tablename), DumpLine("PARSE_ERRORS", QuotaText(rd.maxParseErrors))]
  }

  function DupErrorsPair(rd: Reader): seq<string> {
    [DumpLine("DUPLICATE_ERRORS", QuotaText(rd.maxDupErrors)), DumpLine("ON_DUPLICATE", OnDuplicateName(rd.onDuplicate))]
  }

  function VerbosePair(rd: Reader): seq<string> {
    [DumpLine("VERBOSE", YesNo(rd.verbose)), DumpLine("LOAD", QuotaText(rd.limit))]
  }

  /** The TABLE line with the name quoted like the file names. */
  function TableLine(tablename: string): string {
    DumpLine("TABLE", QuoteString(tablename))
  }

  /** The TABLE line as ReaderDumpParams writes it: the quoted text is computed but the bare name is printed. */
  function TableLineAsWritten(tablename: string): string {
    DumpLine("TABLE", tablename)
  }

  // ---------------------------------------------------------------------
  // Lexing a dumped line
  // ---------------------------------------------------------------------

  /** A character that needs no quoting on a control line. */
  predicate PlainChar(c: char) {
    !IsSpace(c) && c != QUOTE && c != '#' && c != '='
  }

  predicate Plain(s: string) {
    s != [] && forall i :: 0 <= i < |s| ==> PlainChar(s[i])
  }

  /** A dumped line without a comment lexes like its text. */
  lemma DumpLineText(name: string, text: string)
    requires Plain(name) && '\n' !in text
    requires StripComment(name + " = " + text) == name + " = " + text
    ensures LexLine(DumpLine(name, text)) == LexContent(name + " = " + text)
  {
    var body := name + " = " + text;
    assert DumpLine(name, text) == body + "\n";
    assert '\n' !in body by {
      assert forall i :: 0 <= i < |name| ==> body[i] == name[i];
      assert forall i :: |name| + 3 <= i < |body| ==> body[i] == text[i - |name| - 3];
    }
    LineTextOf(body);
  }

  /** The '=' that follows a plain name and a blank is the first one outside quotes. */
  lemma EqualsFound(name: string, text: string)
    requires Plain(name)
    ensures FindUnquotedChar(name + " = " + text, '=') == Some(|name| + 1)
  {
    var key := name + " ";
    assert name + " = " + text == key + ['='] + (" " + text);
    assert QUOTE !in key && '=' !in key by {
      assert forall i :: 0 <= i < |name| ==> key[i] == name[i];
    }
    FindAfterPlain(key, '=', " " + text);
  }

  /** Either side of the '=' of `name = text`, trimmed, is the name and the text. */
  lemma SidesTrimmed(name: string, text: string)
    requires Plain(name)
    requires text != [] && !IsSpace(text[0]) && !IsSpace(text[|text| - 1])
    ensures TrimSpace((name + " = " + text)[..|name| + 1]) == name
    ensures TrimSpace((name + " = " + text)[|name| + 2..]) == text
  {
    var body := name + " = " + text;
    assert body[..|name| + 1] == name + " ";
    assert body[|name| + 2..] == " " + text;
    TrimTrailingSpace(name, " ");
    TrimUnpadded(name);
    TrimLeadingSpace(" ", text);
    TrimUnpadded(text);
  }

  /** `name = text` splits at its '=' into the name and the text. */
  lemma SplitAtEquals(name: string, text: string)
    requires Plain(name)
    requires text != [] && !IsSpace(text[0]) && !IsSpace(text[|text| - 1])
    ensures var body := name + " = " + text;
      && TrimSpace(body) == body
      && FindUnquotedChar(body, '=') == Some(|name| + 1)
      && TrimSpace(body[..|name| + 1]) == name
      && TrimSpace(body[|name| + 2..]) == text
  {
    TrimUnpadded(name + " = " + text);
    EqualsFound(name, text);
    SidesTrimmed(name, text);
  }

  /** The keyword and the value of `name = text`, with the value's own unquoting. */
  lemma SplitDumpLine(name: string, text: string, v: string)
    requires Plain(name) && '\n' !in text
    requires text != [] && !IsSpace(text[0]) && !IsSpace(text[|text| - 1])
    requires StripComment(name + " = " + text) == name + " = " + text
    requires UnquoteString(text) == Some(v)
    ensures LexLine(DumpLine(name, text)) == Success(Directive(name, v))
  {
    var body := name + " = " + text;
    DumpLineText(name, text);
    SplitAtEquals(name, text);
    LexContentAt(body, |name| + 1, name, v);
  }

  /** A line whose text is plain lexes to its name and text. */
  lemma PlainLineLexes(name: string, text: string)
    requires Plain(name) && Plain(text)
    ensures LexLine(DumpLine(name, text)) == Success(Directive(name, text))
  {
    var body := name + " = " + text;
    assert QUOTE !in body && '#' !in body by {
      assert forall i :: 0 <= i < |name| ==> body[i] == name[i];
      assert forall i :: |name| + 3 <= i < |body| ==> body[i] == text[i - |name| - 3];
    }
    assert '\n' !in text by {
      assert forall i :: 0 <= i < |text| ==> PlainChar(text[i]);
    }
    SplitDumpLine(name, text, text);
  }

  /** A quoted line lexes to its name and the text it quotes. */
  lemma QuotedLineLexes(name: string, s: string)
    requires Plain(name) && '\n' !in s
    ensures LexLine(DumpLine(name, QuoteString(s))) == Success(Directive(name, s))
  {
    var text := QuoteString(s);
    QuotedHasNoComment(name, s);
    EscapeKeepsOut(s, '\n');
    assert '\n' !in text by {
      assert text == [QUOTE] + Escape(s) + [QUOTE];
    }
    QuoteRoundTrip(s);
    SplitDumpLine(name, text, s);
  }

  /** No '#' of a quoted text starts a comment. */
  lemma QuotedHasNoComment(name: string, s: string)
    requires Plain(name)
    ensures StripComment(name + " = " + QuoteString(s)) == name + " = " + QuoteString(s)
  {
    var text := QuoteString(s);
    var lead := name + " = ";
    assert QUOTE !in lead && '#' !in lead by {
      assert forall i :: 0 <= i < |name| ==> lead[i] == name[i];
    }
    assert lead + text == lead + (text + []);
    FindPastPlain(lead, '#', text + []);
    FindSkipsQuoteString(s, [], '#');
  }

  /**
   * The TABLE line as written loses the quotes of a quoted identifier: a
   * relation name that needs quoting, printed as schema."rel", reads back as
   * schema.rel, which names another relation (or none).
   */
  lemma TableLineAsWrittenLosesQuotes(schema: string, rel: string)
    requires Plain(schema) && QUOTE !in rel && ESCAPE !in rel && '#' !in rel && '\n' !in rel
    ensures var written := schema + "." + QuoteString(rel);
      && LexLine(TableLineAsWritten(written)) == Success(Directive("TABLE", schema + "." + rel))
      && schema + "." + rel != written
  {
    var t := schema + "." + QuoteString(rel);
    QualifiedUnquotes(schema, rel);
    NamePlain("TABLE");
    BareLineLexes("TABLE", t, schema + "." + rel);
  }

  /** schema."rel" unquotes to schema.rel. */
  lemma QualifiedUnquotes(schema: string, rel: string)
    requires Plain(schema) && QUOTE !in rel && ESCAPE !in rel && '#' !in rel && '\n' !in rel
    ensures var t := schema + "." + QuoteString(rel);
      && UnquoteString(t) == Some(schema + "." + rel)
      && '#' !in t && '\n' !in t && !IsSpace(t[0]) && t[|t| - 1] == QUOTE
      && |t| == |schema + "." + rel| + 2
  {
    var p := schema + ".";
    assert QUOTE !in p && '#' !in p && '\n' !in p && p[0] == schema[0] by {
      assert forall i :: 0 <= i < |schema| ==> p[i] == schema[i];
    }
    PrefixedQuoteUnquotes(p, rel);
  }

  /** A prefix without quotes followed by a quoted text unquotes to the prefix and the text. */
  lemma PrefixedQuoteUnquotes(p: string, rel: string)
    requires QUOTE !in p && '#' !in p && '\n' !in p
    requires QUOTE !in rel && ESCAPE !in rel && '#' !in rel && '\n' !in rel
    ensures var t := p + QuoteString(rel);
      && UnquoteString(t) == Some(p + rel)
      && '#' !in t && '\n' !in t && (p != [] ==> t[0] == p[0]) && t[|t| - 1] == QUOTE
      && |t| == |p + rel| + 2
  {
    QuoteRoundTrip(rel);
    UnquotePlainPrefix(p, QuoteString(rel), rel);
    PlainQuoteChars(p, rel);
  }

  /** The characters of a prefix followed by a quoted text without quote or escape characters. */
  lemma PlainQuoteChars(p: string, rel: string)
    requires '#' !in p && '\n' !in p
    requires QUOTE !in rel && ESCAPE !in rel && '#' !in rel && '\n' !in rel
    ensures var t := p + QuoteString(rel);
      && '#' !in t && '\n' !in t && (p != [] ==> t[0] == p[0]) && t[|t| - 1] == QUOTE
      && |t| == |p + rel| + 2
  {
    var q := QuoteString(rel);
    EscapeUnchanged(rel);
    assert q == [QUOTE] + rel + [QUOTE];
    var t := p + q;
    assert '#' !in q && '\n' !in q;
    assert '#' !in t && '\n' !in t by {
      assert forall i :: |p| <= i < |t| ==> t[i] == q[i - |p|];
      assert forall i :: 0 <= i < |p| ==> t[i] == p[i];
    }
  }

  /** A line whose text holds no '#' and ends in a quote lexes to its name and the unquoted text. */
  lemma BareLineLexes(name: string, t: string, v: string)
    requires Plain(name) && '#' !in t && '\n' !in t && t != [] && !IsSpace(t[0]) && t[|t| - 1] == QUOTE
    requires UnquoteString(t) == Some(v)
    ensures LexLine(DumpLine(name, t)) == Success(Directive(name, v))
  {
    var body := name + " = " + t;
    assert '#' !in body by {
      assert forall i :: 0 <= i < |name| ==> body[i] == name[i];
      assert forall i :: |name| + 3 <= i < |body| ==> body[i] == t[i - |name| - 3];
    }
    FindAbsent(body, '#', false);
    SplitDumpLine(name, t, v);
  }

  /** The TABLE line with the name quoted reads back as the same name, quotes included. */
  lemma TableLineLexes(tablename: string)
    requires '\n' !in tablename
    ensures LexLine(TableLine(tablename)) == Success(Directive("TABLE", tablename))
  {
    NamePlain("TABLE");
    QuotedLineLexes("TABLE", tablename);
  }


  // ---------------------------------------------------------------------
  // Reading the dump back
  // ---------------------------------------------------------------------

  /** `lower` is `name` in lower case, stated character by character. */
  predicate LowerIs(name: string, lower: string) {
    |name| == |lower| && forall j :: 0 <= j < |name| ==> ToLower(name[j]) == lower[j]
  }

  lemma LowerOf(name: string, lower: string)
    requires LowerIs(name, lower)
    ensures Lower(name) == lower
  {
  }

  /** The first of `names` equal to `s` is at `i`. */
  lemma {:induction false} PositionAt(s: string, names: seq<string>, i: nat)
    requires i < |names| && names[i] == s && s !in names[..i]
    ensures Position(s, names) == Some(i)
  {
    if i > 0 {
      assert names[0] == names[..i][0];
      assert names[1..][..i - 1] == names[..i][1..];
      PositionAt(s, names[1..], i - 1);
    }
  }

  lemma ClassifyAt(name: string, lower: string, i: nat)
    requires LowerIs(name, lower) && i < |KeywordNames| && lower == KeywordNames[i] && lower !in KeywordNames[..i]
    ensures Classify(name) == KeywordClasses[i]
  {
    LowerOf(name, lower);
    PositionAt(lower, KeywordNames, i);
  }

  lemma ChoiceAt(name: string, lower: string, keys: seq<string>, i: nat)
    requires LowerIs(name, lower) && i < |keys| && lower == keys[i] && lower !in keys[..i]
    ensures Choice(name, keys) == Some(i)
  {
    LowerOf(name, lower);
    PositionAt(lower, keys, i);
  }

  /** The characters of the upper-case names ReaderDumpParams writes. */
  predicate NameChar(c: char) {
    'A' <= c <= 'Z' || c == '_'
  }

  lemma NamePlain(name: string)
    requires name != [] && forall j :: 0 <= j < |name| ==> NameChar(name[j])
    ensures Plain(name)
  {
  }

  lemma DigitsPlain(s: string)
    requires s != [] && AllDigits(s)
    ensures Plain(s)
  {
  }

  /** A quota as written reads back as itself, INFINITE included. */
  lemma QuotaReadsBack(n: int, minValue: int)
    requires 0 <= n <= INT64_MAX && minValue <= 0
    ensures Plain(QuotaText(n))
    ensures ParseInt64(QuotaText(n), minValue) == Some(n)
  {
    var t := QuotaText(n);
    if n == INT64_MAX {
      NamePlain(t);
      LowerOf(t, "infinite");
    } else {
      DigitsPlain(NatToString(n));
      ParseInt64OfIntToString(n, minValue);
    }
  }

  /** ON_DUPLICATE as written selects the same action. */
  lemma OnDuplicateReadsBack(o: OnDuplicate)
    ensures Plain(OnDuplicateName(o))
    ensures Choice(OnDuplicateName(o), OnDuplicateNames).Some?
    ensures OnDuplicateValues[Choice(OnDuplicateName(o), OnDuplicateNames).value] == o
  {
    NamePlain(OnDuplicateName(o));
    match o
    case OnDuplicateError => OnDuplicateChoice(o, "error", 0);
    case RemoveNew => OnDuplicateChoice(o, "remove_new", 1);
    case RemoveOld => OnDuplicateChoice(o, "remove_old", 2);
  }

  lemma OnDuplicateChoice(o: OnDuplicate, lower: string, i: nat)
    requires i < |OnDuplicateNames| && lower == OnDuplicateNames[i] && lower !in OnDuplicateNames[..i]
    requires LowerIs(OnDuplicateName(o), lower) && i < |OnDuplicateValues| && OnDuplicateValues[i] == o
    ensures Choice(OnDuplicateName(o), OnDuplicateNames) == Some(i)
  {
    ChoiceAt(OnDuplicateName(o), lower, OnDuplicateNames, i);
  }

  /** VERBOSE as written reads back as the same flag. */
  lemma VerboseReadsBack(b: bool)
    ensures Plain(YesNo(b))
    ensures ParseBoolean(YesNo(b), false) == Some(b)
  {
    var t := YesNo(b);
    NamePlain(t);
    if b {
      LowerOf(t, "yes");
      assert BooleanNames[..4][1] == "yes";
    } else {
      LowerOf(t, "no");
      assert BooleanNames[5] == "no";
      assert "no" !in BooleanNames[..4];
    }
  }

  /** A line that lexes to a directive has that directive's effect. */
  lemma ReadBackLine(r: Reader, r': Reader, line: nat, buf: string, name: string, v: string, accepts: ParamOracle)
    requires LexLine(buf) == Success(Directive(name, v))
    requires ApplyDirective(r, name, v, accepts) == Success(r')
    ensures ParseControlFileLine(r, line, buf, accepts) == Success(r')
  {
  }

  /** An upper-case name whose lower case is the `i`th keyword is plain and of that keyword's class. */
  lemma KeywordName(name: string, lower: string, i: nat)
    requires name != [] && forall j :: 0 <= j < |name| ==> NameChar(name[j])
    requires LowerIs(name, lower) && i < |KeywordNames| && lower == KeywordNames[i] && lower !in KeywordNames[..i]
    ensures Plain(name) && Classify(name) == KeywordClasses[i]
  {
    NamePlain(name);
    ClassifyAt(name, lower, i);
  }

  // Each dumped setting applied to a Reader that does not have it yet sets it and nothing else.

  lemma InfileApplies(r: Reader, name: string, s: string, accepts: ParamOracle)
    requires r.infile.None?
    ensures Apply(r, KInfile, name, s, accepts) == Success(r.(infile := Some(s)))
  {
  }

  lemma ParseBadfileApplies(r: Reader, name: string, s: string, accepts: ParamOracle)
    requires r.parseBadfile.None?
    ensures Apply(r, KParseBadfile, name, s, accepts) == Success(r.(parseBadfile := Some(s)))
  {
  }

  lemma DupBadfileApplies(r: Reader, name: string, s: string, accepts: ParamOracle)
    requires r.dupBadfile.None?
    ensures Apply(r, KDupBadfile, name, s, accepts) == Success(r.(dupBadfile := Some(s)))
  {
  }

  lemma LogfileApplies(r: Reader, name: string, s: string, accepts: ParamOracle)
    requires r.logfile.None?
    ensures Apply(r, KLogfile, name, s, accepts) == Success(r.(logfile := Some(s)))
  {
  }

  lemma TableApplies(r: Reader, name: string, s: string, accepts: ParamOracle)
    requires r.table.None?
    ensures Apply(r, KTable, name, s, accepts) == Success(r.(table := Some(s)))
  {
  }

  lemma ParseErrorsApplies(r: Reader, name: string, n: int, accepts: ParamOracle)
    requires r.maxParseErrors < -1 && 0 <= n <= INT64_MAX
    ensures Apply(r, KParseErrors, name, QuotaText(n), accepts) == Success(r.(maxParseErrors := n))
  {
    QuotaReadsBack(n, -1);
  }

  lemma DupErrorsApplies(r: Reader, name: string, n: int, accepts: ParamOracle)
    requires r.maxDupErrors < -1 && 0 <= n <= INT64_MAX
    ensures Apply(r, KDupErrors, name, QuotaText(n), accepts) == Success(r.(maxDupErrors := n))
  {
    QuotaReadsBack(n, -1);
  }

  lemma OnDuplicateApplies(r: Reader, name: string, t: string, o: OnDuplicate, accepts: ParamOracle)
    requires Choice(t, OnDuplicateNames).Some?
    requires OnDuplicateValues[Choice(t, OnDuplicateNames).value] == o
    ensures Apply(r, KOnDuplicate, name, t, accepts) == Success(r.(onDuplicate := o))
  {
  }

  lemma VerboseApplies(r: Reader, name: string, t: string, b: bool, accepts: ParamOracle)
    requires ParseBoolean(t, false) == Some(b)
    ensures Apply(r, KVerbose, name, t, accepts) == Success(r.(verbose := b))
  {
  }

  lemma LoadApplies(r: Reader, name: string, n: int, accepts: ParamOracle)
    requires r.limit == INT64_MAX && 0 <= n <= INT64_MAX
    ensures Apply(r, KLoad, name, QuotaText(n), accepts) == Success(r.(limit := n))
  {
    QuotaReadsBack(n, 0);
  }

  // One lemma per dumped line: its effect on a Reader that does not have that setting yet.

  lemma InfileLineReads(r: Reader, line: nat, name: string, s: string, accepts: ParamOracle)
    requires name == "INFILE" && r.infile.None? && '\n' !in s
    ensures ParseControlFileLine(r, line, DumpLine(name, QuoteString(s)), accepts) == Success(r.(infile := Some(s)))
  {
    KeywordName(name, "infile", 1);
    QuotedLineLexes(name, s);
    InfileApplies(r, name, s, accepts);
    ReadBackLine(r, r.(infile := Some(s)), line, DumpLine(name, QuoteString(s)), name, s, accepts);
  }

  lemma ParseBadfileLineReads(r: Reader, line: nat, name: string, s: string, accepts: ParamOracle)
    requires name == "PARSE_BADFILE" && r.parseBadfile.None? && '\n' !in s
    ensures ParseControlFileLine(r, line, DumpLine(name, QuoteString(s)), accepts) == Success(r.(parseBadfile := Some(s)))
  {
    KeywordName(name, "parse_badfile", 3);
    QuotedLineLexes(name, s);
    ParseBadfileApplies(r, name, s, accepts);
    ReadBackLine(r, r.(parseBadfile := Some(s)), line, DumpLine(name, QuoteString(s)), name, s, accepts);
  }

  lemma DupBadfileLineReads(r: Reader, line: nat, name: string, s: string, accepts: ParamOracle)
    requires name == "DUPLICATE_BADFILE" && r.dupBadfile.None? && '\n' !in s
    ensures ParseControlFileLine(r, line, DumpLine(name, QuoteString(s)), accepts) == Success(r.(dupBadfile := Some(s)))
  {
    KeywordName(name, "duplicate_badfile", 4);
    QuotedLineLexes(name, s);
    DupBadfileApplies(r, name, s, accepts);
    ReadBackLine(r, r.(dupBadfile := Some(s)), line, DumpLine(name, QuoteString(s)), name, s, accepts);
  }

  lemma LogfileLineReads(r: Reader, line: nat, name: string, s: string, accepts: ParamOracle)
    requires name == "LOGFILE" && r.logfile.None? && '\n' !in s
    ensures ParseControlFileLine(r, line, DumpLine(name, QuoteString(s)), accepts) == Success(r.(logfile := Some(s)))
  {
    KeywordName(name, "logfile", 2);
    QuotedLineLexes(name, s);
    LogfileApplies(r, name, s, accepts);
    ReadBackLine(r, r.(logfile := Some(s)), line, DumpLine(name, QuoteString(s)), name, s, accepts);
  }

  lemma TableLineReads(r: Reader, line: nat, name: string, s: string, accepts: ParamOracle)
    requires name == "TABLE" && r.table.None? && '\n' !in s
    ensures ParseControlFileLine(r, line, DumpLine(name, QuoteString(s)), accepts) == Success(r.(table := Some(s)))
  {
    KeywordName(name, "table", 0);
    QuotedLineLexes(name, s);
    TableApplies(r, name, s, accepts);
    ReadBackLine(r, r.(table := Some(s)), line, DumpLine(name, QuoteString(s)), name, s, accepts);
  }

  lemma ParseErrorsLineReads(r: Reader, line: nat, name: string, n: int, accepts: ParamOracle)
    requires name == "PARSE_ERRORS" && r.maxParseErrors < -1 && 0 <= n <= INT64_MAX
    ensures ParseControlFileLine(r, line, DumpLine(name, QuotaText(n)), accepts) == Success(r.(maxParseErrors := n))
  {
    KeywordName(name, "parse_errors", 8);
    QuotaReadsBack(n, -1);
    PlainLineLexes(name, QuotaText(n));
    ParseErrorsApplies(r, name, n, accepts);
    ReadBackLine(r, r.(maxParseErrors := n), line, DumpLine(name, QuotaText(n)), name, QuotaText(n), accepts);
  }

  lemma DupErrorsLineReads(r: Reader, line: nat, name: string, n: int, accepts: ParamOracle)
    requires name == "DUPLICATE_ERRORS" && r.maxDupErrors < -1 && 0 <= n <= INT64_MAX
    ensures ParseControlFileLine(r, line, DumpLine(name, QuotaText(n)), accepts) == Success(r.(maxDupErrors := n))
  {
    KeywordName(name, "duplicate_errors", 10);
    QuotaReadsBack(n, -1);
    PlainLineLexes(name, QuotaText(n));
    DupErrorsApplies(r, name, n, accepts);
    ReadBackLine(r, r.(maxDupErrors := n), line, DumpLine(name, QuotaText(n)), name, QuotaText(n), accepts);
  }

  lemma OnDuplicateLineReads(r: Reader, line: nat, name: string, o: OnDuplicate, accepts: ParamOracle)
    requires name == "ON_DUPLICATE"
    ensures ParseControlFileLine(r, line, DumpLine(name, OnDuplicateName(o)), accepts) == Success(r.(onDuplicate := o))
  {
    KeywordName(name, "on_duplicate", 13);
    OnDuplicateReadsBack(o);
    PlainLineLexes(name, OnDuplicateName(o));
    OnDuplicateApplies(r, name, OnDuplicateName(o), o, accepts);
    ReadBackLine(r, r.(onDuplicate := o), line, DumpLine(name, OnDuplicateName(o)), name, OnDuplicateName(o), accepts);
  }

  lemma VerboseLineReads(r: Reader, line: nat, name: string, b: bool, accepts: ParamOracle)
    requires name == "VERBOSE"
    ensures ParseControlFileLine(r, line, DumpLine(name, YesNo(b)), accepts) == Success(r.(verbose := b))
  {
    KeywordName(name, "verbose", 14);
    VerboseReadsBack(b);
    PlainLineLexes(name, YesNo(b));
    VerboseApplies(r, name, YesNo(b), b, accepts);
    ReadBackLine(r, r.(verbose := b), line, DumpLine(name, YesNo(b)), name, YesNo(b), accepts);
  }

  lemma LoadLineReads(r: Reader, line: nat, name: string, n: int, accepts: ParamOracle)
    requires name == "LOAD" && r.limit == INT64_MAX && 0 <= n <= INT64_MAX
    ensures ParseControlFileLine(r, line, DumpLine(name, QuotaText(n)), accepts) == Success(r.(limit := n))
  {
    KeywordName(name, "load", 11);
    QuotaReadsBack(n, 0);
    PlainLineLexes(name, QuotaText(n));
    LoadApplies(r, name, n, accepts);
    ReadBackLine(r, r.(limit := n), line, DumpLine(name, QuotaText(n)), name, QuotaText(n), accepts);
  }

  /** Two lines that succeed one after the other. */
  lemma ApplyTwoLines(step: LineStep, r0: Reader, r1: Reader, r2: Reader, b0: string, b1: string, line: nat, line1: nat, line2: nat)
    requires line1 == line + 1 && line2 == line + 2
    requires step(r0, line1, b0) == Success(r1) && step(r1, line2, b1) == Success(r2)
    ensures ApplyLines(step, r0, [b0, b1], line) == Success((r2, line2))
  {
    assert [b1][1..] == [];
    assert ApplyLines(step, r1, [b1], line + 1) == Success((r2, line + 2));
    assert [b0, b1][1..] == [b1];
  }

  /** The settings a dump restores when it is read as a control file. */
  function Restored(rd: Reader, tablename: string): Reader {
    Initial.(infile := rd.infile, parseBadfile := rd.parseBadfile, dupBadfile := rd.dupBadfile,
             logfile := rd.logfile, table := Some(tablename),
             maxParseErrors := rd.maxParseErrors, maxDupErrors := rd.maxDupErrors,
             onDuplicate := rd.onDuplicate, verbose := rd.verbose, limit := rd.limit)
  }

  // The pairs read back, each from any Reader that does not have their settings yet.

  lemma InfilePairReads(rd: Reader, r: Reader, accepts: ParamOracle)
    requires Resolved(rd) && r.infile.None? && r.parseBadfile.None?
    requires '\n' !in rd.infile.value && '\n' !in rd.parseBadfile.value
    ensures ApplyLines(LineParser(accepts), r, InfilePair(rd), 0)
         == Success((r.(infile := rd.infile, parseBadfile := rd.parseBadfile), 2))
  {
    var r1 := r.(infile := rd.infile);
    InfileLineReads(r, 1, "INFILE", rd.infile.value, accepts);
    ParseBadfileLineReads(r1, 2, "PARSE_BADFILE", rd.parseBadfile.value, accepts);
    ApplyTwoLines(LineParser(accepts), r, r1, r1.(parseBadfile := rd.parseBadfile), InfilePair(rd)[0], InfilePair(rd)[1], 0, 1, 2);
  }

  lemma DupBadfilePairReads(rd: Reader, r: Reader, accepts: ParamOracle)
    requires Resolved(rd) && r.dupBadfile.None? && r.logfile.None?
    requires '\n' !in rd.dupBadfile.value && '\n' !in rd.logfile.value
    ensures ApplyLines(LineParser(accepts), r, DupBadfilePair(rd), 2)
         == Success((r.(dupBadfile := rd.dupBadfile, logfile := rd.logfile), 4))
  {
    var r1 := r.(dupBadfile := rd.dupBadfile);
    DupBadfileLineReads(r, 3, "DUPLICATE_BADFILE", rd.dupBadfile.value, accepts);
    LogfileLineReads(r1, 4, "LOGFILE", rd.logfile.value, accepts);
    ApplyTwoLines(LineParser(accepts), r, r1, r1.(logfile := rd.logfile), DupBadfilePair(rd)[0], DupBadfilePair(rd)[1], 2, 3, 4);
  }

  lemma TablePairReads(rd: Reader, tablename: string, r: Reader, accepts: ParamOracle)
    requires Resolved(rd) && r.table.None? && r.maxParseErrors < -1 && '\n' !in tablename
    ensures ApplyLines(LineParser(accepts), r, TablePair(rd, tablename), 4)
         == Success((r.(table := Some(tablename), maxParseErrors := rd.maxParseErrors), 6))
  {
    var r1 := r.(table := Some(tablename));
    TableLineReads(r, 5, "TABLE", tablename, accepts);
    ParseErrorsLineReads(r1, 6, "PARSE_ERRORS", rd.maxParseErrors, accepts);
    ApplyTwoLines(LineParser(accepts), r, r1, r1.(maxParseErrors := rd.maxParseErrors),
                  TablePair(rd, tablename)[0], TablePair(rd, tablename)[1], 4, 5, 6);
  }

  lemma DupErrorsPairReads(rd: Reader, r: Reader, accepts: ParamOracle)
    requires Resolved(rd) && r.maxDupErrors < -1
    ensures ApplyLines(LineParser(accepts), r, DupErrorsPair(rd), 6)
         == Success((r.(maxDupErrors := rd.maxDupErrors, onDuplicate := rd.onDuplicate), 8))
  {
    var r1 := r.(maxDupErrors := rd.maxDupErrors);
    DupErrorsLineReads(r, 7, "DUPLICATE_ERRORS", rd.maxDupErrors, accepts);
    OnDuplicateLineReads(r1, 8, "ON_DUPLICATE", rd.onDuplicate, accepts);
    ApplyTwoLines(LineParser(accepts), r, r1, r1.(onDuplicate := rd.onDuplicate), DupErrorsPair(rd)[0], DupErrorsPair(rd)[1], 6, 7, 8);
  }

  lemma VerbosePairReads(rd: Reader, r: Reader, accepts: ParamOracle)
    requires Resolved(rd) && r.limit == INT64_MAX
    ensures ApplyLines(LineParser(accepts), r, VerbosePair(rd), 8)
         == Success((r.(verbose := rd.verbose, limit := rd.limit), 10))
  {
    var r1 := r.(verbose := rd.verbose);
    VerboseLineReads(r, 9, "VERBOSE", rd.verbose, accepts);
    LoadLineReads(r1, 10, "LOAD", rd.limit, accepts);
    ApplyTwoLines(LineParser(accepts), r, r1, r1.(limit := rd.limit), VerbosePair(rd)[0], VerbosePair(rd)[1], 8, 9, 10);
  }

  /**
   * Read as control lines, the dump of a resolved Reader sets the table, the
   * four file names, both quotas, ON_DUPLICATE, VERBOSE and LOAD back to the
   * values it was dumped from, and every line succeeds.
   */
  lemma DumpReadsBack(rd: Reader, tablename: string, accepts: ParamOracle)
    requires Resolved(rd)
    requires '\n' !in rd.infile.value && '\n' !in rd.parseBadfile.value && '\n' !in rd.dupBadfile.value
    requires '\n' !in rd.logfile.value && '\n' !in tablename
    ensures ApplyLines(LineParser(accepts), Initial, DumpLines(rd, tablename), 0) == Success((Restored(rd, tablename), 10))
  {
    var step := LineParser(accepts);
    var a, b, c, d, e := InfilePair(rd), DupBadfilePair(rd), TablePair(rd, tablename), DupErrorsPair(rd), VerbosePair(rd);
    var r2 := Initial.(infile := rd.infile, parseBadfile := rd.parseBadfile);
    var r4 := r2.(dupBadfile := rd.dupBadfile, logfile := rd.logfile);
    var r6 := r4.(table := Some(tablename), maxParseErrors := rd.maxParseErrors);
    var r8 := r6.(maxDupErrors := rd.maxDupErrors, onDuplicate := rd.onDuplicate);
    InfilePairReads(rd, Initial, accepts);
    DupBadfilePairReads(rd, r2, accepts);
    TablePairReads(rd, tablename, r4, accepts);
    DupErrorsPairReads(rd, r6, accepts);
    VerbosePairReads(rd, r8, accepts);
    ApplyLinesAppend(step, Initial, a, b, 0);
    ApplyLinesAppend(step, Initial, a + b, c, 0);
    ApplyLinesAppend(step, Initial, a + b + c, d, 0);
    ApplyLinesAppend(step, Initial, a + b + c + d, e, 0);
  }
}
