/**
 * Properties of control-directive resolution: what one directive may change,
 * which keywords may be given once only, how lines compose, how buffers are
 * cut and what the default file names look like.
 */
module ControlFacts {
  import opened Wrappers
  import opened StrUtil
  import opened ControlFile

  // ---------------------------------------------------------------------
  // One directive
  // ---------------------------------------------------------------------

  /** `b` agrees with `a` on every setting except the one keyword `k` sets. */
  predicate SameOutside(a: Reader, b: Reader, k: Keyword) {
    && (k.KTable? || a.table == b.table)
    && (k.KInfile? || a.infile == b.infile)
    && (k.KLogfile? || a.logfile == b.logfile)
    && (k.KParseBadfile? || a.parseBadfile == b.parseBadfile)
    && (k.KDupBadfile? || a.dupBadfile == b.dupBadfile)
    && (k.KType? || a.parser == b.parser)
    && (k.KOther? || a.params == b.params)
    && (k.KWriter? || a.writer == b.writer)
    && (k.KParseErrors? || a.maxParseErrors == b.maxParseErrors)
    && (k.KDupErrors? || a.maxDupErrors == b.maxDupErrors)
    && (k.KLoad? || a.limit == b.limit)
    && (k.KOnDuplicate? || a.onDuplicate == b.onDuplicate)
    && (k.KVerbose? || a.verbose == b.verbose)
  }

  /** A directive changes only the setting of its own keyword; a parser directive only appends itself. */
  lemma ApplyFrame(rd: Reader, k: Keyword, keyword: string, value: string, accepts: ParamOracle)
    ensures Apply(rd, k, keyword, value, accepts).Success? ==> SameOutside(rd, Apply(rd, k, keyword, value, accepts).value, k)
    ensures k.KOther? && Apply(rd, k, keyword, value, accepts).Success? ==>
      Apply(rd, k, keyword, value, accepts).value.params == rd.params + [(keyword, value)]
  {
  }

  /**
   * ASSERT_ONCE: after a directive of a once-only keyword has been applied, a
   * second one is rejected as a duplicate, except after a LOAD whose value
   * was INFINITE (or INT64_MAX), which leaves the limit at its "not given" marker.
   */
  lemma OnceOnlyRejectsRepeat(rd: Reader, k: Keyword, kw1: string, v1: string, kw2: string, v2: string, accepts: ParamOracle)
    requires OnceOnly(k)
    requires Apply(rd, k, kw1, v1, accepts).Success?
    requires k.KLoad? ==> Apply(rd, k, kw1, v1, accepts).value.limit != INT64_MAX
    ensures Apply(Apply(rd, k, kw1, v1, accepts).value, k, kw2, v2, accepts) == Failure(Duplicate(kw2))
  {
  }

  /** LOAD = INFINITE leaves the Reader as it was, so it may be repeated. */
  lemma LoadInfiniteRepeatable(rd: Reader, keyword: string, value: string, accepts: ParamOracle)
    requires rd.limit == INT64_MAX && Lower(value) == "infinite"
    ensures Apply(rd, KLoad, keyword, value, accepts) == Success(rd)
  {
  }

  /** ON_DUPLICATE and VERBOSE may be repeated; the last one wins. */
  lemma LastOneWins(rd: Reader, k: Keyword, kw1: string, v1: string, kw2: string, v2: string, accepts: ParamOracle)
    requires k.KOnDuplicate? || k.KVerbose?
    requires Apply(rd, k, kw1, v1, accepts).Success?
    ensures Apply(Apply(rd, k, kw1, v1, accepts).value, k, kw2, v2, accepts) == Apply(rd, k, kw2, v2, accepts)
  {
  }

  /** TYPE = FIXED is an alias of TYPE = BINARY. */
  lemma FixedIsBinary(rd: Reader, keyword: string, value: string, accepts: ParamOracle)
    requires rd.parser.None? && Lower(value) == "fixed"
    ensures Apply(rd, KType, keyword, value, accepts) == Success(rd.(parser := Some(BinaryParser)))
  {
    assert Choice(value, TypeKeys) == Some(1);
  }

  // ---------------------------------------------------------------------
  // Lines
  // ---------------------------------------------------------------------

  /** A line never unsets what ASSERT_ONCE guards. */
  lemma ParseLineKeepsSet(rd: Reader, line: nat, buf: string, accepts: ParamOracle, guarded: Keyword)
    requires IsSet(rd, guarded)
    ensures ParseControlFileLine(rd, line, buf, accepts).Success? ==> IsSet(ParseControlFileLine(rd, line, buf, accepts).value, guarded)
  {
    match LexLine(buf)
    case Failure(_) =>
    case Success(Blank) =>
    case Success(Directive(keyword, value)) =>
      ApplyKeepsSet(rd, Classify(keyword), keyword, value, accepts, guarded);
  }

  /** Once a guarded keyword is set, no later lines unset it. */
  lemma {:induction false} ApplyLinesKeepsSet(accepts: ParamOracle, rd: Reader, bufs: seq<string>, line: nat, guarded: Keyword)
    requires IsSet(rd, guarded)
    ensures ApplyLines(LineParser(accepts), rd, bufs, line).Success? ==>
      IsSet(ApplyLines(LineParser(accepts), rd, bufs, line).value.0, guarded)
    decreases |bufs|
  {
    if bufs != [] {
      ParseLineKeepsSet(rd, line + 1, bufs[0], accepts, guarded);
      match ParseControlFileLine(rd, line + 1, bufs[0], accepts)
      case Failure(_) =>
      case Success(rd') => ApplyLinesKeepsSet(accepts, rd', bufs[1..], line + 1, guarded);
    }
  }

  /**
   * The option lines continue the control file: resolution is the same as
   * applying the file's lines followed by the option lines in one sequence,
   * numbered on from the file's last line.
   */
  lemma ResolveAsOneSequence(fname: string, fileText: string, options: string, prefix: string, accepts: ParamOracle)
    requires !(|fname| > 0 && fname[0] != '/')
    ensures var all := ApplyLines(LineParser(accepts), Initial, ControlLines(fname, fileText) + OptionBuffers(options), 0);
      Resolve(fname, fileText, options, prefix, accepts)
      == if all.Failure? then Failure(all.error)
         else (ApplyLinesInRange(accepts, Initial, ControlLines(fname, fileText) + OptionBuffers(options), 0);
               Finish(all.value.0, prefix))
  {
    ApplyLinesAppend(LineParser(accepts), Initial, ControlLines(fname, fileText), OptionBuffers(options), 0);
  }

  // ---------------------------------------------------------------------
  // Comments and blank lines
  // ---------------------------------------------------------------------

  /** The text of a line buffer is the line without its '\n'. */
  lemma LineTextOf(body: string)
    requires '\n' !in body
    ensures LineText(body + "\n") == body
  {
    var buf := body + "\n";
    assert buf[|body|] == '\n';
    assert buf[..|body| + 1][|body|] == '\n';
    assert forall i :: 0 <= i < |body| ==> buf[i] == body[i];
    assert buf[..|body|] == body;
  }

  /** A '#' outside quotes starts a comment: the rest of the line is ignored. */
  lemma CommentIgnored(body: string, comment: string)
    requires QUOTE !in body && '#' !in body && '\n' !in body && '\n' !in comment
    ensures LexLine(body + "#" + comment + "\n") == LexLine(body + "\n")
  {
    var text := body + "#" + comment;
    assert body + "#" + comment + "\n" == text + "\n";
    assert '\n' !in text by {
      assert forall i :: 0 <= i < |body| ==> text[i] == body[i];
      assert forall i :: |body| < i < |text| ==> text[i] == comment[i - |body| - 1];
    }
    LineTextOf(text);
    LineTextOf(body);
    CommentCut(body, comment);
  }

  /**
   * A '#' inside a quoted part is kept, and the first '#' after the closing
   * quote starts the comment.
   */
  lemma QuotedCommentIgnored(p: string, s: string, q: string, comment: string)
    requires QUOTE !in p && '#' !in p && QUOTE !in q && '#' !in q
    requires '\n' !in p && '\n' !in s && '\n' !in q && '\n' !in comment
    ensures StripComment(p + QuoteString(s) + q) == p + QuoteString(s) + q
    ensures StripComment(p + QuoteString(s) + q + "#" + comment) == p + QuoteString(s) + q
    ensures LexLine(p + QuoteString(s) + q + "#" + comment + "\n") == LexLine(p + QuoteString(s) + q + "\n")
  {
    var body := p + QuoteString(s) + q;
    var text := body + "#" + comment;
    QuotedHashFound(p, s, q, comment);
    QuotedNoHash(p, s, q);
    assert text[..|body|] == body;
    QuoteKeepsOut(s, '\n');
    assert '\n' !in body;
    assert '\n' !in text;
    LineTextOf(text);
    LineTextOf(body);
  }

  /** The search for '#' passes over the quoted part and stops at the '#' after it. */
  lemma QuotedHashFound(p: string, s: string, q: string, comment: string)
    requires QUOTE !in p && '#' !in p && QUOTE !in q && '#' !in q
    ensures FindUnquotedChar(p + QuoteString(s) + q + "#" + comment, '#') == Some(|p + QuoteString(s) + q|)
  {
    FindAfterPlain(q, '#', comment);
    FindSkipsQuoteString(s, q + ['#'] + comment, '#');
    HashAfterQuoted(p, QuoteString(s), q, comment, p + QuoteString(s) + q + "#" + comment);
  }

  /** The first '#' after a part the search passes over whole is found where it is. */
  lemma HashAfterQuoted(p: string, quoted: string, q: string, comment: string, whole: string)
    requires whole == p + quoted + q + "#" + comment
    requires QUOTE !in p && '#' !in p
    requires FindUnquotedFrom(quoted + (q + ['#'] + comment), '#', false) == Some(|quoted| + |q|)
    ensures FindUnquotedFrom(whole, '#', false) == Some(|p| + |quoted| + |q|)
  {
    Regroup(p, quoted, q, comment);
    HashPastPlain(p, quoted + (q + ['#'] + comment), whole, |quoted| + |q|);
  }

  /** A text without quotes or '#' in front moves the first '#' along by its length. */
  lemma HashPastPlain(p: string, rest: string, whole: string, k: nat)
    requires whole == p + rest && QUOTE !in p && '#' !in p
    requires FindUnquotedFrom(rest, '#', false) == Some(k)
    ensures FindUnquotedFrom(whole, '#', false) == Some(|p| + k)
  {
    FindPastPlain(p, '#', rest);
  }

  lemma Regroup(p: string, quoted: string, q: string, comment: string)
    ensures p + quoted + q + "#" + comment == p + (quoted + (q + ['#'] + comment))
  {
  }

  /** Without a '#' outside it, a quoted part hides every '#' from the search. */
  lemma QuotedNoHash(p: string, s: string, q: string)
    requires QUOTE !in p && '#' !in p && QUOTE !in q && '#' !in q
    ensures FindUnquotedChar(p + QuoteString(s) + q, '#') == None
  {
    var quoted := QuoteString(s);
    assert p + quoted + q == p + (quoted + q);
    FindPastPlain(p, '#', quoted + q);
    FindSkipsQuoteString(s, q, '#');
    FindAbsent(q, '#', false);
  }

  /** A value that opens a quote and never closes it is an error. */
  lemma UnterminatedQuoteRejected(keyword: string, v: string)
    requires keyword != [] && !IsSpace(keyword[0])
    requires QUOTE !in keyword && '=' !in keyword && '#' !in keyword && '\n' !in keyword
    requires QUOTE !in v && '#' !in v && '\n' !in v
    ensures LexLine(keyword + " = " + [QUOTE] + v + "\n") == Failure(UnterminatedQuote)
  {
    var text := keyword + " = " + [QUOTE] + v;
    assert keyword + " = " + [QUOTE] + v + "\n" == text + "\n";
    PlainLineText(text);
    var rest := OpenQuoteTrimmed(keyword, v);
    OpenQuoteSplit(keyword, rest);
  }

  /** A line with text but no '=' is invalid input. */
  lemma NoEqualsRejected(body: string)
    requires QUOTE !in body && '#' !in body && '=' !in body && '\n' !in body
    requires exists i :: 0 <= i < |body| && !IsSpace(body[i])
    ensures LexLine(body + "\n") == Failure(InvalidInput)
  {
    PlainLineText(body);
    TrimKeepsOut(body, '=');
    FindAbsent(TrimSpace(body), '=', false);
  }

  /** A line without '#' is lexed whole. */
  lemma PlainLineText(text: string)
    requires '#' !in text && '\n' !in text
    ensures LexLine(text + "\n") == LexContent(text)
  {
    LineTextOf(text);
    FindAbsent(text, '#', false);
  }

  /** Trimming an open-quoted directive only shortens the text after the quote. */
  lemma OpenQuoteTrimmed(keyword: string, v: string) returns (rest: string)
    requires keyword != [] && !IsSpace(keyword[0]) && QUOTE !in v
    ensures QUOTE !in rest && TrimSpace(keyword + " = " + [QUOTE] + v) == keyword + " = " + [QUOTE] + rest
  {
    var text := keyword + " = " + [QUOTE] + v;
    assert text[0] == keyword[0];
    assert TrimLeft(text) == text;
    rest := TrimRightOfQuote(keyword + " = ", v);
  }

  /** The split at the '=' leaves a value whose quote is never closed. */
  lemma OpenQuoteSplit(keyword: string, rest: string)
    requires QUOTE !in keyword && '=' !in keyword && QUOTE !in rest
    ensures LexDirective(keyword + " = " + [QUOTE] + rest) == Failure(UnterminatedQuote)
  {
    var front := keyword + " ";
    var content := keyword + " = " + [QUOTE] + rest;
    assert content == front + ['='] + ([' ', QUOTE] + rest);
    FindAfterPlain(front, '=', [' ', QUOTE] + rest);
    assert content[|front| + 1..] == [' '] + [QUOTE] + rest;
    TrimmedLoneQuote([' '], rest);
  }

  /** StripComment cuts a comment after text without quotes or '#', and leaves that text alone. */
  lemma CommentCut(body: string, comment: string)
    requires QUOTE !in body && '#' !in body
    ensures StripComment(body + "#" + comment) == body
    ensures StripComment(body) == body
  {
    var text := body + "#" + comment;
    FindAfterPlain(body, '#', comment);
    assert text == body + ['#'] + comment;
    assert text[..|body|] == body;
  }

  /** A line of white space only is blank and changes nothing. */
  lemma SpaceLineIsBlank(rd: Reader, line: nat, body: string, accepts: ParamOracle)
    requires '\n' !in body && forall i :: 0 <= i < |body| ==> IsSpace(body[i])
    ensures LexLine(body + "\n") == Success(Blank)
    ensures ParseControlFileLine(rd, line, body + "\n", accepts) == Success(rd)
  {
    SpaceOnlyPlain(body);
    PlainLineText(body);
    assert TrimSpace(body) == [];
  }

  lemma SpaceOnlyPlain(body: string)
    requires forall i :: 0 <= i < |body| ==> IsSpace(body[i])
    ensures '#' !in body
  {
    forall i | 0 <= i < |body| ensures body[i] != '#' {
      assert IsSpace(body[i]);
    }
  }

  // ---------------------------------------------------------------------
  // Cutting the input into buffers
  // ---------------------------------------------------------------------

  function Concat(bufs: seq<string>): string {
    if bufs == [] then [] else bufs[0] + Concat(bufs[1..])
  }

  /** fgets loses nothing: the buffers of a control file put together are its text. */
  lemma {:induction false} FileChunksConcat(text: string)
    ensures Concat(FileChunks(text)) == text
    decreases |text|
  {
    if text != [] {
      var n := ChunkLength(text);
      FileChunksConcat(text[n..]);
      assert text[..n] + text[n..] == text;
    }
  }

  /** Every buffer except the last one holds a whole line, or LINEBUF - 1 characters of one. */
  lemma {:induction false} FileChunkShape(text: string)
    ensures var bufs := FileChunks(text);
      forall i :: 0 <= i < |bufs| - 1 ==> Terminated(bufs[i]) || |bufs[i]| == LINEBUF - 1
    decreases |text|
  {
    if text != [] {
      var n := ChunkLength(text);
      FileChunkShape(text[n..]);
      var bufs := FileChunks(text);
      assert bufs == [text[..n]] + FileChunks(text[n..]);
      forall i | 0 <= i < |bufs| - 1 ensures Terminated(bufs[i]) || |bufs[i]| == LINEBUF - 1 {
        if i > 0 {
          assert bufs[i] == FileChunks(text[n..])[i - 1];
        } else {
          assert n < |text|;
        }
      }
    }
  }

  /** A control-file line of LINEBUF - 1 characters or more before its '\n' is rejected as too long. */
  lemma LongLineRejected(rd: Reader, line: nat, text: string, accepts: ParamOracle)
    requires |text| >= LINEBUF - 1 && '\n' !in text[..LINEBUF - 1]
    ensures ParseControlFileLine(rd, line, FileChunks(text)[0], accepts) == Failure(ConfigError(line, TooLongLine))
  {
    var n := ChunkLength(text);
    assert FileChunks(text)[0] == text[..n];
    assert text[n - 1] == text[..LINEBUF - 1][n - 1];
  }

  /** Text after the last '\n' of the options is never applied. */
  lemma {:induction false} OptionTailIgnored(options: string, tail: string)
    requires options == [] || options[|options| - 1] == '\n'
    requires '\n' !in tail
    ensures OptionBuffers(options + tail) == OptionBuffers(options)
    decreases |options|
  {
    if options == [] {
      assert options + tail == tail;
    } else {
      assert options[|options| - 1] in options;
      var k := IndexOf(options, '\n').value;
      var s := options + tail;
      assert s[k] == '\n' && s[..k] == options[..k];
      assert IndexOf(s, '\n') == Some(k) by {
        assert s[..k + 1][k] == '\n';
        assert forall i :: 0 <= i < k ==> s[i] == options[..k][i];
      }
      assert s[k + 1..] == options[k + 1..] + tail;
      assert s[..OptionCopyLength(k + 1)] == options[..OptionCopyLength(k + 1)];
      OptionTailIgnored(options[k + 1..], tail);
    }
  }

  /**
   * With the corrected copy length, an option line gets the buffer fgets
   * would give the same text in a control file.
   */
  lemma OptionBufferLikeFgets(options: string, k: nat)
    requires IndexOf(options, '\n') == Some(k)
    ensures options[..OptionCopyLength(k + 1)] == options[..ChunkLength(options)]
    ensures OptionBuffers(options)[0] == FileChunks(options)[0]
  {
  }

  // ---------------------------------------------------------------------
  // The options copy as written
  // ---------------------------------------------------------------------

  /** The number of characters the options loop copies, as written: Min(segment, LINEBUF). */
  function OptionCopyLengthAsWritten(segment: nat): (n: nat)
    ensures n <= LINEBUF
  {
    Min(segment, LINEBUF)
  }

  /**
   * As written, an option line of LINEBUF - 1 characters and its '\n' is
   * copied whole, so the terminating '\0' goes to buf[LINEBUF], one past the
   * end of the buffer; and that buffer ends in '\n', so the line is
   * accepted, where the same line in a control file is rejected as too long.
   */
  lemma OptionCopyAsWrittenOverflows()
    ensures var options := seq(LINEBUF - 1, _ => 'a') + "\n";
      && OptionCopyLengthAsWritten(|options|) == LINEBUF
      && Terminated(options[..OptionCopyLengthAsWritten(|options|)])
      && !Terminated(FileChunks(options)[0])
  {
    var options := seq(LINEBUF - 1, _ => 'a') + "\n";
    assert options[..LINEBUF - 1] == seq(LINEBUF - 1, _ => 'a');
    var n := ChunkLength(options);
    assert FileChunks(options)[0] == options[..n];
    assert options[n - 1] == 'a' by {
      assert n - 1 < LINEBUF - 1;
    }
  }

  /** Corrected, the '\0' always lands inside the buffer, and a too long option line is rejected as in a file. */
  lemma OptionCopyFits(rd: Reader, line: nat, options: string, k: nat, accepts: ParamOracle)
    requires IndexOf(options, '\n') == Some(k)
    ensures OptionCopyLength(k + 1) < LINEBUF
    ensures k >= LINEBUF - 1 ==>
      ParseControlFileLine(rd, line, OptionBuffers(options)[0], accepts) == Failure(ConfigError(line, TooLongLine))
  {
    if k >= LINEBUF - 1 {
      assert options[..k][LINEBUF - 2] == options[LINEBUF - 2];
      assert options[LINEBUF - 2] != '\n';
    }
  }

  // ---------------------------------------------------------------------
  // Default file names
  // ---------------------------------------------------------------------

  /** The extension of `d/b.x`, when `x` has no '.' and `b.x` is the last component, is `x`. */
  lemma ExtensionOfLastComponent(d: string, b: string, x: string)
    requires '/' !in b && '/' !in x && '.' !in x
    ensures Extension(d + "/" + b + "." + x) == x
  {
    var s := d + "/" + b + "." + x;
    assert s[|d|] == '/' && s[|d| + 1..] == b + "." + x;
    LastAt(s, '/', |d|);
    assert s[|d| + 1 + |b|] == '.' && s[|d| + |b| + 2..] == x;
    LastAt(s, '.', |d| + 1 + |b|);
  }

  /** A last component without '.' has no extension, even under a directory whose name has one. */
  lemma NoDotNoExtension(d: string, b: string)
    requires '/' !in b && '.' !in b
    ensures Extension(d + "/" + b) == []
  {
    var s := d + "/" + b;
    assert s[|d|] == '/' && s[|d| + 1..] == b;
    LastAt(s, '/', |d|);
  }

  /**
   * With TYPE, TABLE and INFILE given and no output name, resolution
   * succeeds when the derived names fit and the input file is none of them.
   */
  lemma FinishWithDefaults(rd: Reader, prefix: string)
    requires InRange(rd) && rd.parser.Some? && rd.table.Some? && rd.infile.Some?
    requires rd.logfile.None? && rd.parseBadfile.None? && rd.dupBadfile.None?
    requires |prefix| + |ParseBadSuffix(rd.infile.value)| < MAXPGPATH && |prefix| + |DupSuffix| < MAXPGPATH
    requires rd.infile.value != prefix + LogSuffix
    requires rd.infile.value != prefix + ParseBadSuffix(rd.infile.value)
    requires rd.infile.value != prefix + DupSuffix
    ensures Finish(rd, prefix).Success?
    ensures Finish(rd, prefix).value.logfile == Some(prefix + LogSuffix)
    ensures Finish(rd, prefix).value.parseBadfile == Some(prefix + ParseBadSuffix(rd.infile.value))
    ensures Finish(rd, prefix).value.dupBadfile == Some(prefix + DupSuffix)
  {
    DefaultNamesDistinct(prefix, rd.infile.value);
  }

  /** The three default names differ from each other, whatever the prefix and the extension. */
  lemma DefaultNamesDistinct(prefix: string, infile: string)
    ensures prefix + LogSuffix != prefix + ParseBadSuffix(infile)
    ensures prefix + LogSuffix != prefix + DupSuffix
    ensures prefix + ParseBadSuffix(infile) != prefix + DupSuffix
  {
    assert (prefix + LogSuffix)[|prefix|] == 'l';
    assert (prefix + ParseBadSuffix(infile))[|prefix|] == 'p';
    assert (prefix + DupSuffix)[|prefix|] == 'd';
  }
}
