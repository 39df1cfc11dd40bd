/**
 * ReaderNext: reading the next tuple from the parser while absorbing parse
 * errors up to the PARSE_ERRORS quota. The parser is a script of the
 * outcomes its successive ParserRead calls have; the parse bad file is the
 * sequence of records dumped into it.
 */
module ReaderLoop {
  import opened Errors
  import opened TupleDesc

  /**
   * One ParserRead call: a tuple, the end of the input (NULL), or an error
   * raised while the parser's parsing_field was `parsingField`, with the
   * record ParserDumpRecord would write for it.
   */
  datatype ReadOutcome =
    | Read(tuple: Row)
    | EndOfInput
    | Raise(code: ErrCode, parsingField: int, record: string)

  /** An error ReaderNext counts as a parse error instead of re-raising it. */
  predicate Absorbed(o: ReadOutcome) {
    o.Raise? && o.parsingField >= 0 && !IsQueryAbort(o.code)
  }

  /** What ReaderNext gives its caller: a tuple, NULL, or the error it re-raised. */
  datatype NextResult = Tuple(row: Row) | NoTuple | Rethrown(code: ErrCode)

  /** The result of ReaderNext with the parser position, the error count and the bad records after it. */
  datatype Step = Step(result: NextResult, pos: nat, parseErrors: int, bad: seq<string>)

  /**
   * ReaderNext from parser position `pos`: reads until a tuple, the end of
   * the input, an error it re-raises, or an absorbed error that takes the
   * count past `maxErrors`. A parser past the end of its script reads NULL.
   */
  function NextFrom(script: seq<ReadOutcome>, pos: nat, errors: int, maxErrors: int, bad: seq<string>): (s: Step)
    requires pos <= |script|
    ensures pos <= s.pos <= |script|
    ensures |bad| <= |s.bad| && s.bad[..|bad|] == bad
    ensures s.parseErrors - errors == |s.bad| - |bad|
    decreases |script| - pos
  {
    if pos == |script| then Step(NoTuple, pos, errors, bad)
    else
      match script[pos]
      case Read(t) => Step(Tuple(t), pos + 1, errors, bad)
      case EndOfInput => Step(NoTuple, pos + 1, errors, bad)
      case Raise(code, field, record) =>
        if field < 0 || IsQueryAbort(code) then Step(Rethrown(code), pos + 1, errors, bad)
        else if errors + 1 > maxErrors then Step(NoTuple, pos + 1, errors + 1, bad + [record])
        else
          var s := NextFrom(script, pos + 1, errors + 1, maxErrors, bad + [record]);
          assert s.bad[..|bad|] == s.bad[..|bad| + 1][..|bad|];
          s
  }

  /** The `j` reads from position `pos` on are all absorbed errors. */
  predicate AbsorbedRun(script: seq<ReadOutcome>, pos: nat, j: nat) {
    pos + j <= |script| && forall i :: pos <= i < pos + j ==> Absorbed(script[i])
  }

  /** The records of such a run, in order. */
  function RunRecords(script: seq<ReadOutcome>, pos: nat, j: nat): (r: seq<string>)
    requires AbsorbedRun(script, pos, j)
    ensures |r| == j && forall i :: 0 <= i < j ==> r[i] == script[pos + i].record
  {
    seq(j, i requires 0 <= i < j => script[pos + i].record)
  }

  /** One absorbed error within the quota: counted, recorded, and reading goes on. */
  lemma AbsorbOne(script: seq<ReadOutcome>, pos: nat, errors: int, maxErrors: int, bad: seq<string>)
    requires pos < |script| && Absorbed(script[pos]) && errors + 1 <= maxErrors
    ensures NextFrom(script, pos, errors, maxErrors, bad)
         == NextFrom(script, pos + 1, errors + 1, maxErrors, bad + [script[pos].record])
  {
  }

  lemma RunRecordsFirst(script: seq<ReadOutcome>, pos: nat, j: nat)
    requires AbsorbedRun(script, pos, j) && j > 0
    ensures AbsorbedRun(script, pos + 1, j - 1)
    ensures RunRecords(script, pos, j) == [script[pos].record] + RunRecords(script, pos + 1, j - 1)
  {
    assert AbsorbedRun(script, pos + 1, j - 1);
  }

  /**
   * Errors within the quota are absorbed one by one: each adds 1 to the count
   * and its record to the bad file, and reading goes on after them.
   */
  lemma {:induction false} SkipAbsorbed(script: seq<ReadOutcome>, pos: nat, j: nat, errors: int, maxErrors: int, bad: seq<string>)
    requires AbsorbedRun(script, pos, j) && errors + j <= maxErrors
    ensures NextFrom(script, pos, errors, maxErrors, bad)
         == NextFrom(script, pos + j, errors + j, maxErrors, bad + RunRecords(script, pos, j))
    decreases j
  {
    if j == 0 {
      assert bad + RunRecords(script, pos, j) == bad;
    } else {
      var record := script[pos].record;
      AbsorbOne(script, pos, errors, maxErrors, bad);
      RunRecordsFirst(script, pos, j);
      SkipAbsorbed(script, pos + 1, j - 1, errors + 1, maxErrors, bad + [record]);
      assert bad + [record] + RunRecords(script, pos + 1, j - 1) == bad + RunRecords(script, pos, j);
    }
  }

  /**
   * The quota boundary: with quota `maxErrors` and count `errors`, the first
   * maxErrors - errors absorbed errors let reading go on, and the next one
   * stops it with no tuple, the count one past the quota and every record
   * written, the last one included.
   */
  lemma QuotaExceeded(script: seq<ReadOutcome>, pos: nat, errors: int, maxErrors: int, bad: seq<string>)
    requires errors <= maxErrors
    requires AbsorbedRun(script, pos, maxErrors - errors + 1)
    ensures var s := NextFrom(script, pos, errors, maxErrors, bad);
      && s.result == NoTuple
      && s.parseErrors == maxErrors + 1
      && s.pos == pos + (maxErrors - errors) + 1
      && s.bad == bad + RunRecords(script, pos, maxErrors - errors + 1)
  {
    var j := maxErrors - errors;
    SkipAbsorbed(script, pos, j, errors, maxErrors, bad);
    assert Absorbed(script[pos + j]);
    assert RunRecords(script, pos, j + 1) == RunRecords(script, pos, j) + [script[pos + j].record];
  }

  /**
   * ReaderNext returns the first tuple after a run of absorbed errors; every
   * outcome it skipped was an absorbed error.
   */
  lemma {:induction false} TupleIsFirstRead(script: seq<ReadOutcome>, pos: nat, errors: int, maxErrors: int, bad: seq<string>)
    requires pos <= |script|
    ensures var s := NextFrom(script, pos, errors, maxErrors, bad);
      s.result.Tuple? ==>
        && pos < s.pos && script[s.pos - 1] == Read(s.result.row)
        && AbsorbedRun(script, pos, s.pos - 1 - pos)
        && s.parseErrors == errors + (s.pos - 1 - pos)
        && (pos < s.pos - 1 ==> s.parseErrors <= maxErrors)
    decreases |script| - pos
  {
    if pos < |script| && Absorbed(script[pos]) && errors + 1 <= maxErrors {
      TupleIsFirstRead(script, pos + 1, errors + 1, maxErrors, bad + [script[pos].record]);
    }
  }

  /**
   * ReaderNext returns NULL only at the end of the input or when an error
   * took the count past the quota.
   */
  lemma {:induction false} NoTupleMeansEndOrQuota(script: seq<ReadOutcome>, pos: nat, errors: int, maxErrors: int, bad: seq<string>)
    requires pos <= |script|
    ensures var s := NextFrom(script, pos, errors, maxErrors, bad);
      s.result.NoTuple? ==>
        || s.pos == |script|
        || script[s.pos - 1].EndOfInput?
        || (Absorbed(script[s.pos - 1]) && s.parseErrors > maxErrors)
    decreases |script| - pos
  {
    if pos < |script| && Absorbed(script[pos]) && errors + 1 <= maxErrors {
      NoTupleMeansEndOrQuota(script, pos + 1, errors + 1, maxErrors, bad + [script[pos].record]);
    }
  }

  /** Within the quota, no call of ReaderNext takes the count more than one past it. */
  lemma {:induction false} CountBound(script: seq<ReadOutcome>, pos: nat, errors: int, maxErrors: int, bad: seq<string>)
    requires pos <= |script| && errors <= maxErrors
    ensures NextFrom(script, pos, errors, maxErrors, bad).parseErrors <= maxErrors + 1
    decreases |script| - pos
  {
    if pos < |script| && Absorbed(script[pos]) && errors + 1 <= maxErrors {
      CountBound(script, pos + 1, errors + 1, maxErrors, bad + [script[pos].record]);
    }
  }

  /** An error re-raised leaves the count and the bad file as they were after the last absorbed error. */
  lemma RethrowKeepsCount(script: seq<ReadOutcome>, pos: nat, errors: int, maxErrors: int, bad: seq<string>)
    requires pos < |script| && script[pos].Raise? && !Absorbed(script[pos])
    ensures NextFrom(script, pos, errors, maxErrors, bad) == Step(Rethrown(script[pos].code), pos + 1, errors, bad)
  {
  }

  /** The loader's reader as far as ReaderNext is concerned. */
  class Reader {
    /** The outcomes of the parser's successive reads. */
    const script: seq<ReadOutcome>
    const maxParseErrors: int
    /** How many reads the parser has done. */
    var pos: nat
    var parseErrors: int
    /** The records written to the parse bad file. */
    var badRecords: seq<string>
    /** Whether the parse bad file has been opened (parse_fp != NULL). */
    var badFileOpen: bool

    /** Every absorbed error is counted once and has its record in the bad file, which is open once it has one. */
    ghost predicate Valid()
      reads this
    {
      && pos <= |script|
      && parseErrors == |badRecords|
      && (badFileOpen <==> badRecords != [])
    }

    /** The reader as ReaderCreate leaves it: no error counted yet, no bad file. */
    constructor(script: seq<ReadOutcome>, maxParseErrors: int)
      ensures Valid()
      ensures this.script == script && this.maxParseErrors == maxParseErrors
      ensures pos == 0 && parseErrors == 0 && badRecords == [] && !badFileOpen
    {
      this.script := script;
      this.maxParseErrors := maxParseErrors;
      pos := 0;
      parseErrors := 0;
      badRecords := [];
      badFileOpen := false;
    }

    /** ReaderNext. */
    method Next() returns (r: NextResult)
      requires Valid()
      modifies this
      ensures Valid()
      ensures var s := NextFrom(script, old(pos), old(parseErrors), maxParseErrors, old(badRecords));
        r == s.result && pos == s.pos && parseErrors == s.parseErrors && badRecords == s.bad
    {
      ghost var spec := NextFrom(script, pos, parseErrors, maxParseErrors, badRecords);
      while true
        invariant Valid()
        invariant NextFrom(script, pos, parseErrors, maxParseErrors, badRecords) == spec
        decreases |script| - pos
      {
        if pos == |script| {
          return NoTuple;
        }
        var outcome := script[pos];
        pos := pos + 1;
        match outcome
        case Read(t) =>
          return Tuple(t);
        case EndOfInput =>
          return NoTuple;
        case Raise(code, field, record) =>
          if field < 0 || IsQueryAbort(code) {
            return Rethrown(code);
          }
          parseErrors := parseErrors + 1;
          var eof := parseErrors > maxParseErrors;
          if !badFileOpen {
            badFileOpen := true;
          }
          badRecords := badRecords + [record];
          if eof {
            return NoTuple;
          }
      }
    }
  }
}
