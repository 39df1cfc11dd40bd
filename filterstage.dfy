/**
 * The tuple former and the filter function: TupleFormerInit lays out the
 * argument buffers and the column mapping, TupleFormerNullTuple resets them
 * to an all-null row, FilterInit checks the filter function against the
 * target table, and FilterTuple calls it on one input row.
 */
module FilterStage {
  import opened Wrappers
  import opened Errors
  import opened TupleDesc

  /** pg_type OIDs the filter checks for. */
  const RECORDOID: int := 2249
  const INTERNALOID: int := 2281

  function Max(a: int, b: int): int {
    if a < b then b else a
  }

  // ---------------------------------------------------------------------
  // FilterInit
  // ---------------------------------------------------------------------

  /** A declared argument type of the filter function. */
  datatype ArgType = ArgType(oid: int, polymorphic: bool)

  /**
   * What the catalog says about the filter function: its argument types,
   * whether it returns a set, its result type, the row its OUT parameters
   * define (when the result is RECORD), whether the result type is
   * composite, its number of defaulted arguments, whether it is variadic and
   * whether it is strict.
   */
  datatype FunctionInfo = FunctionInfo(
    args: seq<ArgType>,
    retset: bool,
    rettype: int,
    outDesc: Option<Desc>,
    composite: bool,
    ndargs: nat,
    variadic: bool,
    strict: bool)

  /** The filter settings FilterInit computes. */
  datatype FilterSettings = FilterSettings(nargs: nat, argtypes: seq<int>, matched: bool, ndargs: nat, strict: bool)

  predicate Unsupported(a: ArgType) {
    a.polymorphic || a.oid == INTERNALOID
  }

  /** The result check of FilterInit: whether the function's result row is already known to fit. */
  function ResultMatched(info: FunctionInfo, desc: Desc, descTypeId: int): (r: Result<bool, ErrCode>)
    ensures r.Success? && r.value ==> info.rettype == descTypeId || (info.rettype == RECORDOID && info.outDesc.Some? && Matches(desc, info.outDesc.value))
    ensures r.Failure? ==> r.error == DatatypeMismatch
    ensures info.rettype == descTypeId ==> r == Success(true)
    ensures r.Failure? <==>
      && info.rettype != descTypeId
      && (if info.rettype == RECORDOID then info.outDesc.Some? && !Matches(desc, info.outDesc.value) else !info.composite)
    ensures r == Success(false) <==>
      && info.rettype != descTypeId
      && (if info.rettype == RECORDOID then info.outDesc.None? else info.composite)
  {
    if info.rettype == descTypeId then Success(true)
    else if info.rettype == RECORDOID then
      match info.outDesc
      case None => Success(false)
      case Some(out) => if TupleDescMatch(desc, out).Some? then Failure(DatatypeMismatch) else Success(true)
    else if !info.composite then Failure(DatatypeMismatch)
    else Success(false)
  }

  /**
   * FilterInit for a filter that names a function: polymorphic and internal
   * arguments, set-returning and variadic functions are not supported, and
   * the result type must be the table's row type, a RECORD or a composite.
   */
  function FilterInitSpec(info: FunctionInfo, desc: Desc, descTypeId: int): (r: Result<FilterSettings, ErrCode>)
    ensures r.Success? ==>
      && r.value.nargs == |info.args| && |r.value.argtypes| == |info.args|
      && (forall i :: 0 <= i < |info.args| ==> r.value.argtypes[i] == info.args[i].oid && !Unsupported(info.args[i]))
      && !info.retset && !info.variadic
      && r.value.ndargs == info.ndargs && r.value.strict == info.strict
    ensures (exists i :: 0 <= i < |info.args| && Unsupported(info.args[i])) ==> r == Failure(FeatureNotSupported)
    ensures info.retset ==> r == Failure(FeatureNotSupported)
    ensures r.Success? <==>
      && (forall i :: 0 <= i < |info.args| ==> !Unsupported(info.args[i]))
      && !info.retset && ResultMatched(info, desc, descTypeId).Success? && !info.variadic
    ensures r.Success? ==> r.value.matched == ResultMatched(info, desc, descTypeId).value
    ensures r.Failure? ==> r.error == FeatureNotSupported || r.error == DatatypeMismatch
    ensures r.Failure? && r.error == DatatypeMismatch ==> ResultMatched(info, desc, descTypeId).Failure?
  {
    if exists i :: 0 <= i < |info.args| && Unsupported(info.args[i]) then Failure(FeatureNotSupported)
    else if info.retset then Failure(FeatureNotSupported)
    else
      match ResultMatched(info, desc, descTypeId)
      case Failure(e) => Failure(e)
      case Success(matched) =>
        if info.variadic then Failure(FeatureNotSupported)
        else Success(FilterSettings(|info.args|, seq(|info.args|, i requires 0 <= i < |info.args| => info.args[i].oid), matched, info.ndargs, info.strict))
  }

  // ---------------------------------------------------------------------
  // FilterTuple
  // ---------------------------------------------------------------------

  /** What calling the filter function gives: a row with its type and descriptor, NULL, or an error. */
  datatype CallResult =
    | Returned(typeId: int, resultDesc: Desc, row: Row)
    | ReturnedNull
    | CallRaised(code: ErrCode)

  type Function = Row -> CallResult

  datatype FilterOutcome = Produced(row: Row) | Raised(code: ErrCode)

  /**
   * FilterTuple's effect: its outcome, the parsing field it leaves, whether
   * the result shape is known to match afterwards, and whether it reset the
   * former to an all-null row.
   */
  datatype FilterStep = FilterStep(outcome: FilterOutcome, parsingField: int, matched: bool, nulled: bool)

  predicate AnyNull(isnull: seq<bool>, nargs: nat)
    requires nargs <= |isnull|
  {
    exists i :: 0 <= i < nargs && isnull[i]
  }

  /**
   * FilterTuple on the former's buffers `values` and `isnull` for a target
   * row of `natts` columns described by `desc`.
   */
  function FilterSpec(strict: bool, nargs: nat, matched: bool, desc: Desc, values: seq<int>, isnull: seq<bool>,
                      invoke: Function, parsingField: int): (s: FilterStep)
    requires nargs <= |values| == |isnull| && |desc| <= |values|
    ensures s.nulled ==> s.outcome == Produced(NullRow(|desc|))
    ensures s.nulled <==> (strict && AnyNull(isnull, nargs)) || invoke(FormRow(values[..nargs], isnull[..nargs])).ReturnedNull?
    ensures matched ==> s.matched
  {
    if strict && AnyNull(isnull, nargs) then
      FilterStep(Produced(NullRow(|desc|)), parsingField, matched, true)
    else
      match invoke(FormRow(values[..nargs], isnull[..nargs]))
      case CallRaised(code) => FilterStep(Raised(code), 0, matched, false)
      case ReturnedNull => FilterStep(Produced(NullRow(|desc|)), -1, matched, true)
      case Returned(typeId, resultDesc, row) =>
        if !matched && TupleDescMatch(desc, resultDesc).Some? then FilterStep(Raised(DatatypeMismatch), -1, matched, false)
        else FilterStep(Produced(row), -1, matched || typeId != RECORDOID, false)
  }

  /** The strict short cut: an all-null row without calling the function, whatever it would do. */
  lemma StrictShortCut(nargs: nat, matched: bool, desc: Desc, values: seq<int>, isnull: seq<bool>,
                       f: Function, g: Function, parsingField: int)
    requires nargs <= |values| == |isnull| && |desc| <= |values|
    requires AnyNull(isnull, nargs)
    ensures FilterSpec(true, nargs, matched, desc, values, isnull, f, parsingField)
         == FilterSpec(true, nargs, matched, desc, values, isnull, g, parsingField)
         == FilterStep(Produced(NullRow(|desc|)), parsingField, matched, true)
  {
  }

  /** Without nulls among its arguments, or when not strict, the function is called on exactly the argument buffers. */
  lemma CallsWithArguments(strict: bool, nargs: nat, matched: bool, desc: Desc, values: seq<int>, isnull: seq<bool>,
                           f: Function, g: Function, parsingField: int)
    requires nargs <= |values| == |isnull| && |desc| <= |values|
    requires !(strict && AnyNull(isnull, nargs))
    requires f(FormRow(values[..nargs], isnull[..nargs])) == g(FormRow(values[..nargs], isnull[..nargs]))
    ensures FilterSpec(strict, nargs, matched, desc, values, isnull, f, parsingField)
         == FilterSpec(strict, nargs, matched, desc, values, isnull, g, parsingField)
  {
  }

  /**
   * The match cache: once set it stays set; it becomes set only after a
   * result of a type other than RECORD whose descriptor matched.
   */
  lemma MatchedCache(strict: bool, nargs: nat, matched: bool, desc: Desc, values: seq<int>, isnull: seq<bool>,
                     invoke: Function, parsingField: int)
    requires nargs <= |values| == |isnull| && |desc| <= |values|
    ensures var s := FilterSpec(strict, nargs, matched, desc, values, isnull, invoke, parsingField);
      && (matched ==> s.matched)
      && (!matched && s.matched ==>
            var c := invoke(FormRow(values[..nargs], isnull[..nargs]));
            c.Returned? && c.typeId != RECORDOID && Matches(desc, c.resultDesc) && s.outcome == Produced(c.row))
  {
  }

  /**
   * Errors: an error of the function is raised with parsing field 0, so
   * ReaderNext counts it as a parse error; a result row that does not fit is
   * raised with parsing field -1, so ReaderNext re-raises it.
   */
  lemma FilterErrors(strict: bool, nargs: nat, matched: bool, desc: Desc, values: seq<int>, isnull: seq<bool>,
                     invoke: Function, parsingField: int)
    requires nargs <= |values| == |isnull| && |desc| <= |values|
    ensures var s := FilterSpec(strict, nargs, matched, desc, values, isnull, invoke, parsingField);
      var c := invoke(FormRow(values[..nargs], isnull[..nargs]));
      && (s.outcome.Raised? ==> !(strict && AnyNull(isnull, nargs)))
      && (s.outcome.Raised? && c.CallRaised? ==> s.parsingField == 0 && s.outcome.code == c.code)
      && (s.outcome.Raised? && !c.CallRaised? ==>
            s.parsingField == -1 && s.outcome.code == DatatypeMismatch && c.Returned? && !matched && !Matches(desc, c.resultDesc))
  {
  }

  // ---------------------------------------------------------------------
  // The filter and the tuple former
  // ---------------------------------------------------------------------

  class Filter {
    /** Whether a FILTER function is named (funcstr != NULL). */
    const hasFunction: bool
    var nargs: nat
    var argtypes: seq<int>
    var ndargs: nat
    var strict: bool
    /** tupledesc_matched: the function's result row is known to fit the table. */
    var matched: bool

    /** The filter as the control file leaves it, before FilterInit. */
    constructor(hasFunction: bool)
      ensures this.hasFunction == hasFunction
      ensures nargs == 0 && argtypes == [] && ndargs == 0 && !strict && !matched
    {
      this.hasFunction := hasFunction;
      nargs := 0;
      argtypes := [];
      ndargs := 0;
      strict := false;
      matched := false;
    }

    /**
     * FilterInit, on a filter whose match flag is still clear as the
     * zero-filled allocation leaves it: nothing to do without a function;
     * otherwise the catalog checks of FilterInitSpec.
     */
    method Init(info: FunctionInfo, desc: Desc, descTypeId: int) returns (err: Option<ErrCode>)
      requires !matched
      modifies this
      ensures !hasFunction ==> err.None? && unchanged(this)
      ensures hasFunction ==> var spec := FilterInitSpec(info, desc, descTypeId);
        && (err.None? <==> spec.Success?)
        && (err.Some? ==> err == Some(spec.error))
        && (spec.Success? ==> FilterSettings(nargs, argtypes, matched, ndargs, strict) == spec.value)
    {
      if !hasFunction {
        return None;
      }
      nargs := |info.args|;
      argtypes := [];
      var i := 0;
      while i < nargs
        invariant 0 <= i <= nargs == |info.args| && !matched
        invariant |argtypes| == i && forall j :: 0 <= j < i ==> argtypes[j] == info.args[j].oid && !Unsupported(info.args[j])
      {
        if Unsupported(info.args[i]) {
          return Some(FeatureNotSupported);
        }
        argtypes := argtypes + [info.args[i].oid];
        i := i + 1;
      }
      if info.retset {
        return Some(FeatureNotSupported);
      }
      if info.rettype == descTypeId {
        matched := true;
      } else if info.rettype == RECORDOID {
        if info.outDesc.Some? {
          if TupleDescMatch(desc, info.outDesc.value).Some? {
            return Some(DatatypeMismatch);
          }
          matched := true;
        }
      } else if !info.composite {
        return Some(DatatypeMismatch);
      }
      ndargs := info.ndargs;
      if info.variadic {
        return Some(FeatureNotSupported);
      }
      strict := info.strict;
      assert argtypes == seq(|info.args|, i requires 0 <= i < |info.args| => info.args[i].oid);
      return None;
    }

    /**
     * FilterTuple: calls the function on the former's first `nargs`
     * buffers, or gives an all-null row without calling it.
     */
    method FilterTuple(former: TupleFormer, invoke: Function, parsingField: int) returns (r: FilterOutcome, pf: int)
      requires former.Valid() && nargs <= former.values.Length
      modifies this, former.values, former.isnull
      ensures var s := FilterSpec(old(strict), old(nargs), old(matched), former.desc, old(former.values[..]), old(former.isnull[..]), invoke, parsingField);
        && r == s.outcome && pf == s.parsingField && matched == s.matched
        && (s.nulled ==> former.NullState(old(former.values[..]), old(former.isnull[..])))
        && (!s.nulled ==> former.values[..] == old(former.values[..]) && former.isnull[..] == old(former.isnull[..]))
      ensures nargs == old(nargs) && strict == old(strict) && argtypes == old(argtypes) && ndargs == old(ndargs)
      ensures former.Valid()
    {
      pf := parsingField;
      if strict {
        var i := 0;
        while i < nargs
          invariant 0 <= i <= nargs
          invariant forall j :: 0 <= j < i ==> !former.isnull[j]
        {
          if former.isnull[i] {
            var row := former.NullTuple();
            return Produced(row), pf;
          }
          i := i + 1;
        }
      }
      var args := FormRow(former.values[..nargs], former.isnull[..nargs]);
      pf := 0;
      var result := invoke(args);
      if result.CallRaised? {
        return Raised(result.code), pf;
      }
      pf := -1;
      if result.ReturnedNull? {
        var row := former.NullTuple();
        return Produced(row), pf;
      }
      if !matched {
        if TupleDescMatch(former.desc, result.resultDesc).Some? {
          return Raised(DatatypeMismatch), pf;
        }
        if result.typeId != RECORDOID {
          matched := true;
        }
      }
      return Produced(result.row), pf;
    }
  }

  class TupleFormer {
    /** The target table's row. */
    const desc: Desc
    /** The argument buffers: Datums and null flags, Max(nargs, natts) of each. */
    const values: array<int>
    const isnull: array<bool>
    /** The type modifier each input field is read with. */
    const typMod: array<int>
    /** For each input field, the argument or column it fills. */
    const attnum: array<int>
    const maxfields: int
    const minfields: int

    ghost predicate Valid()
      reads this
    {
      && values.Length == isnull.Length && |desc| <= values.Length
      && typMod.Length == attnum.Length && 0 <= maxfields <= attnum.Length
    }

    /** The buffers after TupleFormerNullTuple on buffers that held `oldValues` and `oldIsnull`. */
    ghost predicate NullState(oldValues: seq<int>, oldIsnull: seq<bool>)
      reads this, values, isnull
      requires Valid()
    {
      && |oldValues| == values.Length && |oldIsnull| == isnull.Length
      && (forall i :: 0 <= i < |desc| ==> values[i] == 0 && isnull[i])
      && (forall i :: |desc| <= i < values.Length ==> values[i] == oldValues[i] && isnull[i] == oldIsnull[i])
    }

    /**
     * TupleFormerInit. With a filter function, the input fields are its
     * arguments; without one, they are the table's live columns in order.
     */
    constructor(filter: Filter, desc: Desc)
      ensures Valid() && fresh(values) && fresh(isnull) && fresh(typMod) && fresh(attnum)
      ensures this.desc == desc
      ensures forall i :: 0 <= i < isnull.Length ==> isnull[i]
      ensures filter.hasFunction ==>
        && values.Length == Max(filter.nargs, |desc|)
        && maxfields == filter.nargs && minfields == filter.nargs - filter.ndargs
        && attnum[..] == seq(filter.nargs, i => i) && typMod[..] == seq(filter.nargs, _ => -1)
      ensures !filter.hasFunction ==>
        && values.Length == |desc| && attnum.Length == |desc|
        && maxfields == minfields == |LiveColumns(desc)|
        && attnum[..maxfields] == LiveColumns(desc)
        && forall c :: 0 <= c < |desc| && !desc[c].isdropped ==> typMod[c] == desc[c].typmod
    {
      var natts, maxatts;
      if filter.hasFunction {
        natts := filter.nargs;
        maxatts := Max(natts, |desc|);
      } else {
        natts := |desc|;
        maxatts := |desc|;
      }
      var vs := new int[maxatts];
      var ns := new bool[maxatts](_ => true);
      var mods, nums;
      if filter.hasFunction {
        mods, nums := ArgumentMapping(natts);
        maxfields := natts;
        minfields := natts - filter.ndargs;
      } else {
        var m;
        mods, nums, m := ColumnMapping(desc);
        maxfields := m;
        minfields := m;
      }
      this.desc := desc;
      values := vs;
      isnull := ns;
      typMod := mods;
      attnum := nums;
    }

    /** TupleFormerNullTuple: the first natts buffers reset to null, and the all-null row formed from them. */
    method NullTuple() returns (row: Row)
      requires Valid()
      modifies values, isnull
      ensures NullState(old(values[..]), old(isnull[..]))
      ensures row == NullRow(|desc|)
    {
      for i := 0 to |desc|
        invariant forall j :: 0 <= j < i ==> values[j] == 0 && isnull[j]
        invariant forall j :: i <= j < values.Length ==> values[j] == old(values[j]) && isnull[j] == old(isnull[j])
      {
        values[i] := 0;
        isnull[i] := true;
      }
      row := FormRow(values[..|desc|], isnull[..|desc|]);
    }
  }

  /** The filter case of TupleFormerInit: field i is argument i, read with no type modifier. */
  method ArgumentMapping(nargs: nat) returns (typMod: array<int>, attnum: array<int>)
    ensures fresh(typMod) && fresh(attnum)
    ensures typMod[..] == seq(nargs, _ => -1) && attnum[..] == seq(nargs, i => i)
  {
    typMod := new int[nargs];
    attnum := new int[nargs];
    for i := 0 to nargs
      invariant forall j :: 0 <= j < i ==> attnum[j] == j && typMod[j] == -1
    {
      typMod[i] := -1;
      attnum[i] := i;
    }
  }

  /**
   * The no-filter case of TupleFormerInit: the fields are the live columns
   * in order, each read with its column's type modifier.
   */
  method ColumnMapping(desc: Desc) returns (typMod: array<int>, attnum: array<int>, count: int)
    ensures fresh(typMod) && fresh(attnum)
    ensures typMod.Length == attnum.Length == |desc|
    ensures count == |LiveColumns(desc)| && attnum[..count] == LiveColumns(desc)
    ensures forall c :: 0 <= c < |desc| && !desc[c].isdropped ==> typMod[c] == desc[c].typmod
  {
    typMod := new int[|desc|];
    attnum := new int[|desc|];
    count := 0;
    for i := 0 to |desc|
      invariant 0 <= count <= i
      invariant attnum[..count] == LiveColumns(desc[..i])
      invariant forall c :: 0 <= c < i && !desc[c].isdropped ==> typMod[c] == desc[c].typmod
    {
      assert desc[..i + 1][..i] == desc[..i];
      if desc[i].isdropped {
        continue;
      }
      typMod[i] := desc[i].typmod;
      attnum[count] := i;
      count := count + 1;
    }
    assert desc[..|desc|] == desc;
  }
}
