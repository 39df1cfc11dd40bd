/**
 * CheckerInit: which checks the loader performs on each row, and whether
 * the checker keeps the target relation open for them.
 */
module Checker {
  import opened Wrappers

  /** PG_SQL_ASCII, the encoding that disables encoding checks; -1 is the "no ENCODING given" sentinel. */
  const SQL_ASCII: int := 0
  const NO_ENCODING: int := -1

  /** The constraint part of a relation's row descriptor, when it has one. */
  datatype Constraints = Constraints(hasNotNull: bool)

  /** The checker flags CheckerInit decides. */
  datatype CheckerFlags = CheckerFlags(
    checkEncoding: bool,
    hasConstraints: bool,
    hasNotNull: bool,
    relationKept: bool,
    hasExecutorState: bool)

  /**
   * Whether the input encoding is checked: an ENCODING was given, it is not
   * SQL_ASCII, and the database's is not SQL_ASCII either. The two need not
   * differ: an ENCODING equal to the database's is checked too.
   */
  predicate EncodingChecked(encoding: int, dbEncoding: int) {
    encoding != NO_ENCODING && encoding != SQL_ASCII && dbEncoding != SQL_ASCII
  }

  /** An ENCODING equal to the database's, neither being SQL_ASCII, still turns the check on. */
  lemma SameEncodingChecked(checkEncoding: bool, hasConstraints: bool, hasNotNull: bool,
                            checkConstraints: bool, encoding: int, constr: Option<Constraints>)
    requires encoding != NO_ENCODING && encoding != SQL_ASCII
    ensures InitFlags(checkEncoding, hasConstraints, hasNotNull, checkConstraints, encoding, encoding, constr).checkEncoding
  {
  }

  /**
   * The flags after CheckerInit, from the flags the checker had before (which
   * CheckerInit only ever turns on), the CHECK_CONSTRAINTS option, the
   * encodings and the relation's constraints.
   */
  function InitFlags(checkEncoding: bool, hasConstraints: bool, hasNotNull: bool,
                     checkConstraints: bool, encoding: int, dbEncoding: int,
                     constr: Option<Constraints>): (f: CheckerFlags)
    ensures f.checkEncoding <==> checkEncoding || EncodingChecked(encoding, dbEncoding)
    ensures f.hasConstraints <==> hasConstraints || (checkConstraints && constr.Some?)
    ensures f.hasNotNull <==> hasNotNull || (constr.Some? && constr.value.hasNotNull)
    ensures f.relationKept <==> f.hasConstraints || f.hasNotNull
    ensures f.hasExecutorState <==> f.hasConstraints
  {
    var active := constr.Some? && (checkConstraints || constr.value.hasNotNull);
    var constraints := hasConstraints || (active && checkConstraints);
    var notNull := hasNotNull || (active && constr.value.hasNotNull);
    CheckerFlags(checkEncoding || EncodingChecked(encoding, dbEncoding), constraints, notNull,
                 constraints || notNull, constraints)
  }

  /**
   * From a zero-filled checker: the relation stays open exactly when
   * CHECK_CONSTRAINTS is on or the table has a NOT NULL column, and either
   * way only when the relation has constraints at all.
   */
  lemma FreshCheckerKeepsRelation(checkConstraints: bool, encoding: int, dbEncoding: int, constr: Option<Constraints>)
    ensures var f := InitFlags(false, false, false, checkConstraints, encoding, dbEncoding, constr);
      && (f.relationKept <==> constr.Some? && (checkConstraints || constr.value.hasNotNull))
      && (f.hasNotNull ==> constr.Some?)
      && (!checkConstraints ==> !f.hasConstraints && !f.hasExecutorState)
  {
  }

  /** A loader that names no ENCODING, or uses SQL_ASCII on either side, never checks encodings. */
  lemma NoEncodingCheck(encoding: int, dbEncoding: int, constr: Option<Constraints>, checkConstraints: bool)
    requires encoding == NO_ENCODING || encoding == SQL_ASCII || dbEncoding == SQL_ASCII
    ensures !InitFlags(false, false, false, checkConstraints, encoding, dbEncoding, constr).checkEncoding
  {
  }

  class Checker {
    const encoding: int
    const checkConstraints: bool
    var dbEncoding: int
    var checkEncoding: bool
    var hasConstraints: bool
    var hasNotNull: bool
    /** Whether the checker holds the relation (rel != NULL), the executor state and the tuple slot. */
    var relationKept: bool
    var hasExecutorState: bool

    /** A checker as the loader's zero-filled allocation and its options leave it. */
    constructor(encoding: int, checkConstraints: bool)
      ensures this.encoding == encoding && this.checkConstraints == checkConstraints
      ensures !checkEncoding && !hasConstraints && !hasNotNull && !relationKept && !hasExecutorState
    {
      this.encoding := encoding;
      this.checkConstraints := checkConstraints;
      dbEncoding := 0;
      checkEncoding := false;
      hasConstraints := false;
      hasNotNull := false;
      relationKept := false;
      hasExecutorState := false;
    }

    /** CheckerInit on a relation whose descriptor has constraints `constr`, in a database of encoding `db`. */
    method Init(constr: Option<Constraints>, db: int)
      modifies this
      ensures dbEncoding == db
      ensures CheckerFlags(checkEncoding, hasConstraints, hasNotNull, relationKept, hasExecutorState)
           == InitFlags(old(checkEncoding), old(hasConstraints), old(hasNotNull), checkConstraints, encoding, db, constr)
    {
      relationKept := true;
      dbEncoding := db;
      if encoding != NO_ENCODING && encoding != SQL_ASCII && dbEncoding != SQL_ASCII {
        checkEncoding := true;
      }
      if constr.Some? && (checkConstraints || constr.value.hasNotNull) {
        if checkConstraints {
          hasConstraints := true;
        }
        if constr.value.hasNotNull {
          hasNotNull := true;
        }
      }
      hasExecutorState := hasConstraints;
      if !hasConstraints && !hasNotNull {
        relationKept := false;
      }
    }
  }
}
