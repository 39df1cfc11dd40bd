/** The error codes the reader tells apart; every other SQLSTATE is carried as a number. */
module Errors {

  datatype ErrCode =
    | AdminShutdown
    | QueryCanceled
    | DatatypeMismatch
    | FeatureNotSupported
    | OtherCode(sqlstate: int)

  /** Errors ReaderNext never absorbs, whatever the parser was doing. */
  predicate IsQueryAbort(code: ErrCode) {
    code.AdminShutdown? || code.QueryCanceled?
  }
}
