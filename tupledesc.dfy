/**
 * Row descriptors and rows: the attributes of a table or of a function's
 * result row, the live (non-dropped) columns of a table, and
 * tupledesc_match, the check that a function's result row can be stored in
 * the target table.
 */
module TupleDesc {
  import opened Wrappers

  /** The parts of pg_attribute the reader looks at. */
  datatype Attribute = Attribute(typid: int, typmod: int, isdropped: bool, attlen: int, attalign: char)

  type Desc = seq<Attribute>

  /** A Datum with its null flag. */
  datatype Cell = Null | Value(datum: int)

  type Row = seq<Cell>

  /** The row heap_form_tuple forms from `values` and `isnull`. */
  function FormRow(values: seq<int>, isnull: seq<bool>): (row: Row)
    requires |values| == |isnull|
    ensures |row| == |values|
    ensures forall i :: 0 <= i < |row| ==> row[i] == if isnull[i] then Null else Value(values[i])
  {
    seq(|values|, i requires 0 <= i < |values| => if isnull[i] then Null else Value(values[i]))
  }

  function NullRow(n: nat): (row: Row)
    ensures |row| == n && forall i :: 0 <= i < n ==> row[i] == Null
  {
    seq(n, _ => Null)
  }

  // ---------------------------------------------------------------------
  // Live columns
  // ---------------------------------------------------------------------

  /** The positions of the columns that are not dropped, in increasing order. */
  function LiveColumns(desc: Desc): (cols: seq<nat>)
    ensures |cols| <= |desc|
    ensures forall j :: 0 <= j < |cols| ==> cols[j] < |desc| && !desc[cols[j]].isdropped
  {
    if desc == [] then []
    else
      var n := |desc| - 1;
      assert forall j :: 0 <= j < n ==> desc[..n][j] == desc[j];
      LiveColumns(desc[..n]) + (if desc[n].isdropped then [] else [n])
  }

  predicate StrictlyIncreasing(s: seq<nat>) {
    forall i, j :: 0 <= i < j < |s| ==> s[i] < s[j]
  }

  /** The live columns are listed in increasing order, each once. */
  lemma {:induction false} LiveColumnsIncreasing(desc: Desc)
    ensures StrictlyIncreasing(LiveColumns(desc))
  {
    if desc != [] {
      var n := |desc| - 1;
      LiveColumnsIncreasing(desc[..n]);
    }
  }

  /** Every column that is not dropped is listed. */
  lemma {:induction false} LiveColumnsComplete(desc: Desc, c: nat)
    requires c < |desc| && !desc[c].isdropped
    ensures c in LiveColumns(desc)
  {
    var n := |desc| - 1;
    if c < n {
      assert desc[..n][c] == desc[c];
      LiveColumnsComplete(desc[..n], c);
    } else {
      assert LiveColumns(desc)[|LiveColumns(desc)| - 1] == n;
    }
  }

  // ---------------------------------------------------------------------
  // tupledesc_match
  // ---------------------------------------------------------------------

  /** Why a result row cannot be stored in the target table; positions count from 0. */
  datatype Mismatch =
    | CountMismatch(returned: nat, expected: nat)
    | TypeMismatch(position: nat)
    | StorageMismatch(position: nat)

  /** A result attribute fits a target attribute: same type, or a dropped target column with the same storage. */
  predicate Compatible(dst: Attribute, src: Attribute) {
    dst.typid == src.typid || (dst.isdropped && dst.attlen == src.attlen && dst.attalign == src.attalign)
  }

  predicate Matches(dst: Desc, src: Desc) {
    |dst| == |src| && forall i :: 0 <= i < |dst| ==> Compatible(dst[i], src[i])
  }

  /** The first incompatible position from `i` on, and what is wrong with it. */
  function FirstMismatchFrom(dst: Desc, src: Desc, i: nat): (r: Option<Mismatch>)
    requires |dst| == |src| && i <= |dst|
    ensures r.None? <==> forall j :: i <= j < |dst| ==> Compatible(dst[j], src[j])
    ensures r.Some? ==> r.value.TypeMismatch? || r.value.StorageMismatch?
    ensures r.Some? && r.value.TypeMismatch? ==>
      var p := r.value.position;
      && i <= p < |dst| && dst[p].typid != src[p].typid && !dst[p].isdropped
      && forall j :: i <= j < p ==> Compatible(dst[j], src[j])
    ensures r.Some? && r.value.StorageMismatch? ==>
      var p := r.value.position;
      && i <= p < |dst| && dst[p].typid != src[p].typid && dst[p].isdropped
      && (dst[p].attlen != src[p].attlen || dst[p].attalign != src[p].attalign)
      && forall j :: i <= j < p ==> Compatible(dst[j], src[j])
    decreases |dst| - i
  {
    if i == |dst| then None
    else if dst[i].typid == src[i].typid then FirstMismatchFrom(dst, src, i + 1)
    else if !dst[i].isdropped then Some(TypeMismatch(i))
    else if dst[i].attlen != src[i].attlen || dst[i].attalign != src[i].attalign then Some(StorageMismatch(i))
    else FirstMismatchFrom(dst, src, i + 1)
  }

  /**
   * tupledesc_match: None when the result row `src` can be stored in the
   * target row `dst`; otherwise the first reason it cannot, checked in the
   * order the source reports them.
   */
  function TupleDescMatch(dst: Desc, src: Desc): (r: Option<Mismatch>)
    ensures r.None? <==> Matches(dst, src)
    ensures |dst| != |src| ==> r == Some(CountMismatch(|src|, |dst|))
    ensures r.Some? && !r.value.CountMismatch? ==> |dst| == |src| && r.value.position < |dst|
  {
    if |dst| != |src| then Some(CountMismatch(|src|, |dst|))
    else FirstMismatchFrom(dst, src, 0)
  }
}
