/**
 * The string helpers the control-file reader relies on: trimming, searching
 * outside double quotes, unquoting, quoting, case-insensitive comparison and
 * the integer and boolean value parsers. Their C code lives in pg_strutil.c,
 * which is not part of this model, so each one is given the small
 * specification written here. Text is a sequence of single-byte characters.
 */
module StrUtil {
  import opened Wrappers

  const QUOTE: char := '"'
  const ESCAPE: char := '\\'
  const INT64_MAX: int := 0x7FFF_FFFF_FFFF_FFFF
  const INT64_MIN: int := -0x8000_0000_0000_0000

  /** isspace() in the C locale. */
  predicate IsSpace(c: char) {
    c == ' ' || c == '\t' || c == '\n' || c == '\r' || c as int == 0x0B || c as int == 0x0C
  }

  /** ASCII-only case folding, which is what pg_strcasecmp compares. */
  function ToLower(c: char): char {
    if 'A' <= c <= 'Z' then (c as int + 32) as char else c
  }

  function Lower(s: string): (r: string)
    ensures |r| == |s|
    ensures forall i :: 0 <= i < |s| ==> r[i] == ToLower(s[i])
  {
    if s == [] then [] else [ToLower(s[0])] + Lower(s[1..])
  }

  /** pg_strcasecmp(a, b) == 0 */
  predicate EqualsIgnoreCase(a: string, b: string) {
    Lower(a) == Lower(b)
  }

  /** The position of the first of `names` equal to `s`. */
  function Position(s: string, names: seq<string>): (r: Option<nat>)
    ensures r.Some? ==> r.value < |names| && names[r.value] == s && s !in names[..r.value]
    ensures r.None? <==> s !in names
  {
    if names == [] then None
    else if names[0] == s then Some(0)
    else
      match Position(s, names[1..])
      case None => None
      case Some(k) =>
        assert names[..k + 1] == [names[0]] + names[1..][..k];
        Some(k + 1)
  }

  /** strchr: the first position of `c`. */
  function IndexOf(s: string, c: char): (r: Option<nat>)
    ensures r.Some? ==> r.value < |s| && s[r.value] == c && c !in s[..r.value]
    ensures r.None? ==> c !in s
  {
    if s == [] then None
    else if s[0] == c then Some(0)
    else
      match IndexOf(s[1..], c)
      case None => None
      case Some(k) =>
        assert s[..k + 1] == [s[0]] + s[1..][..k];
        Some(k + 1)
  }

  /** strrchr: the last position of `c`. */
  function LastIndexOf(s: string, c: char): (r: Option<nat>)
    ensures r.Some? ==> r.value < |s| && s[r.value] == c && c !in s[r.value + 1..]
    ensures r.None? ==> c !in s
  {
    if s == [] then None
    else if s[|s| - 1] == c then Some(|s| - 1)
    else
      assert s == s[..|s| - 1] + [s[|s| - 1]];
      LastIndexOf(s[..|s| - 1], c)
  }

  /** A `c` with none after it is the last one. */
  lemma LastAt(s: string, c: char, k: nat)
    requires k < |s| && s[k] == c && c !in s[k + 1..]
    ensures LastIndexOf(s, c) == Some(k)
  {
  }

  function TrimLeft(s: string): (r: string)
    ensures |r| <= |s| && r == s[|s| - |r|..]
    ensures forall i :: 0 <= i < |s| - |r| ==> IsSpace(s[i])
    ensures r == [] || !IsSpace(r[0])
  {
    if s != [] && IsSpace(s[0]) then TrimLeft(s[1..]) else s
  }

  function TrimRight(s: string): (r: string)
    ensures |r| <= |s| && r == s[..|r|]
    ensures forall i :: |r| <= i < |s| ==> IsSpace(s[i])
    ensures r == [] || !IsSpace(r[|r| - 1])
  {
    if s != [] && IsSpace(s[|s| - 1]) then TrimRight(s[..|s| - 1]) else s
  }

  /**
   * TrimSpace: the text without its leading and trailing white space, that
   * is, the part of it that starts where the leading white space ends.
   */
  function TrimSpace(s: string): (r: string)
    ensures |r| <= |s|
    ensures r == [] || (!IsSpace(r[0]) && !IsSpace(r[|r| - 1]))
    ensures r == [] <==> forall i :: 0 <= i < |s| ==> IsSpace(s[i])
    ensures TrimmedAt(s, r, |s| - |TrimLeft(s)|)
  {
    TrimBothAt(s);
    TrimRight(TrimLeft(s))
  }

  lemma TrimBothAt(s: string)
    ensures TrimmedAt(s, TrimRight(TrimLeft(s)), |s| - |TrimLeft(s)|)
  {
    TrimmedBetween(s, TrimLeft(s), TrimRight(TrimLeft(s)));
  }

  /** A prefix `r` of a suffix `l` of `s`, with white space around each, is `s` trimmed at the suffix's start. */
  lemma TrimmedBetween(s: string, l: string, r: string)
    requires |l| <= |s| && l == s[|s| - |l|..] && forall i :: 0 <= i < |s| - |l| ==> IsSpace(s[i])
    requires |r| <= |l| && r == l[..|r|] && forall i :: |r| <= i < |l| ==> IsSpace(l[i])
    ensures TrimmedAt(s, r, |s| - |l|)
  {
    PrefixOfSuffix(s, |s| - |l|, |r|);
    SpaceAfterPrefix(s, l, r);
  }

  lemma PrefixOfSuffix(s: string, i: nat, n: nat)
    requires i + n <= |s|
    ensures s[i..][..n] == s[i..i + n]
  {
  }

  /** White space after `r` in `l`, a suffix of `s`, is white space at the end of `s`. */
  lemma SpaceAfterPrefix(s: string, l: string, r: string)
    requires |l| <= |s| && l == s[|s| - |l|..] && |r| <= |l| && r == l[..|r|]
    requires forall k :: |r| <= k < |l| ==> IsSpace(l[k])
    ensures forall j :: |s| - |l| + |r| <= j < |s| ==> IsSpace(s[j])
  {
    forall j | |s| - |l| + |r| <= j < |s|
      ensures IsSpace(s[j])
    {
      assert s[j] == l[j - (|s| - |l|)];
    }
  }

  /** `r` is the part of `s` from position `i` with nothing but white space before and after it. */
  predicate TrimmedAt(s: string, r: string, i: nat) {
    && i + |r| <= |s| && r == s[i..i + |r|]
    && (forall j :: 0 <= j < i ==> IsSpace(s[j]))
    && (forall j :: i + |r| <= j < |s| ==> IsSpace(s[j]))
  }

  function Shift(r: Option<nat>, d: nat): (r': Option<nat>)
    ensures r'.Some? <==> r.Some?
    ensures r.Some? ==> r'.value == r.value + d
  {
    match r
    case None => None
    case Some(k) => Some(k + d)
  }

  /**
   * FindUnquotedChar(s, target, '"', '\\'): the first position of `target`
   * outside double quotes, where `inQuote` says whether the text starts inside
   * a quoted part. Inside quotes the escape character protects the character
   * after it.
   */
  function FindUnquotedFrom(s: string, target: char, inQuote: bool): (r: Option<nat>)
    ensures r.Some? ==> r.value < |s| && s[r.value] == target
    decreases |s|
  {
    if s == [] then None
    else if inQuote then
      if s[0] == ESCAPE && |s| >= 2 then Shift(FindUnquotedFrom(s[2..], target, true), 2)
      else if s[0] == QUOTE then Shift(FindUnquotedFrom(s[1..], target, false), 1)
      else Shift(FindUnquotedFrom(s[1..], target, true), 1)
    else if s[0] == target then Some(0)
    else if s[0] == QUOTE then Shift(FindUnquotedFrom(s[1..], target, true), 1)
    else Shift(FindUnquotedFrom(s[1..], target, false), 1)
  }

  /** In a text without quotes, the search finds the plain first position. */
  lemma {:induction false} FindPlainIsIndexOf(s: string, target: char)
    requires QUOTE !in s
    ensures FindUnquotedFrom(s, target, false) == IndexOf(s, target)
  {
    if s != [] && s[0] != target {
      FindPlainIsIndexOf(s[1..], target);
    }
  }

  function FindUnquotedChar(s: string, target: char): Option<nat> {
    FindUnquotedFrom(s, target, false)
  }

  function Prepend(c: char, r: Option<string>): (r': Option<string>)
    ensures r'.Some? <==> r.Some?
    ensures r.Some? ==> r'.value == [c] + r.value
  {
    match r
    case None => None
    case Some(t) => Some([c] + t)
  }

  /**
   * UnquoteString(s, '"', '\\'): the quote characters are removed and, inside
   * quotes, an escape character stands for the character after it. There is
   * no result when the text ends inside a quoted part.
   */
  function UnquoteFrom(s: string, inQuote: bool): (r: Option<string>)
    ensures r.Some? ==> |r.value| <= |s|
    ensures !inQuote && QUOTE !in s ==> r == Some(s)
    decreases |s|
  {
    if s == [] then (if inQuote then None else Some([]))
    else if inQuote then
      if s[0] == ESCAPE && |s| >= 2 then Prepend(s[1], UnquoteFrom(s[2..], true))
      else if s[0] == QUOTE then UnquoteFrom(s[1..], false)
      else Prepend(s[0], UnquoteFrom(s[1..], true))
    else if s[0] == QUOTE then UnquoteFrom(s[1..], true)
    else
      assert s == [s[0]] + s[1..];
      Prepend(s[0], UnquoteFrom(s[1..], false))
  }

  function UnquoteString(s: string): Option<string> {
    UnquoteFrom(s, false)
  }

  /** The body of QuoteString: quote and escape characters get an escape in front. */
  function Escape(s: string): (r: string)
    ensures |r| >= |s|
  {
    if s == [] then [] else EscapeChar(s[0]) + Escape(s[1..])
  }

  /** One character as QuoteString writes it: quote and escape characters get an escape in front. */
  function EscapeChar(c: char): string {
    if c == QUOTE || c == ESCAPE then [ESCAPE, c] else [c]
  }

  /** QuoteString: the text in double quotes, with its quote and escape characters escaped. */
  function QuoteString(s: string): string {
    [QUOTE] + Escape(s) + [QUOTE]
  }

  predicate IsDigit(c: char) {
    '0' <= c <= '9'
  }

  predicate AllDigits(s: string) {
    forall i :: 0 <= i < |s| ==> IsDigit(s[i])
  }

  /** The value of a string of decimal digits, most significant first. */
  function DigitsValue(s: string): nat
    requires AllDigits(s)
  {
    if s == [] then 0 else DigitsValue(s[..|s| - 1]) * 10 + (s[|s| - 1] as int - '0' as int)
  }

  /** int64_FMT ("%lld") for a non-negative value. */
  function NatToString(n: nat): (s: string)
    ensures |s| > 0 && AllDigits(s)
  {
    (if n < 10 then [] else NatToString(n / 10)) + [('0' as int + n % 10) as char]
  }

  /** int64_FMT ("%lld"). */
  function IntToString(i: int): string {
    if i < 0 then "-" + NatToString(-i) else NatToString(i)
  }

  /** A decimal integer with an optional sign and at least one digit. */
  function ParseDecimal(s: string): Option<int> {
    if |s| > 0 && (s[0] == '-' || s[0] == '+') then
      if |s| > 1 && AllDigits(s[1..]) then
        var v: int := DigitsValue(s[1..]);
        Some(if s[0] == '-' then -v else v)
      else None
    else if |s| > 0 && AllDigits(s) then Some(DigitsValue(s))
    else None
  }

  /**
   * ParseInt64(value, minValue): INFINITE (in any case) is INT64_MAX; any
   * other value must be a decimal int64 no smaller than `minValue`.
   */
  function ParseInt64(s: string, minValue: int): (r: Option<int>)
    ensures r.Some? ==> INT64_MIN <= r.value <= INT64_MAX
    ensures r.Some? && r.value != INT64_MAX ==> minValue <= r.value
    ensures Lower(s) == "infinite" ==> r == Some(INT64_MAX)
  {
    if Lower(s) == "infinite" then Some(INT64_MAX)
    else
      match ParseDecimal(s)
      case None => None
      case Some(v) => if INT64_MIN <= v <= INT64_MAX && minValue <= v then Some(v) else None
  }

  /**
   * ParseBoolean(value, defaultValue): an empty value gives the default;
   * true/yes/on/1 and false/no/off/0 are accepted in any case.
   */
  /** The spellings ParseBoolean accepts, the four for true first. */
  const BooleanNames: seq<string> := ["true", "yes", "on", "1", "false", "no", "off", "0"]

  function ParseBoolean(s: string, default: bool): (r: Option<bool>)
    ensures s == [] ==> r == Some(default)
    ensures s != [] ==> (r.Some? <==> Lower(s) in BooleanNames)
    ensures s != [] && r.Some? ==> (r.value <==> Lower(s) in BooleanNames[..4])
  {
    if s == [] then Some(default)
    else
      match Position(Lower(s), BooleanNames)
      case None => None
      case Some(i) =>
        assert Lower(s) !in BooleanNames[..i];
        assert i >= 4 ==> Lower(s) !in BooleanNames[..4] by {
          if i >= 4 { assert BooleanNames[..4] == BooleanNames[..i][..4]; }
        }
        Some(i < 4)
  }

  // ---------------------------------------------------------------------
  // Properties of the helpers
  // ---------------------------------------------------------------------

  lemma ShiftShift(r: Option<nat>, d: nat, e: nat)
    ensures Shift(Shift(r, d), e) == Shift(r, d + e)
  {
  }

  /** Inside quotes an escaped character is skipped whole. */
  lemma SkipEscapedChar(c: char, rest: string, target: char)
    ensures FindUnquotedFrom(EscapeChar(c) + rest, target, true) == Shift(FindUnquotedFrom(rest, target, true), |EscapeChar(c)|)
  {
    if c == QUOTE || c == ESCAPE {
      assert ([ESCAPE, c] + rest)[2..] == rest;
    } else {
      assert ([c] + rest)[1..] == rest;
    }
  }

  /** The closing quote ends the quoted part. */
  lemma SkipClosingQuote(tail: string, target: char)
    ensures FindUnquotedFrom([QUOTE] + tail, target, true) == Shift(FindUnquotedFrom(tail, target, false), 1)
  {
    assert ([QUOTE] + tail)[1..] == tail;
  }

  /** A search for a character the text does not hold finds nothing, in quotes or not. */
  lemma {:induction false} FindAbsent(s: string, target: char, inQuote: bool)
    requires target !in s
    ensures FindUnquotedFrom(s, target, inQuote) == None
    decreases |s|
  {
    if s != [] {
      FindAbsent(s[1..], target, !inQuote);
      FindAbsent(s[1..], target, inQuote);
      if |s| >= 2 {
        FindAbsent(s[2..], target, true);
      }
    }
  }

  /** Unquoting passes a prefix without quotes through unchanged. */
  lemma {:induction false} UnquotePlainPrefix(p: string, rest: string, v: string)
    requires QUOTE !in p && UnquoteFrom(rest, false) == Some(v)
    ensures UnquoteFrom(p + rest, false) == Some(p + v)
  {
    if p == [] {
      assert p + rest == rest && p + v == v;
    } else {
      HeadSplit(p, rest);
      HeadSplit(p, v);
      UnquotePlainChar(p[0], p[1..] + rest);
      UnquotePlainPrefix(p[1..], rest, v);
    }
  }

  /** Inside quotes, a text without a closing quote has no result. */
  lemma {:induction false} UnclosedQuote(s: string)
    requires QUOTE !in s
    ensures UnquoteFrom(s, true).None?
  {
    if s != [] {
      if s[0] == ESCAPE && |s| >= 2 {
        assert s[2..] == s[1..][1..];
        UnclosedQuote(s[2..]);
      } else {
        UnclosedQuote(s[1..]);
      }
    }
  }

  lemma HeadSplit(p: string, t: string)
    requires p != []
    ensures p + t == [p[0]] + (p[1..] + t)
  {
    assert p == [p[0]] + p[1..];
  }

  /** Outside quotes, a character other than the quote is kept. */
  lemma UnquotePlainChar(c: char, t: string)
    requires c != QUOTE
    ensures UnquoteFrom([c] + t, false) == Prepend(c, UnquoteFrom(t, false))
  {
    assert ([c] + t)[1..] == t;
  }

  /** A text without quote or escape characters is its own escaped form. */
  lemma {:induction false} EscapeUnchanged(s: string)
    requires QUOTE !in s && ESCAPE !in s
    ensures Escape(s) == s
  {
    if s != [] {
      EscapeUnchanged(s[1..]);
      assert [s[0]] + s[1..] == s;
    }
  }

  /** Inside quotes an escaped text is skipped whole. */
  lemma {:induction false} SkipEscaped(s: string, rest: string, target: char)
    ensures FindUnquotedFrom(Escape(s) + rest, target, true)
         == Shift(FindUnquotedFrom(rest, target, true), |Escape(s)|)
  {
    if s == [] {
      assert Escape(s) + rest == rest;
    } else {
      var more := Escape(s[1..]) + rest;
      assert Escape(s) + rest == EscapeChar(s[0]) + more;
      SkipEscapedChar(s[0], more, target);
      SkipEscaped(s[1..], rest, target);
      ShiftShift(FindUnquotedFrom(rest, target, true), |Escape(s[1..])|, |EscapeChar(s[0])|);
    }
  }

  /** Searching outside quotes never looks into a quoted, escaped text. */
  lemma FindSkipsQuoted(s: string, tail: string, target: char)
    ensures FindUnquotedFrom(Escape(s) + [QUOTE] + tail, target, true)
         == Shift(FindUnquotedFrom(tail, target, false), |Escape(s)| + 1)
  {
    assert Escape(s) + [QUOTE] + tail == Escape(s) + ([QUOTE] + tail);
    SkipEscaped(s, [QUOTE] + tail, target);
    SkipClosingQuote(tail, target);
    ShiftShift(FindUnquotedFrom(tail, target, false), 1, |Escape(s)|);
  }

  /** Searching outside quotes skips a quoted text whole. */
  lemma FindSkipsQuoteString(s: string, tail: string, target: char)
    requires target != QUOTE
    ensures FindUnquotedFrom(QuoteString(s) + tail, target, false)
         == Shift(FindUnquotedFrom(tail, target, false), |QuoteString(s)|)
  {
    var after := Escape(s) + [QUOTE] + tail;
    assert QuoteString(s) + tail == [QUOTE] + after;
    assert ([QUOTE] + after)[1..] == after;
    FindSkipsQuoted(s, tail, target);
    ShiftShift(FindUnquotedFrom(tail, target, false), |Escape(s)| + 1, 1);
  }

  lemma {:induction false} UnquoteEscaped(s: string)
    ensures UnquoteFrom(Escape(s) + [QUOTE], true) == Some(s)
  {
    var t := Escape(s) + [QUOTE];
    if s == [] {
      assert t == [QUOTE];
      assert t[1..] == [];
    } else {
      var rest := Escape(s[1..]) + [QUOTE];
      UnquoteEscaped(s[1..]);
      if s[0] == QUOTE || s[0] == ESCAPE {
        assert t == [ESCAPE, s[0]] + rest;
        assert t[2..] == rest;
      } else {
        assert t == [s[0]] + rest;
        assert t[1..] == rest;
      }
      assert [s[0]] + s[1..] == s;
    }
  }

  /** UnquoteString undoes QuoteString. */
  lemma QuoteRoundTrip(s: string)
    ensures UnquoteString(QuoteString(s)) == Some(s)
  {
    var t := QuoteString(s);
    assert t[1..] == Escape(s) + [QUOTE];
    UnquoteEscaped(s);
  }

  lemma {:induction false} DigitsValueOfNatToString(n: nat)
    ensures DigitsValue(NatToString(n)) == n
  {
    var s := NatToString(n);
    var pre := if n < 10 then [] else NatToString(n / 10);
    assert s == pre + [('0' as int + n % 10) as char];
    assert s[..|s| - 1] == pre;
    if n >= 10 {
      DigitsValueOfNatToString(n / 10);
    }
  }

  /** The decimal parser reads back what int64_FMT prints. */
  lemma ParseDecimalOfIntToString(i: int)
    ensures ParseDecimal(IntToString(i)) == Some(i)
  {
    if i < 0 {
      ParseDecimalOfNegative(-i);
    } else {
      ParseDecimalOfNatToString(i);
    }
  }

  lemma ParseDecimalOfNatToString(n: nat)
    ensures ParseDecimal(NatToString(n)) == Some(n)
  {
    var s := NatToString(n);
    assert IsDigit(s[0]);
    DigitsValueOfNatToString(n);
  }

  lemma ParseDecimalOfNegative(n: nat)
    requires n > 0
    ensures ParseDecimal("-" + NatToString(n)) == Some(-(n as int))
  {
    var s := "-" + NatToString(n);
    assert s[0] == '-' && |s| > 1;
    assert s[1..] == NatToString(n);
    DigitsValueOfNatToString(n);
  }

  /** ParseInt64 reads back every printed int64 that its lower bound admits. */
  lemma ParseInt64OfIntToString(i: int, minValue: int)
    requires INT64_MIN <= i <= INT64_MAX && minValue <= i
    ensures ParseInt64(IntToString(i), minValue) == Some(i)
  {
    ParseDecimalOfIntToString(i);
    var s := IntToString(i);
    assert Lower(s)[0] != "infinite"[0];
  }

  /** Trimming leaves text alone that neither starts nor ends with white space. */
  lemma TrimUnpadded(s: string)
    requires s == [] || (!IsSpace(s[0]) && !IsSpace(s[|s| - 1]))
    ensures TrimSpace(s) == s
  {
  }

  /** White space in front of a text does not survive trimming. */
  lemma {:induction false} TrimLeadingSpace(p: string, s: string)
    requires forall i :: 0 <= i < |p| ==> IsSpace(p[i])
    requires s != [] && !IsSpace(s[0])
    ensures TrimLeft(p + s) == s
  {
    if p != [] {
      assert (p + s)[1..] == p[1..] + s;
      TrimLeadingSpace(p[1..], s);
    } else {
      assert p + s == s;
    }
  }

  /** White space after a text does not survive trimming. */
  lemma {:induction false} TrimTrailingSpace(s: string, p: string)
    requires forall i :: 0 <= i < |p| ==> IsSpace(p[i])
    requires s != [] && !IsSpace(s[|s| - 1])
    ensures TrimRight(s + p) == s
  {
    if p != [] {
      assert (s + p)[..|s + p| - 1] == s + p[..|p| - 1];
      TrimTrailingSpace(s, p[..|p| - 1]);
    } else {
      assert s + p == s;
    }
  }

  /** Outside quotes, the first `target` after a plain text is found. */
  lemma {:induction false} FindAfterPlain(p: string, target: char, rest: string)
    requires target != QUOTE && QUOTE !in p && target !in p
    ensures FindUnquotedFrom(p + [target] + rest, target, false) == Some(|p|)
  {
    if p != [] {
      assert (p + [target] + rest)[1..] == p[1..] + [target] + rest;
      FindAfterPlain(p[1..], target, rest);
    }
  }

  /** Outside quotes, a search passes over text without quotes or the target. */
  lemma {:induction false} FindPastPlain(p: string, target: char, rest: string)
    requires QUOTE !in p && target !in p
    ensures FindUnquotedFrom(p + rest, target, false) == Shift(FindUnquotedFrom(rest, target, false), |p|)
  {
    if p == [] {
      assert p + rest == rest;
    } else {
      assert (p + rest)[1..] == p[1..] + rest;
      FindPastPlain(p[1..], target, rest);
    }
  }

  /** A text with a single quote opens a quoted part that never ends, so it does not unquote. */
  lemma {:induction false} LoneQuoteUnterminated(a: string, b: string)
    requires QUOTE !in a && QUOTE !in b
    ensures UnquoteString(a + [QUOTE] + b).None?
  {
    if a == [] {
      assert a + [QUOTE] + b == [QUOTE] + b;
      assert ([QUOTE] + b)[1..] == b;
      UnclosedQuote(b);
    } else {
      assert (a + [QUOTE] + b)[1..] == a[1..] + [QUOTE] + b;
      LoneQuoteUnterminated(a[1..], b);
    }
  }

  /** Trimming the front of a text stops at its quote at the latest. */
  lemma {:induction false} TrimLeftOfQuote(a: string, b: string) returns (a2: string)
    requires QUOTE !in a
    ensures QUOTE !in a2 && TrimLeft(a + [QUOTE] + b) == a2 + [QUOTE] + b
  {
    if a == [] || !IsSpace(a[0]) {
      a2 := a;
    } else {
      assert (a + [QUOTE] + b)[1..] == a[1..] + [QUOTE] + b;
      a2 := TrimLeftOfQuote(a[1..], b);
    }
  }

  /** Trimming the end of a text stops at its quote at the latest. */
  lemma {:induction false} TrimRightOfQuote(a: string, b: string) returns (b2: string)
    requires QUOTE !in b
    ensures QUOTE !in b2 && TrimRight(a + [QUOTE] + b) == a + [QUOTE] + b2
  {
    if b == [] || !IsSpace(b[|b| - 1]) {
      b2 := b;
    } else {
      var s := a + [QUOTE] + b;
      assert s[|s| - 1] == b[|b| - 1];
      assert s[..|s| - 1] == a + [QUOTE] + b[..|b| - 1];
      b2 := TrimRightOfQuote(a, b[..|b| - 1]);
    }
  }

  /** Trimming keeps a lone quote, so the trimmed text does not unquote either. */
  lemma TrimmedLoneQuote(a: string, b: string)
    requires QUOTE !in a && QUOTE !in b
    ensures UnquoteString(TrimSpace(a + [QUOTE] + b)).None?
  {
    var a2 := TrimLeftOfQuote(a, b);
    var b2 := TrimRightOfQuote(a2, b);
    LoneQuoteUnterminated(a2, b2);
  }

  /** Trimming adds no character. */
  lemma TrimKeepsOut(s: string, c: char)
    requires c !in s
    ensures c !in TrimSpace(s)
  {
    SliceKeepsOut(s, |s| - |TrimLeft(s)|, |TrimSpace(s)|, c);
  }

  lemma SliceKeepsOut(s: string, i: nat, n: nat, c: char)
    requires i + n <= |s| && c !in s
    ensures c !in s[i..i + n]
  {
    var t := s[i..i + n];
    assert forall j :: 0 <= j < n ==> t[j] == s[i + j];
  }

  /** Trimming twice is trimming once. */
  lemma TrimTwice(s: string)
    ensures TrimSpace(TrimSpace(s)) == TrimSpace(s)
  {
    TrimUnpadded(TrimSpace(s));
  }

  /** Escaping adds only quote and escape characters. */
  lemma {:induction false} EscapeKeepsOut(s: string, c: char)
    requires c !in s && c != QUOTE && c != ESCAPE
    ensures c !in Escape(s)
  {
    if s != [] {
      EscapeKeepsOut(s[1..], c);
    }
  }

  /** Quoting adds only quote and escape characters. */
  lemma QuoteKeepsOut(s: string, c: char)
    requires c !in s && c != QUOTE && c != ESCAPE
    ensures c !in QuoteString(s)
  {
    EscapeKeepsOut(s, c);
  }
}
