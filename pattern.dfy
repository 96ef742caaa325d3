/**
 * The square-footage pattern of content.js,
 *
 *   (?:\(|\b)(\d{1,3}(?:,\d{3})*(?:\.\d+)?|\w+)\s*
 *   (?:sq(?:uare)?\.?\s*(?:ft|feet|foot|ft)?|ft\.?|sq\.?\s*ft\.?)(?:\)|\b)
 *
 * with flags `gi`, written as a deterministic matcher. Where the pattern
 * leaves a choice (an alternation, a greedy quantifier) the matcher lists the
 * candidate end positions in the order a backtracking engine tries them and
 * takes the first one that lets the rest of the pattern succeed, so the match
 * and its first group are the ones `RegExp.prototype.exec` reports.
 */
module SqftPattern {
  import opened Wrappers
  import opened Chars
  import opened Numbers

  /** A match found with its number token starting at `start`: the token is `t[start..tokenEnd]`, the match ends at `end`. */
  datatype Hit = Hit(start: nat, tokenEnd: nat, end: nat)

  /** What `exec` reports: `match.index`, `match[0]` and the first group `match[1]` (with its position). */
  datatype Match = Match(index: nat, lexeme: string, groupIndex: nat, group: string)

  /** Where the first group of `m` ends. */
  function GroupEnd(m: Match): nat {
    m.groupIndex + |m.group|
  }

  // ---------------------------------------------------------------------
  // The number token, first alternative: \d{1,3}(?:,\d{3})*(?:\.\d+)?
  // ---------------------------------------------------------------------

  predicate IsFractionOpt(s: string) {
    s == [] || (|s| >= 2 && s[0] == '.' && AllDigits(s[1..]))
  }

  predicate IsGroupsThenFraction(s: string)
    decreases |s|
  {
    IsFractionOpt(s) || (|s| >= 4 && s[0] == ',' && AllDigits(s[1..4]) && IsGroupsThenFraction(s[4..]))
  }

  /** The language of the first alternative of the number token. */
  predicate IsNumeral(s: string) {
    (|s| >= 1 && AllDigits(s[..1]) && IsGroupsThenFraction(s[1..]))
    || (|s| >= 2 && AllDigits(s[..2]) && IsGroupsThenFraction(s[2..]))
    || (|s| >= 3 && AllDigits(s[..3]) && IsGroupsThenFraction(s[3..]))
  }

  /** `\d{1,3}`, greedy */
  function LeadEnd(t: string, p: nat): (l: nat)
    requires p < |t| && IsDigit(t[p])
    ensures p < l <= p + 3 && l <= |t|
    ensures forall k :: p <= k < l ==> IsDigit(t[k])
    ensures l < p + 3 ==> l == |t| || !IsDigit(t[l])
  {
    if p + 1 < |t| && IsDigit(t[p + 1]) then
      if p + 2 < |t| && IsDigit(t[p + 2]) then p + 3 else p + 2
    else p + 1
  }

  /** `(?:,\d{3})*`, greedy */
  function GroupsEnd(t: string, i: nat): (g: nat)
    requires i <= |t|
    ensures i <= g <= |t|
    decreases |t| - i
  {
    if i + 4 <= |t| && t[i] == ',' && AllDigits(t[i + 1..i + 4]) then GroupsEnd(t, i + 4) else i
  }

  /** `(?:\.\d+)?`, greedy */
  function FractionEnd(t: string, g: nat): (f: nat)
    requires g <= |t|
    ensures g <= f <= |t|
    ensures IsFractionOpt(t[g..f])
  {
    if g + 1 < |t| && t[g] == '.' && IsDigit(t[g + 1]) then RunEnd(t, g + 1, IsDigit) else g
  }

  lemma {:induction false} GroupsThenFraction(t: string, i: nat)
    requires i <= |t|
    ensures IsGroupsThenFraction(t[i..FractionEnd(t, GroupsEnd(t, i))])
    decreases |t| - i
  {
    var f := FractionEnd(t, GroupsEnd(t, i));
    if i + 4 <= |t| && t[i] == ',' && AllDigits(t[i + 1..i + 4]) {
      GroupsThenFraction(t, i + 4);
      assert GroupsEnd(t, i) == GroupsEnd(t, i + 4);
      assert i + 4 <= f;
      assert t[i..f][4..] == t[i + 4..f];
      assert t[i..f][1..4] == t[i + 1..i + 4];
    }
  }

  /**
   * Where the first alternative of the number token ends when every
   * quantifier in it takes as much as it can. Every shorter choice leaves a
   * digit, a comma or a full stop next, where neither `\s` nor a unit phrase
   * can start, so this is the only end of that alternative that can take
   * part in a match.
   */
  function NumeralEnd(t: string, p: nat): (q: nat)
    requires p < |t| && IsDigit(t[p])
    ensures p < q <= |t|
    ensures IsNumeral(t[p..q])
    ensures forall k :: p <= k < q ==> IsDigit(t[k]) || t[k] == ',' || t[k] == '.'
  {
    var lead := LeadEnd(t, p);
    var q := FractionEnd(t, GroupsEnd(t, lead));
    GroupsThenFraction(t, lead);
    assert t[p..q][..lead - p] == t[p..lead];
    assert t[p..q][lead - p..] == t[lead..q];
    NumeralChars(t[p..q]);
    assert forall k :: p <= k < q ==> t[k] == t[p..q][k - p];
    q
  }

  /** A numeral is made of digits, commas and full stops only. */
  lemma NumeralChars(s: string)
    requires IsNumeral(s)
    ensures forall k :: 0 <= k < |s| ==> IsDigit(s[k]) || s[k] == ',' || s[k] == '.'
  {
    var l :| 1 <= l <= 3 && |s| >= l && AllDigits(s[..l]) && IsGroupsThenFraction(s[l..]);
    GroupsChars(s[l..]);
    forall k | 0 <= k < |s|
      ensures IsDigit(s[k]) || s[k] == ',' || s[k] == '.'
    {
      if k < l {
        var lead := s[..l];
        assert AllDigits(lead);
        assert lead[k] == s[k];
        assert IsDigit(lead[k]);
      } else {
        var x := s[l..][k - l];
        assert x == s[k];
        assert IsDigit(x) || x == ',' || x == '.';
      }
    }
  }

  lemma {:induction false} GroupsChars(s: string)
    requires IsGroupsThenFraction(s)
    ensures forall k :: 0 <= k < |s| ==> IsDigit(s[k]) || s[k] == ',' || s[k] == '.'
    decreases |s|
  {
    if !IsFractionOpt(s) {
      GroupsChars(s[4..]);
      forall k | 0 <= k < |s|
        ensures IsDigit(s[k]) || s[k] == ',' || s[k] == '.'
      {
        if 1 <= k < 4 {
          assert s[1..4][k - 1] == s[k];
        } else if k >= 4 {
          assert s[4..][k - 4] == s[k];
        }
      }
    } else if s != [] {
      forall k | 1 <= k < |s|
        ensures IsDigit(s[k])
      {
        assert s[1..][k - 1] == s[k];
      }
    }
  }

  /** The greedy comma groups and fraction reach at least as far as any way of reading that part. */
  lemma {:induction false} GroupsLongest(t: string, i: nat, j: nat)
    requires i <= j <= |t| && IsGroupsThenFraction(t[i..j])
    ensures j <= FractionEnd(t, GroupsEnd(t, i))
    decreases j - i
  {
    var s := t[i..j];
    if |s| >= 4 && s[0] == ',' && AllDigits(s[1..4]) && IsGroupsThenFraction(s[4..]) {
      SliceOfSlice(t, i, j, i + 1, i + 4);
      SliceOfSlice(t, i, j, i + 4, j);
      assert s[4..] == t[i + 4..j];
      GroupsLongest(t, i + 4, j);
      assert GroupsEnd(t, i) == GroupsEnd(t, i + 4);
    } else if s != [] {
      assert IsFractionOpt(s) && s[0] == t[i];
      assert t[i] == '.' && GroupsEnd(t, i) == i;
      forall k | i + 1 <= k < j
        ensures IsDigit(t[k])
      {
        assert t[k] == s[1..][k - i - 1];
      }
      assert IsDigit(t[i + 1]);
    }
  }

  /**
   * `NumeralEnd` is the longest reading of the first alternative: no longer
   * stretch from `p` is a numeral.
   */
  lemma NumeralLongest(t: string, p: nat, j: nat)
    requires p < |t| && IsDigit(t[p]) && p <= j <= |t| && IsNumeral(t[p..j])
    ensures j <= NumeralEnd(t, p)
  {
    var s := t[p..j];
    var lead := LeadEnd(t, p);
    var l :| 1 <= l <= 3 && |s| >= l && AllDigits(s[..l]) && IsGroupsThenFraction(s[l..]);
    forall k | p <= k < p + l
      ensures IsDigit(t[k])
    {
      var digits := s[..l];
      assert AllDigits(digits) && digits[k - p] == t[k];
    }
    LeadLongest(t, p, l);
    if j > p + l {
      GroupsStart(s[l..]);
      assert s[l..][0] == t[p + l];
      assert !IsDigit(t[p + l]);
      assert l == lead - p;
    }
    if l == lead - p {
      assert s[l..] == t[lead..j];
      GroupsLongest(t, lead, j);
    }
  }

  /** What follows the leading digits of a numeral starts with a comma or a full stop. */
  lemma GroupsStart(s: string)
    requires IsGroupsThenFraction(s) && s != []
    ensures s[0] == ',' || s[0] == '.'
  {
  }

  /** `\d{1,3}` takes as many digits as any reading of it can. */
  lemma LeadLongest(t: string, p: nat, l: nat)
    requires p < |t| && IsDigit(t[p]) && p + l <= |t| && l <= 3
    requires forall k :: p <= k < p + l ==> IsDigit(t[k])
    ensures p + l <= LeadEnd(t, p)
  {
  }

  /**
   * The parts of a numeral, split at its full stop (or at its end when it
   * has none): digits and commas beginning with a digit, then one or more
   * digits after the full stop.
   */
  lemma NumeralParts(s: string, i: nat)
    requires IsNumeral(s) && i <= |s|
    requires (forall k :: 0 <= k < i ==> s[k] != '.') && (i == |s| || s[i] == '.')
    ensures i > 0 && IsDigit(s[0])
    ensures forall k :: 0 <= k < i ==> IsDigit(s[k]) || s[k] == ','
    ensures i < |s| ==> i + 1 < |s| && AllDigits(s[i + 1..])
  {
    var l :| 1 <= l <= 3 && |s| >= l && AllDigits(s[..l]) && IsGroupsThenFraction(s[l..]);
    forall k | 0 <= k < l
      ensures IsDigit(s[k])
    {
      var digits := s[..l];
      assert AllDigits(digits) && digits[k] == s[k];
    }
    assert i >= l;
    GroupsParts(s[l..], i - l);
    forall k | l <= k < i
      ensures IsDigit(s[k]) || s[k] == ','
    {
      assert s[l..][k - l] == s[k];
    }
    if i < |s| {
      assert s[l..][i - l + 1..] == s[i + 1..];
    }
  }

  lemma {:induction false} GroupsParts(s: string, i: nat)
    requires IsGroupsThenFraction(s) && i <= |s|
    requires (forall k :: 0 <= k < i ==> s[k] != '.') && (i == |s| || s[i] == '.')
    ensures forall k :: 0 <= k < i ==> IsDigit(s[k]) || s[k] == ','
    ensures i < |s| ==> i + 1 < |s| && AllDigits(s[i + 1..])
    decreases |s|
  {
    if !IsFractionOpt(s) {
      var digits := s[1..4];
      assert AllDigits(digits);
      forall k | 1 <= k < 4
        ensures IsDigit(s[k])
      {
        assert digits[k - 1] == s[k];
      }
      assert i >= 4;
      GroupsParts(s[4..], i - 4);
      forall k | 4 <= k < i
        ensures IsDigit(s[k]) || s[k] == ','
      {
        assert s[4..][k - 4] == s[k];
      }
      if i < |s| {
        assert s[4..][i - 4 + 1..] == s[i + 1..];
      }
    }
  }

  // ---------------------------------------------------------------------
  // The unit phrase and the closing (?:\)|\b)
  // ---------------------------------------------------------------------

  /**
   * `(?:ft|feet|foot|ft)?` at `i`: each alternative in order, then the empty
   * choice. The repeated `ft` succeeds only where the first one already did,
   * so it is listed once.
   */
  function UnitWordEnds(t: string, i: nat): (ends: seq<nat>)
    requires i <= |t|
    ensures forall k :: 0 <= k < |ends| ==> i <= ends[k] <= |t|
  {
    var none := [i];
    var foot := if HasAt(t, i, "foot") then [i + 4] + none else none;
    var feet := if HasAt(t, i, "feet") then [i + 4] + foot else foot;
    if HasAt(t, i, "ft") then [i + 2] + feet else feet
  }

  /** Every end `at(j)` lists, for `lo <= j <= i`, lies in `[lo, hi]`. */
  predicate EndsWithin(at: nat -> seq<nat>, lo: nat, i: nat, hi: nat) {
    forall j: nat, k :: lo <= j <= i && 0 <= k < |at(j)| ==> lo <= at(j)[k] <= hi
  }

  /**
   * A `\s*` that may stop anywhere from `i` back to `lo`, followed by a part
   * whose ends at `j` are `at(j)`: the ends, longest white space first.
   */
  function Spread(at: nat -> seq<nat>, lo: nat, i: nat): seq<nat>
    decreases i
  {
    if i > lo then at(i) + Spread(at, lo, i - 1) else at(i)
  }

  /** When every `at(j)` lies in `[lo, hi]`, so do the spread ends. */
  lemma {:induction false} SpreadWithin(at: nat -> seq<nat>, lo: nat, i: nat, hi: nat)
    requires lo <= i && EndsWithin(at, lo, i, hi)
    ensures forall k :: 0 <= k < |Spread(at, lo, i)| ==> lo <= Spread(at, lo, i)[k] <= hi
    decreases i
  {
    var here := at(i);
    assert forall k :: 0 <= k < |here| ==> lo <= here[k] <= hi;
    if i > lo {
      SpreadWithin(at, lo, i - 1, hi);
      var rest := Spread(at, lo, i - 1);
      assert Spread(at, lo, i) == here + rest;
    }
  }

  /** `(?:ft|feet|foot|ft)?` at each position of `t` */
  function WordsAt(t: string): nat -> seq<nat> {
    (j: nat) => if j <= |t| then UnitWordEnds(t, j) else []
  }

  /** `\s*(?:ft|feet|foot|ft)?` where the white space may run from `lo` to `i`: longest first. */
  function SpacedUnitWordEnds(t: string, lo: nat, i: nat): (ends: seq<nat>)
    requires lo <= i <= |t|
    ensures forall k :: 0 <= k < |ends| ==> lo <= ends[k] <= |t|
  {
    SpreadWithin(WordsAt(t), lo, i, |t|);
    Spread(WordsAt(t), lo, i)
  }

  /** `\.?\s*(?:ft|feet|foot|ft)?` at `i` */
  function DottedUnitWordEnds(t: string, i: nat): (ends: seq<nat>)
    requires i <= |t|
    ensures forall k :: 0 <= k < |ends| ==> i <= ends[k] <= |t|
  {
    var plain := SpacedUnitWordEnds(t, i, RunEnd(t, i, IsSpace));
    if CharAt(t, i, '.') then SpacedUnitWordEnds(t, i + 1, RunEnd(t, i + 1, IsSpace)) + plain else plain
  }

  /** First unit alternative, `sq(?:uare)?\.?\s*(?:ft|feet|foot|ft)?` */
  function SquareEnds(t: string, u: nat): (ends: seq<nat>)
    requires u <= |t|
    ensures forall k :: 0 <= k < |ends| ==> u + 2 <= ends[k] <= |t|
    ensures ends != [] ==> HasAt(t, u, "sq")
  {
    if !HasAt(t, u, "sq") then []
    else
      var plain := DottedUnitWordEnds(t, u + 2);
      if HasAt(t, u + 2, "uare") then DottedUnitWordEnds(t, u + 6) + plain else plain
  }

  /** `\.?` at `i` */
  function DotEnds(t: string, i: nat): (ends: seq<nat>)
    requires i <= |t|
    ensures forall k :: 0 <= k < |ends| ==> i <= ends[k] <= |t|
  {
    if CharAt(t, i, '.') then [i + 1, i] else [i]
  }

  /** Second unit alternative, `ft\.?` */
  function FootEnds(t: string, u: nat): (ends: seq<nat>)
    requires u <= |t|
    ensures forall k :: 0 <= k < |ends| ==> u + 2 <= ends[k] <= |t|
    ensures ends != [] ==> HasAt(t, u, "ft")
  {
    if HasAt(t, u, "ft") then DotEnds(t, u + 2) else []
  }

  /** `ft\.?` at each position of `t` */
  function FootsAt(t: string): nat -> seq<nat> {
    (j: nat) => if j <= |t| then FootEnds(t, j) else []
  }

  /** `\s*ft\.?` where the white space may run from `lo` to `i`: longest first. */
  function SpacedFtEnds(t: string, lo: nat, i: nat): (ends: seq<nat>)
    requires lo <= i <= |t|
    ensures forall k :: 0 <= k < |ends| ==> lo <= ends[k] <= |t|
  {
    SpreadWithin(FootsAt(t), lo, i, |t|);
    Spread(FootsAt(t), lo, i)
  }

  /** Third unit alternative, `sq\.?\s*ft\.?` */
  function SqFtEnds(t: string, u: nat): (ends: seq<nat>)
    requires u <= |t|
    ensures forall k :: 0 <= k < |ends| ==> u + 2 <= ends[k] <= |t|
    ensures ends != [] ==> HasAt(t, u, "sq")
  {
    if !HasAt(t, u, "sq") then []
    else
      var plain := SpacedFtEnds(t, u + 2, RunEnd(t, u + 2, IsSpace));
      if CharAt(t, u + 2, '.') then SpacedFtEnds(t, u + 3, RunEnd(t, u + 3, IsSpace)) + plain else plain
  }

  /** Every end the unit phrase can have at `u`, in the order the engine tries them. */
  function UnitEnds(t: string, u: nat): (ends: seq<nat>)
    requires u <= |t|
    ensures forall k :: 0 <= k < |ends| ==> u + 2 <= ends[k] <= |t|
    ensures ends != [] ==> HasAt(t, u, "sq") || HasAt(t, u, "ft")
  {
    SquareEnds(t, u) + FootEnds(t, u) + SqFtEnds(t, u)
  }

  // ---------------------------------------------------------------------
  // The unit phrase read directly off the pattern, and the ends tried
  // ---------------------------------------------------------------------

  /** `\s*` takes exactly `t[i..j]`. */
  predicate WhiteRun(t: string, i: nat, j: nat) {
    i <= j <= |t| && forall k :: i <= k < j ==> IsSpace(t[k])
  }

  /** A `\s*` that takes `t[i..j]` stops no later than the greedy run. */
  lemma WhiteRunInside(t: string, i: nat, j: nat)
    requires WhiteRun(t, i, j)
    ensures j <= RunEnd(t, i, IsSpace)
  {
    RunCovers(t, i, j, IsSpace);
  }

  /** `\.?` takes exactly `t[i..j]`. */
  predicate DotOpt(t: string, i: nat, j: nat) {
    j == i || (j == i + 1 && CharAt(t, i, '.'))
  }

  /** `(?:ft|feet|foot|ft)?` takes exactly `t[i..j]`, ignoring case. */
  predicate FootWord(t: string, i: nat, j: nat) {
    j == i || (j == i + 2 && HasAt(t, i, "ft")) || (j == i + 4 && (HasAt(t, i, "feet") || HasAt(t, i, "foot")))
  }

  /** `\.?\s*(?:ft|feet|foot|ft)?` from `a`, its three parts ending at `b`, `c` and `v`. */
  predicate DottedWord(t: string, a: nat, b: nat, c: nat, v: nat) {
    DotOpt(t, a, b) && WhiteRun(t, b, c) && FootWord(t, c, v)
  }

  /** `\.?\s*(?:ft|feet|foot|ft)?` can take exactly `t[a..v]`. */
  ghost predicate DottedWordTo(t: string, a: nat, v: nat) {
    exists b: nat, c: nat :: DottedWord(t, a, b, c, v)
  }

  /** `ft\.?` takes exactly `t[c..v]`, ignoring case. */
  predicate FtDot(t: string, c: nat, v: nat) {
    HasAt(t, c, "ft") && DotOpt(t, c + 2, v)
  }

  /**
   * The unit alternation takes exactly `t[u..v]`: `sq` or `square` followed
   * by `\.?\s*(?:ft|feet|foot|ft)?`, or `ft\.?`, or `sq\.?\s*ft\.?`.
   */
  ghost predicate UnitPhraseAt(t: string, u: nat, v: nat) {
    (HasAt(t, u, "sq") && DottedWordTo(t, u + 2, v))
    || (HasAt(t, u, "sq") && HasAt(t, u + 2, "uare") && DottedWordTo(t, u + 6, v))
    || FtDot(t, u, v)
    || (HasAt(t, u, "sq") && exists b: nat, c: nat :: DotOpt(t, u + 2, b) && WhiteRun(t, b, c) && FtDot(t, c, v))
  }

  /** The ends tried for `(?:ft|feet|foot|ft)?` at `i` are exactly its readings there. */
  lemma UnitWordEndsExact(t: string, i: nat, v: nat)
    requires i <= |t|
    ensures v in UnitWordEnds(t, i) <==> FootWord(t, i, v)
  {
  }

  /** Whatever `at(j)` lists for `lo <= j <= i` is among the spread ends. */
  lemma {:induction false} SpreadHas(at: nat -> seq<nat>, lo: nat, i: nat, j: nat, v: nat)
    requires lo <= j <= i && v in at(j)
    ensures v in Spread(at, lo, i)
    decreases i
  {
    if j < i {
      SpreadHas(at, lo, i - 1, j, v);
    }
  }

  /** Every spread end is listed by `at(j)` for some `lo <= j <= i`. */
  lemma {:induction false} SpreadOf(at: nat -> seq<nat>, lo: nat, i: nat, v: nat) returns (j: nat)
    requires lo <= i && v in Spread(at, lo, i)
    ensures lo <= j <= i && v in at(j)
    decreases i
  {
    if v in at(i) {
      j := i;
    } else {
      assert i > lo && v in Spread(at, lo, i - 1);
      j := SpreadOf(at, lo, i - 1, v);
    }
  }

  lemma SpacedWordListed(t: string, lo: nat, i: nat, j: nat, v: nat)
    requires lo <= j <= i <= |t| && FootWord(t, j, v)
    ensures v in SpacedUnitWordEnds(t, lo, i)
  {
    UnitWordEndsExact(t, j, v);
    assert WordsAt(t)(j) == UnitWordEnds(t, j);
    SpreadHas(WordsAt(t), lo, i, j, v);
  }

  lemma SpacedWordOf(t: string, lo: nat, i: nat, v: nat) returns (j: nat)
    requires lo <= i <= |t| && v in SpacedUnitWordEnds(t, lo, i)
    ensures lo <= j <= i && FootWord(t, j, v)
  {
    j := SpreadOf(WordsAt(t), lo, i, v);
    assert WordsAt(t)(j) == UnitWordEnds(t, j);
    UnitWordEndsExact(t, j, v);
  }

  lemma DottedWordListed(t: string, a: nat, b: nat, c: nat, v: nat)
    requires a <= |t| && DotOpt(t, a, b) && b <= c <= RunEnd(t, b, IsSpace) && v in UnitWordEnds(t, c)
    ensures v in DottedUnitWordEnds(t, a)
  {
    if b == a {
      PlainWordListed(t, a, c, v);
    } else {
      DotWordListed(t, a, c, v);
    }
  }

  /** A unit word after white space, with no full stop taken, is among the ends after `\.?`. */
  lemma PlainWordListed(t: string, a: nat, c: nat, v: nat)
    requires a <= |t| && a <= c <= RunEnd(t, a, IsSpace) && v in UnitWordEnds(t, c)
    ensures v in DottedUnitWordEnds(t, a)
  {
    assert v in SpacedUnitWordEnds(t, a, RunEnd(t, a, IsSpace)) by {
      SpacedHas(t, a, c, v);
    }
    DottedHasPlain(t, a, v);
  }

  /** A unit word after a full stop and white space is among the ends after `\.?`. */
  lemma DotWordListed(t: string, a: nat, c: nat, v: nat)
    requires CharAt(t, a, '.') && a + 1 <= c <= RunEnd(t, a + 1, IsSpace) && v in UnitWordEnds(t, c)
    ensures v in DottedUnitWordEnds(t, a)
  {
    assert v in SpacedUnitWordEnds(t, a + 1, RunEnd(t, a + 1, IsSpace)) by {
      SpacedHas(t, a + 1, c, v);
    }
    DottedHasDot(t, a, v);
  }

  /** A unit word after some of the white space from `lo` is among the spaced ends. */
  lemma SpacedHas(t: string, lo: nat, c: nat, v: nat)
    requires lo <= |t| && lo <= c <= RunEnd(t, lo, IsSpace) && v in UnitWordEnds(t, c)
    ensures v in SpacedUnitWordEnds(t, lo, RunEnd(t, lo, IsSpace))
  {
    assert WordsAt(t)(c) == UnitWordEnds(t, c);
    SpreadHas(WordsAt(t), lo, RunEnd(t, lo, IsSpace), c, v);
  }

  /** The ends after `\.?` include those it finds without taking a full stop. */
  lemma DottedHasPlain(t: string, a: nat, v: nat)
    requires a <= |t| && v in SpacedUnitWordEnds(t, a, RunEnd(t, a, IsSpace))
    ensures v in DottedUnitWordEnds(t, a)
  {
    DottedSplit(t, a);
    if CharAt(t, a, '.') {
      InEither(SpacedUnitWordEnds(t, a + 1, RunEnd(t, a + 1, IsSpace)), SpacedUnitWordEnds(t, a, RunEnd(t, a, IsSpace)), v);
    }
  }

  /** The ends after `\.?` include those it finds after taking a full stop. */
  lemma DottedHasDot(t: string, a: nat, v: nat)
    requires CharAt(t, a, '.') && v in SpacedUnitWordEnds(t, a + 1, RunEnd(t, a + 1, IsSpace))
    ensures v in DottedUnitWordEnds(t, a)
  {
    DottedSplit(t, a);
    InEither(SpacedUnitWordEnds(t, a + 1, RunEnd(t, a + 1, IsSpace)), SpacedUnitWordEnds(t, a, RunEnd(t, a, IsSpace)), v);
  }

  /** `\.?` adds the ends after the full stop, when there is one, in front of the others. */
  lemma DottedSplit(t: string, a: nat)
    requires a <= |t|
    ensures var plain := SpacedUnitWordEnds(t, a, RunEnd(t, a, IsSpace));
            DottedUnitWordEnds(t, a)
            == if CharAt(t, a, '.') then SpacedUnitWordEnds(t, a + 1, RunEnd(t, a + 1, IsSpace)) + plain else plain
  {
  }

  /** What either part lists, the two parts together list. */
  lemma InEither(xs: seq<nat>, ys: seq<nat>, v: nat)
    ensures (v in xs || v in ys) == (v in xs + ys)
  {
  }

  lemma DottedWordOf(t: string, a: nat, v: nat)
    requires a <= |t| && v in DottedUnitWordEnds(t, a)
    ensures DottedWordTo(t, a, v)
  {
    var b := if CharAt(t, a, '.') && v in SpacedUnitWordEnds(t, a + 1, RunEnd(t, a + 1, IsSpace)) then a + 1 else a;
    var c := SpacedWordOf(t, b, RunEnd(t, b, IsSpace), v);
    assert DottedWord(t, a, b, c, v);
  }

  /** The ends tried for `ft\.?` at `c` are exactly its readings there. */
  lemma FootEndsExact(t: string, c: nat, v: nat)
    requires c <= |t|
    ensures v in FootEnds(t, c) <==> FtDot(t, c, v)
  {
  }

  lemma SpacedFtListed(t: string, lo: nat, i: nat, c: nat, v: nat)
    requires lo <= c <= i <= |t| && FtDot(t, c, v)
    ensures v in SpacedFtEnds(t, lo, i)
  {
    FootEndsExact(t, c, v);
    assert FootsAt(t)(c) == FootEnds(t, c);
    SpreadHas(FootsAt(t), lo, i, c, v);
  }

  lemma SpacedFtOf(t: string, lo: nat, i: nat, v: nat) returns (c: nat)
    requires lo <= i <= |t| && v in SpacedFtEnds(t, lo, i)
    ensures lo <= c <= i && FtDot(t, c, v)
  {
    c := SpreadOf(FootsAt(t), lo, i, v);
    assert FootsAt(t)(c) == FootEnds(t, c);
    FootEndsExact(t, c, v);
  }

  /** Every reading of the first unit alternative is among the ends tried for it. */
  lemma SquareListed(t: string, u: nat, v: nat)
    requires u <= |t| && HasAt(t, u, "sq")
    requires DottedWordTo(t, u + 2, v) || (HasAt(t, u + 2, "uare") && DottedWordTo(t, u + 6, v))
    ensures v in SquareEnds(t, u)
  {
    var square := if HasAt(t, u + 2, "uare") then DottedUnitWordEnds(t, u + 6) else [];
    assert SquareEnds(t, u) == square + DottedUnitWordEnds(t, u + 2);
    if DottedWordTo(t, u + 2, v) {
      var b: nat, c: nat :| DottedWord(t, u + 2, b, c, v);
      WhiteRunInside(t, b, c);
      UnitWordEndsExact(t, c, v);
      DottedWordListed(t, u + 2, b, c, v);
    } else {
      var b: nat, c: nat :| DottedWord(t, u + 6, b, c, v);
      WhiteRunInside(t, b, c);
      UnitWordEndsExact(t, c, v);
      DottedWordListed(t, u + 6, b, c, v);
      assert v in square;
    }
  }

  /** Every reading of the third unit alternative is among the ends tried for it. */
  lemma SqFtListed(t: string, u: nat, v: nat, b: nat, c: nat)
    requires u <= |t| && HasAt(t, u, "sq")
    requires DotOpt(t, u + 2, b) && b <= c <= RunEnd(t, b, IsSpace) && FtDot(t, c, v)
    ensures v in SqFtEnds(t, u)
  {
    if b == u + 2 {
      SpacedFtListed(t, u + 2, RunEnd(t, u + 2, IsSpace), c, v);
      SqFtHas(t, u, v);
    } else {
      SpacedFtListed(t, u + 3, RunEnd(t, u + 3, IsSpace), c, v);
      SqFtHas(t, u, v);
    }
  }

  /** The ends after `sq\.?` include those after either choice `\.?` can make. */
  lemma SqFtHas(t: string, u: nat, v: nat)
    requires u <= |t| && HasAt(t, u, "sq")
    ensures v in SpacedFtEnds(t, u + 2, RunEnd(t, u + 2, IsSpace)) ==> v in SqFtEnds(t, u)
    ensures CharAt(t, u + 2, '.') && v in SpacedFtEnds(t, u + 3, RunEnd(t, u + 3, IsSpace)) ==> v in SqFtEnds(t, u)
  {
  }

  /** Every reading of the unit phrase is among the ends the matcher tries. */
  lemma UnitPhraseListed(t: string, u: nat, v: nat)
    requires u <= |t| && UnitPhraseAt(t, u, v)
    ensures v in UnitEnds(t, u)
  {
    var square, foot, sqft := SquareEnds(t, u), FootEnds(t, u), SqFtEnds(t, u);
    assert UnitEnds(t, u) == square + foot + sqft;
    if HasAt(t, u, "sq") && (DottedWordTo(t, u + 2, v) || (HasAt(t, u + 2, "uare") && DottedWordTo(t, u + 6, v))) {
      SquareListed(t, u, v);
      assert v in square;
    } else if FtDot(t, u, v) {
      FootEndsExact(t, u, v);
      assert v in foot;
    } else {
      var b: nat, c: nat :| DotOpt(t, u + 2, b) && WhiteRun(t, b, c) && FtDot(t, c, v);
      WhiteRunInside(t, b, c);
      SqFtListed(t, u, v, b, c);
      assert v in sqft;
    }
  }

  /** Every end the matcher tries is a reading of the unit phrase. */
  lemma UnitEndsRead(t: string, u: nat, v: nat)
    requires u <= |t| && v in UnitEnds(t, u)
    ensures UnitPhraseAt(t, u, v)
  {
    if v in SquareEnds(t, u) {
      if HasAt(t, u + 2, "uare") && v in DottedUnitWordEnds(t, u + 6) {
        DottedWordOf(t, u + 6, v);
      } else {
        DottedWordOf(t, u + 2, v);
      }
    } else if v in FootEnds(t, u) {
      assert FtDot(t, u, v);
    } else {
      var b := if CharAt(t, u + 2, '.') && v in SpacedFtEnds(t, u + 3, RunEnd(t, u + 3, IsSpace)) then u + 3 else u + 2;
      var c := SpacedFtOf(t, b, RunEnd(t, b, IsSpace), v);
      assert DotOpt(t, u + 2, b) && WhiteRun(t, b, c);
    }
  }

  /**
   * The ends the matcher tries for the unit phrase at `u` are exactly the
   * ends at which the unit alternation of the pattern can stop.
   */
  lemma UnitEndsExact(t: string, u: nat, v: nat)
    requires u <= |t|
    ensures v in UnitEnds(t, u) <==> UnitPhraseAt(t, u, v)
  {
    if v in UnitEnds(t, u) {
      UnitEndsRead(t, u, v);
    }
    if UnitPhraseAt(t, u, v) {
      UnitPhraseListed(t, u, v);
    }
  }

  /** `(?:\)|\b)` at `i`: a closing parenthesis is consumed, a word boundary is not. */
  function Close(t: string, i: nat): (r: Option<nat>)
    requires i <= |t|
    ensures r.Some? <==> CharAt(t, i, ')') || Boundary(t, i)
    ensures r.Some? ==> i <= r.value <= |t|
  {
    if CharAt(t, i, ')') then Some(i + 1) else if Boundary(t, i) then Some(i) else None
  }

  /** The end of the match for the first candidate end at which the closing succeeds. */
  function FirstClose(t: string, ends: seq<nat>, lo: nat): (r: Option<nat>)
    requires forall k :: 0 <= k < |ends| ==> lo <= ends[k] <= |t|
    ensures r.Some? ==> lo <= r.value <= |t|
    ensures r.None? <==> forall k :: 0 <= k < |ends| ==> Close(t, ends[k]).None?
    ensures r.Some? ==> exists k :: 0 <= k < |ends| && Close(t, ends[k]) == r
                         && forall j :: 0 <= j < k ==> Close(t, ends[j]).None?
  {
    if ends == [] then None
    else if Close(t, ends[0]).Some? then Close(t, ends[0])
    else
      var r := FirstClose(t, ends[1..], lo);
      assert forall k :: 1 <= k < |ends| ==> ends[k] == ends[1..][k - 1];
      r
  }

  /** A unit phrase starts after the white space that follows position `e`. */
  predicate UnitFollows(t: string, e: nat)
    requires e <= |t|
  {
    var u := RunEnd(t, e, IsSpace);
    HasAt(t, u, "sq") || HasAt(t, u, "ft")
  }

  /**
   * `\s*`, the unit phrase and the closing after a number token that ends at
   * `e`. The white space is taken whole: a shorter choice leaves a white-space
   * character where the unit phrase would have to start with `s` or `f`.
   */
  function TailEnd(t: string, e: nat): (r: Option<nat>)
    requires e <= |t|
    ensures r.Some? ==> e + 2 <= r.value <= |t| && UnitFollows(t, e)
  {
    var u := RunEnd(t, e, IsSpace);
    FirstClose(t, UnitEnds(t, u), u + 2)
  }

  /** The first alternative of the number token from `p`, with the tail after it. */
  function NumeralHit(t: string, p: nat): (h: Option<Hit>)
    requires p < |t| && IsDigit(t[p])
    ensures h.Some? ==> h.value.start == p && p < h.value.tokenEnd <= |t| && IsNumeral(t[p..h.value.tokenEnd])
    ensures h.Some? ==> TailEnd(t, h.value.tokenEnd) == Some(h.value.end)
  {
    var q := NumeralEnd(t, p);
    match TailEnd(t, q)
    case Some(end) => Some(Hit(p, q, end))
    case None => None
  }

  /** `\w+` from `p`, backtracking from the end `e` of the word down to one character. */
  function WordHit(t: string, p: nat, e: nat): (h: Option<Hit>)
    requires p < e <= |t|
    requires forall k :: p <= k < e ==> IsWordChar(t[k])
    ensures h.Some? ==> h.value.start == p && p < h.value.tokenEnd <= e
    ensures h.Some? ==> TailEnd(t, h.value.tokenEnd) == Some(h.value.end)
    ensures h.Some? ==> NoneAccepted(TailAccepts(t), h.value.tokenEnd, e)
    ensures h.None? ==> NoneAccepted(TailAccepts(t), p, e)
    decreases e - p
  {
    match TailEnd(t, e)
    case Some(end) => Some(Hit(p, e, end))
    case None => if e - 1 > p then WordHit(t, p, e - 1) else None
  }

  /** The tail of the pattern succeeds after a number token that ends at `x`. */
  function TailAccepts(t: string): nat -> bool {
    (x: nat) => x <= |t| && TailEnd(t, x).Some?
  }

  /** `accepts` holds at no position in `(lo, hi]`. */
  predicate NoneAccepted(accepts: nat -> bool, lo: nat, hi: nat)
    decreases hi
  {
    hi <= lo || (!accepts(hi) && NoneAccepted(accepts, lo, hi - 1))
  }

  lemma {:induction false} NoneAcceptedAt(accepts: nat -> bool, lo: nat, hi: nat, x: nat)
    ensures NoneAccepted(accepts, lo, hi) && lo < x <= hi ==> !accepts(x)
    decreases hi
  {
    if lo < x < hi && NoneAccepted(accepts, lo, hi) {
      NoneAcceptedAt(accepts, lo, hi - 1, x);
    }
  }

  /**
   * The match whose number token starts at `p`, if any. Both openings of the
   * pattern put the token on a word start: `\b` directly, and `\(` because
   * the token's first character is a word character and `(` is not.
   */
  function MatchAt(t: string, p: nat): (h: Option<Hit>)
    ensures h.Some? ==> WordStart(t, p) && h.value.start == p
    ensures h.Some? ==> p < h.value.tokenEnd && h.value.tokenEnd + 2 <= h.value.end <= |t|
    ensures h.Some? ==> IsNumeral(t[p..h.value.tokenEnd]) || forall k :: p <= k < h.value.tokenEnd ==> IsWordChar(t[k])
    ensures h.Some? ==> UnitFollows(t, h.value.tokenEnd)
  {
    if !WordStart(t, p) then None
    else
      var numeral := if IsDigit(t[p]) then NumeralHit(t, p) else None;
      if numeral.Some? then numeral
      else WordHit(t, p, RunEnd(t, p, IsWordChar))
  }

  /** A unit phrase starts with a letter, so white space before it is taken whole. */
  lemma SpaceBeforeUnit(t: string, e: nat, u: nat, v: nat)
    requires WhiteRun(t, e, u) && UnitPhraseAt(t, u, v)
    ensures RunEnd(t, e, IsSpace) == u
  {
    if HasAt(t, u, "sq") {
      assert Lower(t[u + 0]) == "sq"[0];
    } else {
      assert HasAt(t, u, "ft");
      assert Lower(t[u + 0]) == "ft"[0];
    }
    assert !IsSpace(t[u]);
    RunEndUnique(t, e, IsSpace, u);
  }

  /** White space, a unit phrase and a closing after it: the tail of the pattern succeeds. */
  lemma TailFound(t: string, e: nat, u: nat, v: nat)
    requires WhiteRun(t, e, u) && UnitPhraseAt(t, u, v) && v <= |t| && Close(t, v).Some?
    ensures TailEnd(t, e).Some?
  {
    SpaceBeforeUnit(t, e, u, v);
    UnitPhraseListed(t, u, v);
    var ends := UnitEnds(t, u);
    var k :| 0 <= k < |ends| && ends[k] == v;
    assert Close(t, ends[k]).Some?;
  }

  /** `sq`, white space and `ft` from `u`, with neither `uare` nor a full stop after `sq`; `ft` starts at `c`. */
  predicate SqSpaceFt(t: string, u: nat, c: nat) {
    && HasAt(t, u, "sq") && !HasAt(t, u + 2, "uare") && !CharAt(t, u + 2, '.')
    && RunEnd(t, u + 2, IsSpace) == c && HasAt(t, c, "ft")
  }

  /**
   * `sq`, white space and `ft`, with neither `uare` nor a full stop after
   * `sq`: the first end the matcher tries is just after `ft`.
   */
  lemma SqSpaceFtFirst(t: string, u: nat, c: nat)
    requires SqSpaceFt(t, u, c)
    ensures UnitEnds(t, u) != [] && UnitEnds(t, u)[0] == c + 2
  {
    var first := UnitWordEnds(t, c);
    assert first[0] == c + 2;
    var spaced := SpacedUnitWordEnds(t, u + 2, c);
    assert c > u + 2 ==> spaced == first + SpacedUnitWordEnds(t, u + 2, c - 1);
    assert DottedUnitWordEnds(t, u + 2) == spaced;
    assert SquareEnds(t, u) == spaced;
    assert UnitEnds(t, u) == SquareEnds(t, u) + FootEnds(t, u) + SqFtEnds(t, u);
  }

  /** When the closing succeeds after the first end tried, the tail ends there. */
  lemma TailAtFirstEnd(t: string, e: nat, u: nat, x: nat)
    requires e <= |t| && RunEnd(t, e, IsSpace) == u
    requires UnitEnds(t, u) != [] && UnitEnds(t, u)[0] == x && x <= |t| && Close(t, x).Some?
    ensures TailEnd(t, e) == Close(t, x)
  {
    FirstCloseHead(t, UnitEnds(t, u), u + 2);
  }

  lemma FirstCloseHead(t: string, ends: seq<nat>, lo: nat)
    requires forall k :: 0 <= k < |ends| ==> lo <= ends[k] <= |t|
    requires ends != [] && Close(t, ends[0]).Some?
    ensures FirstClose(t, ends, lo) == Close(t, ends[0])
  {
  }

  /**
   * `sq`, white space and `ft` (with neither `uare` nor a full stop after
   * `sq`) followed by a closing: the tail ends where that closing ends.
   */
  lemma SqSpaceFtTail(t: string, e: nat, u: nat, c: nat)
    requires e <= |t| && RunEnd(t, e, IsSpace) == u
    requires SqSpaceFt(t, u, c) && Close(t, c + 2).Some?
    ensures TailEnd(t, e) == Close(t, c + 2)
  {
    SqSpaceFtFirst(t, u, c);
    TailAtFirstEnd(t, e, u, c + 2);
  }

  /**
   * A numeral at a word start followed by `sq`, white space and `ft` (with
   * neither `uare` nor a full stop after `sq`) and a word boundary: the
   * match is the numeral as its token, ending just after `ft`.
   */
  lemma NumeralSqFtMatch(t: string, p: nat, u: nat, c: nat)
    requires WordStart(t, p) && IsDigit(t[p])
    requires RunEnd(t, NumeralEnd(t, p), IsSpace) == u
    requires SqSpaceFt(t, u, c) && Close(t, c + 2) == Some(c + 2)
    ensures MatchAt(t, p) == Some(Hit(p, NumeralEnd(t, p), c + 2))
  {
    SqSpaceFtFirst(t, u, c);
    NumeralFirstEnd(t, p, u, c + 2);
  }

  /**
   * A numeral at a word start whose tail closes after the first unit end
   * tried: the match is the numeral, ending where that closing ends.
   */
  lemma NumeralFirstEnd(t: string, p: nat, u: nat, x: nat)
    requires WordStart(t, p) && IsDigit(t[p]) && RunEnd(t, NumeralEnd(t, p), IsSpace) == u
    requires UnitEnds(t, u) != [] && UnitEnds(t, u)[0] == x && x <= |t| && Close(t, x).Some?
    ensures MatchAt(t, p) == Some(Hit(p, NumeralEnd(t, p), Close(t, x).value))
  {
    var q := NumeralEnd(t, p);
    TailAtFirstEnd(t, q, u, x);
    NumeralHitFirst(t, p, Hit(p, q, Close(t, x).value));
  }

  /** At a word start with a digit, a numeral with a tail is the match. */
  lemma NumeralHitFirst(t: string, p: nat, h: Hit)
    requires WordStart(t, p) && IsDigit(t[p])
    requires h.start == p && h.tokenEnd == NumeralEnd(t, p) && TailEnd(t, h.tokenEnd) == Some(h.end)
    ensures MatchAt(t, p) == Some(h)
  {
    assert NumeralHit(t, p) == Some(h);
  }

  /**
   * A numeral directly followed by a digit (as `123` in `1234`, where
   * `\d{1,3}` stops after three digits) has no unit after it, so the numeral
   * alternative fails there.
   */
  lemma NumeralBeforeDigit(t: string, p: nat)
    requires p < |t| && IsDigit(t[p])
    requires NumeralEnd(t, p) < |t| && IsDigit(t[NumeralEnd(t, p)])
    ensures NumeralHit(t, p).None?
  {
    var q := NumeralEnd(t, p);
    RunEndUnique(t, q, IsSpace, q);
    assert !UnitFollows(t, q) by {
      assert Lower(t[q + 0]) != "sq"[0] && Lower(t[q + 0]) != "ft"[0];
    }
  }

  /** When the numeral alternative fails at a word start, the `\w+` alternative decides the match. */
  lemma WordHitSecond(t: string, p: nat, h: Hit)
    requires p < |t| && WordStart(t, p) && (IsDigit(t[p]) ==> NumeralHit(t, p).None?)
    requires WordHit(t, p, RunEnd(t, p, IsWordChar)) == Some(h)
    ensures MatchAt(t, p) == Some(h)
  {
  }

  /**
   * A numeral at a word start, followed by white space, a unit phrase and a
   * closing: the pattern matches there, and its token is the whole numeral.
   */
  lemma NumeralUnitFound(t: string, p: nat, u: nat, v: nat)
    requires WordStart(t, p) && IsDigit(t[p])
    requires WhiteRun(t, NumeralEnd(t, p), u) && UnitPhraseAt(t, u, v) && v <= |t| && Close(t, v).Some?
    ensures MatchAt(t, p) == NumeralHit(t, p) && MatchAt(t, p).Some?
    ensures MatchAt(t, p).value.tokenEnd == NumeralEnd(t, p)
  {
    TailFound(t, NumeralEnd(t, p), u, v);
  }

  /**
   * A word at a word start, followed by white space, a unit phrase and a
   * closing: the pattern matches there, and unless the numeral alternative
   * matches first the token reaches at least as far as that word.
   */
  lemma WordUnitFound(t: string, p: nat, e: nat, u: nat, v: nat)
    requires WordStart(t, p) && p < e <= |t| && (forall k :: p <= k < e ==> IsWordChar(t[k]))
    requires WhiteRun(t, e, u) && UnitPhraseAt(t, u, v) && v <= |t| && Close(t, v).Some?
    ensures MatchAt(t, p).Some?
    ensures (!IsDigit(t[p]) || NumeralHit(t, p).None?) ==> e <= MatchAt(t, p).value.tokenEnd
  {
    TailFound(t, e, u, v);
    var w := RunEnd(t, p, IsWordChar);
    RunCovers(t, p, e, IsWordChar);
    var h := WordHit(t, p, w);
    if h.Some? {
      NoneAcceptedAt(TailAccepts(t), h.value.tokenEnd, w, e);
    } else {
      NoneAcceptedAt(TailAccepts(t), p, w, e);
    }
  }

  /** The first position from `p` up to `n` at which `at` finds something. */
  function FirstFound(at: nat -> Option<Hit>, p: nat, n: nat): (q: Option<nat>)
    ensures q.Some? ==> p <= q.value <= n && at(q.value).Some?
    decreases n + 1 - p
  {
    if p > n then None
    else if at(p).Some? then Some(p)
    else FirstFound(at, p + 1, n)
  }

  /** When `FirstFound` finds nothing, `at` finds nothing anywhere from `p` to `n`. */
  lemma {:induction false} FirstFoundNone(at: nat -> Option<Hit>, p: nat, n: nat)
    requires FirstFound(at, p, n).None?
    ensures forall q :: p <= q <= n ==> at(q).None?
    decreases n + 1 - p
  {
    if p <= n {
      FirstFoundNone(at, p + 1, n);
    }
  }

  /** `at` finds nothing at the positions `FirstFound` passes over. */
  lemma {:induction false} FirstFoundSkips(at: nat -> Option<Hit>, p: nat, n: nat)
    requires FirstFound(at, p, n).Some?
    ensures forall q :: p <= q < FirstFound(at, p, n).value ==> at(q).None?
    decreases n + 1 - p
  {
    if at(p).None? {
      FirstFoundSkips(at, p + 1, n);
    }
  }

  /** `MatchAt` on `t` as a function of the position. */
  function MatchesIn(t: string): nat -> Option<Hit> {
    (q: nat) => MatchAt(t, q)
  }

  /** The match at the first token start at or after `p` that has one. */
  function FirstHit(t: string, p: nat): (h: Option<Hit>)
    ensures h.Some? ==> p <= h.value.start < |t| && MatchAt(t, h.value.start) == h
  {
    var q := FirstFound(MatchesIn(t), p, |t|);
    if q.None? then None else MatchAt(t, q.value)
  }

  /**
   * `m` is a match found from `lastIndex`: it lies inside `t` at or after
   * `lastIndex`, spans at least three characters, and its first group is a
   * non-empty stretch of it that starts with a word character and is
   * followed by at least two more characters of the match.
   */
  predicate Placed(t: string, lastIndex: nat, m: Match) {
    lastIndex <= m.index <= m.groupIndex
    && m.groupIndex + |m.group| + 2 <= m.index + |m.lexeme| <= |t|
    && |m.lexeme| >= 3
    && t[m.index..m.index + |m.lexeme|] == m.lexeme
    && t[m.groupIndex..m.groupIndex + |m.group|] == m.group
    && m.group != [] && IsWordChar(m.group[0])
  }

  /**
   * The `exec` result for the hit `h` found from `lastIndex`. A token
   * preceded by `(` at or after `lastIndex` is reached through the `\(`
   * opening one position earlier, so `match.index` is that of the
   * parenthesis; the end of the match is the same either way.
   */
  function MatchOf(t: string, lastIndex: nat, h: Hit): (m: Match)
    requires lastIndex <= h.start < h.tokenEnd && h.tokenEnd + 2 <= h.end <= |t|
    requires IsWordChar(t[h.start])
    ensures Placed(t, lastIndex, m)
    ensures m.groupIndex == h.start && m.groupIndex + |m.group| == h.tokenEnd && m.index + |m.lexeme| == h.end
    ensures m.index < m.groupIndex <==> h.start > lastIndex && t[h.start - 1] == '('
    ensures m.index < m.groupIndex ==> m.index + 1 == m.groupIndex
  {
    var index := if h.start > lastIndex && t[h.start - 1] == '(' then h.start - 1 else h.start;
    Match(index, t[index..h.end], h.start, t[h.start..h.tokenEnd])
  }

  /**
   * `regex.exec(text)` with `regex.lastIndex == lastIndex`; past the end of
   * the text it finds nothing. A match found lies at or after `lastIndex` and
   * is at least three characters long, so resuming at its end makes
   * progress; `ExecPlaced` says where it lies.
   */
  function Exec(t: string, lastIndex: nat): (m: Option<Match>)
    ensures m.Some? ==> lastIndex <= m.value.index && m.value.index + |m.value.lexeme| <= |t|
    ensures m.Some? ==> |m.value.lexeme| >= 3
  {
    if lastIndex > |t| then None
    else
      var found := FirstHit(t, lastIndex);
      if found.None? then None else Some(MatchOf(t, lastIndex, found.value))
  }

  /**
   * Where a match found from `lastIndex` lies, and that its token is
   * followed, after white space, by `sq` or `ft` (ignoring case).
   */
  lemma ExecPlaced(t: string, lastIndex: nat)
    requires lastIndex <= |t|
    ensures Exec(t, lastIndex).Some? ==> Placed(t, lastIndex, Exec(t, lastIndex).value)
    ensures Exec(t, lastIndex).Some? ==>
              GroupEnd(Exec(t, lastIndex).value) <= |t| && UnitFollows(t, GroupEnd(Exec(t, lastIndex).value))
  {
    if Exec(t, lastIndex).Some? {
      var m := Exec(t, lastIndex).value;
      var h := ExecHit(t, lastIndex, m);
      HitUnitFollows(t, h, GroupEnd(m));
    }
  }

  /** A match `exec` reports comes from the hit `FirstHit` finds. */
  lemma ExecHit(t: string, lastIndex: nat, m: Match) returns (h: Hit)
    requires lastIndex <= |t| && Exec(t, lastIndex) == Some(m)
    ensures lastIndex <= h.start && MatchAt(t, h.start) == Some(h)
    ensures m == MatchOf(t, lastIndex, h) && GroupEnd(m) == h.tokenEnd
  {
    h := FirstHit(t, lastIndex).value;
  }

  /** A unit follows the token of every hit. */
  lemma HitUnitFollows(t: string, h: Hit, e: nat)
    requires MatchAt(t, h.start) == Some(h) && e == h.tokenEnd
    ensures e <= |t| && UnitFollows(t, e)
  {
  }

  /**
   * `exec` reports the leftmost match: it finds nothing exactly when no
   * position from `lastIndex` on starts a match, and otherwise the token it
   * reports is the first one that does.
   */
  lemma ExecIsLeftmost(t: string, lastIndex: nat)
    requires lastIndex <= |t|
    ensures Exec(t, lastIndex).None? <==> forall q :: lastIndex <= q <= |t| ==> MatchAt(t, q).None?
    ensures Exec(t, lastIndex).Some? ==>
              var m := Exec(t, lastIndex).value;
              MatchAt(t, m.groupIndex).Some?
              && MatchAt(t, m.groupIndex).value.end == m.index + |m.lexeme|
              && forall q :: lastIndex <= q < m.groupIndex ==> MatchAt(t, q).None?
  {
    var at := MatchesIn(t);
    var found := FirstFound(at, lastIndex, |t|);
    if found.None? {
      FirstFoundNone(at, lastIndex, |t|);
      forall q | lastIndex <= q <= |t|
        ensures MatchAt(t, q).None?
      {
        assert at(q) == MatchAt(t, q);
      }
    } else {
      FirstFoundSkips(at, lastIndex, |t|);
      forall q | lastIndex <= q < found.value
        ensures MatchAt(t, q).None?
      {
        assert at(q) == MatchAt(t, q);
      }
      assert Exec(t, lastIndex).value.groupIndex == found.value;
    }
  }
}
