/**
 * `extractAllMatches(regex, text)` of content.js: the loop that runs a global
 * pattern over the OCR text and keeps every number token that parses. The
 * loop only uses the pattern through `exec`, so it is modelled for any
 * `exec` that advances; `SqftPattern.Exec` is the one content.js passes.
 */
module Scanner {
  import opened Wrappers
  import opened Chars
  import opened Numbers
  import opened SqftPattern

  /** `maxIterations`: the loop stops after its 10001st match at the latest. */
  const MaxIterations: nat := 10000

  /** Where `regex.lastIndex` is set after the match `m`. */
  function End(m: Match): nat {
    m.index + |m.lexeme|
  }

  /**
   * `exec` finds matches at or after `lastIndex`, inside the text, and at
   * least three characters long, so the loop moves forward on every turn.
   */
  ghost predicate Advances(exec: (string, nat) -> Option<Match>) {
    forall t: string, lastIndex: nat :: exec(t, lastIndex).Some? ==>
      var m := exec(t, lastIndex).value;
      lastIndex <= m.index && End(m) <= |t| && |m.lexeme| >= 3
  }

  lemma ExecAdvances()
    ensures Advances(Exec)
  {
  }

  /**
   * The matches the loop processes when it calls `exec` at `lastIndex` after
   * `iterationCount` turns: each match found is processed, and the loop stops
   * once `exec` finds nothing or the count exceeds `MaxIterations`.
   */
  function MatchesFrom(exec: (string, nat) -> Option<Match>, t: string, lastIndex: nat, iterationCount: nat): (ms: seq<Match>)
    requires Advances(exec) && lastIndex <= |t| && iterationCount <= MaxIterations
    ensures |ms| <= MaxIterations + 1 - iterationCount
    decreases |t| - lastIndex
  {
    match exec(t, lastIndex)
    case None => []
    case Some(m) =>
      if iterationCount + 1 > MaxIterations then [m]
      else [m] + MatchesFrom(exec, t, End(m), iterationCount + 1)
  }

  /** Every match the loop processes on `text`. */
  function Matches(exec: (string, nat) -> Option<Match>, text: string): seq<Match>
    requires Advances(exec)
  {
    MatchesFrom(exec, text, 0, 0)
  }

  /**
   * The number a match contributes: its first group with the commas removed,
   * through `parseFloat`. It is a number exactly when the token, commas
   * removed, starts like one, and it is never negative; `NumeralTokenValue`
   * gives the value of a numeral.
   */
  function TokenValue(m: Match): (r: Option<real>)
    ensures r.Some? <==> StartsNumber(RemoveCommas(m.group))
    ensures r.Some? ==> r.value >= 0.0
  {
    ParseNumber(RemoveCommas(m.group))
  }

  /**
   * The values kept after processing `m`: the token's value is pushed when
   * it is not `NaN`, and a token that does not parse is skipped.
   */
  function Kept(matches: seq<real>, m: Match): (r: seq<real>)
    ensures matches <= r && |r| <= |matches| + 1
    ensures |r| == |matches| + 1 <==> TokenValue(m).Some?
    ensures |r| == |matches| + 1 ==> r[|matches|] == TokenValue(m).value
  {
    if TokenValue(m).Some? then matches + [TokenValue(m).value] else matches
  }

  /**
   * What the loop returns when it reaches `exec` at `lastIndex` after
   * `iterationCount` turns holding `matches`. It only ever appends, at most
   * once per remaining turn.
   */
  function ScanFrom(exec: (string, nat) -> Option<Match>, t: string, lastIndex: nat, iterationCount: nat, matches: seq<real>): (r: seq<real>)
    requires Advances(exec) && lastIndex <= |t| && iterationCount <= MaxIterations
    ensures matches <= r
    ensures |r| <= |matches| + MaxIterations + 1 - iterationCount
    decreases |t| - lastIndex
  {
    match exec(t, lastIndex)
    case None => matches
    case Some(m) =>
      if iterationCount + 1 > MaxIterations then Kept(matches, m)
      else ScanFrom(exec, t, End(m), iterationCount + 1, Kept(matches, m))
  }

  /** The array `extractAllMatches` returns for `text`. */
  function Candidates(exec: (string, nat) -> Option<Match>, text: string): seq<real>
    requires Advances(exec)
  {
    ScanFrom(exec, text, 0, 0, [])
  }

  /**
   * The scan loop: `exec` from `lastIndex`, keep the token's value when it
   * parses, resume at the end of the match, stop when `exec` finds nothing or
   * after `MaxIterations + 1` matches.
   */
  method ExtractAllMatches(exec: (string, nat) -> Option<Match>, text: string) returns (matches: seq<real>)
    requires Advances(exec)
    ensures matches == Candidates(exec, text)
    ensures |matches| <= MaxIterations + 1
  {
    matches := [];
    var lastIndex := 0;
    var iterationCount := 0;
    ghost var all := Candidates(exec, text);
    while true
      invariant lastIndex <= |text| && iterationCount <= MaxIterations
      invariant ScanFrom(exec, text, lastIndex, iterationCount, matches) == all
      decreases |text| - lastIndex
    {
      var found := exec(text, lastIndex);
      if found.None? {
        break;
      }
      var m := found.value;
      matches := Kept(matches, m);
      lastIndex := End(m);
      iterationCount := iterationCount + 1;
      if iterationCount > MaxIterations {
        break;
      }
    }
  }

  /** The values of the matches whose token parses, in order; the others are dropped. */
  function Parsed(ms: seq<Match>): seq<real> {
    if ms == [] then []
    else (if TokenValue(ms[0]).Some? then [TokenValue(ms[0]).value] else []) + Parsed(ms[1..])
  }

  lemma ParsedCons(matches: seq<real>, m: Match, rest: seq<Match>)
    ensures matches + Parsed([m] + rest) == Kept(matches, m) + Parsed(rest)
  {
    assert ([m] + rest)[1..] == rest;
    if TokenValue(m).Some? {
      var v := TokenValue(m).value;
      assert Parsed([m] + rest) == [v] + Parsed(rest);
      assert matches + ([v] + Parsed(rest)) == (matches + [v]) + Parsed(rest);
    } else {
      assert Parsed([m] + rest) == Parsed(rest);
    }
  }

  lemma ScanFromNext(exec: (string, nat) -> Option<Match>, t: string, lastIndex: nat, iterationCount: nat, matches: seq<real>, m: Match)
    requires Advances(exec) && lastIndex <= |t| && iterationCount < MaxIterations && exec(t, lastIndex) == Some(m)
    requires ScanFrom(exec, t, End(m), iterationCount + 1, Kept(matches, m))
             == Kept(matches, m) + Parsed(MatchesFrom(exec, t, End(m), iterationCount + 1))
    ensures ScanFrom(exec, t, lastIndex, iterationCount, matches) == matches + Parsed(MatchesFrom(exec, t, lastIndex, iterationCount))
  {
    ParsedCons(matches, m, MatchesFrom(exec, t, End(m), iterationCount + 1));
  }

  lemma ScanFromLast(exec: (string, nat) -> Option<Match>, t: string, lastIndex: nat, iterationCount: nat, matches: seq<real>, m: Match)
    requires Advances(exec) && lastIndex <= |t| && iterationCount == MaxIterations && exec(t, lastIndex) == Some(m)
    ensures ScanFrom(exec, t, lastIndex, iterationCount, matches) == matches + Parsed(MatchesFrom(exec, t, lastIndex, iterationCount))
  {
    ParsedCons(matches, m, []);
    assert [m] + [] == [m];
    assert Kept(matches, m) + [] == Kept(matches, m);
  }

  /** The loop's result is the values of the matches it processes, the tokens that do not parse dropped. */
  lemma {:induction false} ScanFromParsed(exec: (string, nat) -> Option<Match>, t: string, lastIndex: nat, iterationCount: nat, matches: seq<real>)
    requires Advances(exec) && lastIndex <= |t| && iterationCount <= MaxIterations
    ensures ScanFrom(exec, t, lastIndex, iterationCount, matches) == matches + Parsed(MatchesFrom(exec, t, lastIndex, iterationCount))
    decreases |t| - lastIndex
  {
    match exec(t, lastIndex)
    case None =>
      assert matches + [] == matches;
    case Some(m) =>
      if iterationCount == MaxIterations {
        ScanFromLast(exec, t, lastIndex, iterationCount, matches, m);
      } else {
        ScanFromParsed(exec, t, End(m), iterationCount + 1, Kept(matches, m));
        ScanFromNext(exec, t, lastIndex, iterationCount, matches, m);
      }
  }

  lemma CandidatesAreParsedMatches(exec: (string, nat) -> Option<Match>, text: string)
    requires Advances(exec)
    ensures Candidates(exec, text) == Parsed(Matches(exec, text))
  {
    ScanFromParsed(exec, text, 0, 0, []);
    assert [] + Parsed(Matches(exec, text)) == Parsed(Matches(exec, text));
  }

  /** Where the loop calls `exec` for its `i`-th match: `lastIndex` first, then the end of the previous match. */
  function ResumeAt(lastIndex: nat, ms: seq<Match>, i: nat): nat
    requires i <= |ms|
  {
    if i == 0 then lastIndex else End(ms[i - 1])
  }

  /**
   * Each match the loop processes is what `exec` finds from where the
   * previous one ended, and a list shorter than the cap ends because `exec`
   * found nothing more.
   */
  ghost predicate Chained(exec: (string, nat) -> Option<Match>, t: string, lastIndex: nat, iterationCount: nat, ms: seq<Match>) {
    && (forall i :: 0 <= i < |ms| ==> exec(t, ResumeAt(lastIndex, ms, i)) == Some(ms[i]))
    && (|ms| < MaxIterations + 1 - iterationCount ==> exec(t, ResumeAt(lastIndex, ms, |ms|)).None?)
  }

  lemma ResumeShift(lastIndex: nat, m: Match, rest: seq<Match>, i: nat)
    requires 1 <= i <= |rest| + 1
    ensures ResumeAt(lastIndex, [m] + rest, i) == ResumeAt(End(m), rest, i - 1)
    ensures i <= |rest| ==> ([m] + rest)[i] == rest[i - 1]
  {
  }

  lemma ChainNext(exec: (string, nat) -> Option<Match>, t: string, lastIndex: nat, iterationCount: nat, m: Match, rest: seq<Match>)
    requires exec(t, lastIndex) == Some(m)
    requires Chained(exec, t, End(m), iterationCount + 1, rest)
    ensures Chained(exec, t, lastIndex, iterationCount, [m] + rest)
  {
    var ms := [m] + rest;
    forall i | 0 <= i < |ms|
      ensures exec(t, ResumeAt(lastIndex, ms, i)) == Some(ms[i])
    {
      if i > 0 {
        ResumeShift(lastIndex, m, rest, i);
      }
    }
    ResumeShift(lastIndex, m, rest, |ms|);
  }

  lemma ChainStops(exec: (string, nat) -> Option<Match>, t: string, lastIndex: nat, iterationCount: nat)
    requires exec(t, lastIndex).None?
    ensures Chained(exec, t, lastIndex, iterationCount, [])
  {
  }

  lemma ChainCapped(exec: (string, nat) -> Option<Match>, t: string, lastIndex: nat, iterationCount: nat, m: Match)
    requires exec(t, lastIndex) == Some(m) && iterationCount == MaxIterations
    ensures Chained(exec, t, lastIndex, iterationCount, [m])
  {
    assert ResumeAt(lastIndex, [m], 0) == lastIndex;
  }

  lemma {:induction false} MatchesChained(exec: (string, nat) -> Option<Match>, t: string, lastIndex: nat, iterationCount: nat)
    requires Advances(exec) && lastIndex <= |t| && iterationCount <= MaxIterations
    ensures Chained(exec, t, lastIndex, iterationCount, MatchesFrom(exec, t, lastIndex, iterationCount))
    decreases |t| - lastIndex
  {
    var found := exec(t, lastIndex);
    if found.Some? && iterationCount + 1 <= MaxIterations {
      MatchesChained(exec, t, End(found.value), iterationCount + 1);
    }
    ChainStep(exec, t, lastIndex, iterationCount);
  }

  /** One turn of the loop keeps the chain, given the chain of the turns after it. */
  lemma ChainStep(exec: (string, nat) -> Option<Match>, t: string, lastIndex: nat, iterationCount: nat)
    requires Advances(exec) && lastIndex <= |t| && iterationCount <= MaxIterations
    requires exec(t, lastIndex).Some? && iterationCount + 1 <= MaxIterations ==>
               var next := End(exec(t, lastIndex).value);
               Chained(exec, t, next, iterationCount + 1, MatchesFrom(exec, t, next, iterationCount + 1))
    ensures Chained(exec, t, lastIndex, iterationCount, MatchesFrom(exec, t, lastIndex, iterationCount))
  {
    match exec(t, lastIndex)
    case None =>
      ChainStops(exec, t, lastIndex, iterationCount);
    case Some(m) =>
      if iterationCount + 1 <= MaxIterations {
        ChainNext(exec, t, lastIndex, iterationCount, m, MatchesFrom(exec, t, End(m), iterationCount + 1));
      } else {
        ChainCapped(exec, t, lastIndex, iterationCount, m);
      }
  }

  /**
   * The matches lie in order inside the text without overlapping, each at
   * least three characters long, so there are at most a third as many as
   * characters left.
   */
  lemma {:induction false} MatchesOrdered(exec: (string, nat) -> Option<Match>, t: string, lastIndex: nat, iterationCount: nat)
    requires Advances(exec) && lastIndex <= |t| && iterationCount <= MaxIterations
    ensures var ms := MatchesFrom(exec, t, lastIndex, iterationCount);
            && (forall i :: 0 <= i < |ms| ==> lastIndex <= ms[i].index && End(ms[i]) <= |t| && |ms[i].lexeme| >= 3)
            && (forall i, j :: 0 <= i < j < |ms| ==> End(ms[i]) <= ms[j].index)
            && 3 * |ms| <= |t| - lastIndex
    decreases |t| - lastIndex
  {
    match exec(t, lastIndex)
    case None =>
    case Some(m) =>
      if iterationCount + 1 <= MaxIterations {
        var rest := MatchesFrom(exec, t, End(m), iterationCount + 1);
        MatchesOrdered(exec, t, End(m), iterationCount + 1);
        var ms := [m] + rest;
        assert forall i :: 1 <= i < |ms| ==> ms[i] == rest[i - 1];
      }
  }

  /** Every kept value is the value of one of the matches. */
  lemma {:induction false} ParsedFromMatches(ms: seq<Match>, v: real)
    requires v in Parsed(ms)
    ensures exists i :: 0 <= i < |ms| && TokenValue(ms[i]) == Some(v)
  {
    var rest := ms[1..];
    var head := if TokenValue(ms[0]).Some? then [TokenValue(ms[0]).value] else [];
    assert Parsed(ms) == head + Parsed(rest);
    if v !in head {
      ParsedFromMatches(rest, v);
      var j :| 0 <= j < |rest| && TokenValue(rest[j]) == Some(v);
      assert ms[j + 1] == rest[j];
    }
  }

  /** The value of every match whose token parses is kept. */
  lemma {:induction false} MatchesInParsed(ms: seq<Match>, i: nat)
    requires i < |ms| && TokenValue(ms[i]).Some?
    ensures TokenValue(ms[i]).value in Parsed(ms)
  {
    var rest := ms[1..];
    var head := if TokenValue(ms[0]).Some? then [TokenValue(ms[0]).value] else [];
    assert Parsed(ms) == head + Parsed(rest);
    if i > 0 {
      assert rest[i - 1] == ms[i];
      MatchesInParsed(rest, i - 1);
    }
  }

  /** A value is kept exactly when it is the value of one of the matches. */
  lemma ParsedMembers(ms: seq<Match>)
    ensures forall v :: v in Parsed(ms) <==> exists i :: 0 <= i < |ms| && TokenValue(ms[i]) == Some(v)
  {
    forall v | v in Parsed(ms)
      ensures exists i :: 0 <= i < |ms| && TokenValue(ms[i]) == Some(v)
    {
      ParsedFromMatches(ms, v);
    }
    forall i | 0 <= i < |ms| && TokenValue(ms[i]).Some?
      ensures TokenValue(ms[i]).value in Parsed(ms)
    {
      MatchesInParsed(ms, i);
    }
  }

  /** `parseFloat` never yields a negative number from these tokens, so every candidate is at least 0. */
  lemma CandidatesNonNegative(exec: (string, nat) -> Option<Match>, text: string)
    requires Advances(exec)
    ensures forall v :: v in Candidates(exec, text) ==> v >= 0.0
  {
    CandidatesAreParsedMatches(exec, text);
    ParsedMembers(Matches(exec, text));
  }

  lemma ResumeInText(exec: (string, nat) -> Option<Match>, text: string, i: nat)
    requires Advances(exec) && i <= |Matches(exec, text)|
    ensures ResumeAt(0, Matches(exec, text), i) <= |text|
  {
    MatchesOrdered(exec, text, 0, 0);
  }

  /**
   * On the square-footage pattern each match is the leftmost one from where
   * the previous match ended: its first group starts the first position
   * there that begins a match, and the match lies in the text as `Placed`
   * describes.
   */
  lemma MatchesLeftmost(text: string, i: nat)
    requires i < |Matches(Exec, text)|
    ensures var ms := Matches(Exec, text);
            var from := ResumeAt(0, ms, i);
            && Placed(text, from, ms[i])
            && MatchAt(text, ms[i].groupIndex).Some?
            && MatchAt(text, ms[i].groupIndex).value.end == End(ms[i])
            && forall q :: from <= q < ms[i].groupIndex ==> MatchAt(text, q).None?
  {
    ExecAdvances();
    ResumeInText(Exec, text, i);
    MatchesChained(Exec, text, 0, 0);
    var from := ResumeAt(0, Matches(Exec, text), i);
    ExecPlaced(text, from);
    ExecIsLeftmost(text, from);
  }

  /** A scan that stops before the cap has found every match: no later position begins one. */
  lemma MatchesExhaustive(text: string)
    requires |Matches(Exec, text)| <= MaxIterations
    ensures var ms := Matches(Exec, text);
            forall q :: ResumeAt(0, ms, |ms|) <= q <= |text| ==> MatchAt(text, q).None?
  {
    ExecAdvances();
    var ms := Matches(Exec, text);
    ResumeInText(Exec, text, |ms|);
    MatchesChained(Exec, text, 0, 0);
    ExecIsLeftmost(text, ResumeAt(0, ms, |ms|));
  }

  /**
   * A token that parses begins with a digit: its first character is a word
   * character, so neither the comma `replace` deletes nor the full stop
   * `parseFloat` also accepts first.
   */
  lemma TokenValueStartsWithDigit(m: Match)
    requires m.group != [] && IsWordChar(m.group[0])
    ensures TokenValue(m).Some? ==> IsDigit(m.group[0])
  {
    assert m.group[0] != ',' && m.group[0] != '.';
  }

  /**
   * The value of a numeral token, split at its full stop `i` (or its end):
   * the part before, commas removed, is a non-empty run of digits, read as a
   * whole number when there is no full stop and with the digits after it as
   * a decimal fraction otherwise.
   */
  lemma NumeralTokenValue(m: Match, i: nat)
    requires IsNumeral(m.group) && i <= |m.group|
    requires (forall k :: 0 <= k < i ==> m.group[k] != '.') && (i == |m.group| || m.group[i] == '.')
    ensures var whole := RemoveCommas(m.group[..i]);
            && whole != [] && AllDigits(whole)
            && (i == |m.group| ==> TokenValue(m) == Some(DigitsValue(whole) as real))
            && (i < |m.group| ==> AllDigits(m.group[i + 1..]) && TokenValue(m) == Some(Mantissa(whole, m.group[i + 1..])))
  {
    var g := m.group;
    NumeralParts(g, i);
    var lead := g[..i];
    assert lead[0] == g[0];
    assert forall k :: 0 <= k < |lead| ==> lead[k] == g[k];
    DigitsWithCommas(lead);
    var whole := RemoveCommas(lead);
    if i == |g| {
      assert lead == g;
      ParseDigits(whole);
    } else {
      var fraction := g[i + 1..];
      assert g == lead + "." + fraction;
      CommasBeforeStop(lead, fraction);
      ParseDecimal(whole, fraction);
    }
  }

  /** No match starts at the end of the text, so `exec` from there finds nothing. */
  lemma ExecAtEnd(t: string)
    ensures Exec(t, |t|).None?
  {
    assert MatchesIn(t)(|t|) == MatchAt(t, |t|);
    assert FirstFound(MatchesIn(t), |t|, |t|).None?;
  }

  /**
   * When the first position of the text starts a match that runs to the end
   * of the text, `exec` from the start finds that match.
   */
  lemma ExecWholeText(t: string, h: Hit)
    requires MatchAt(t, 0) == Some(h) && h.end == |t|
    ensures Exec(t, 0) == Some(Match(0, t, 0, t[..h.tokenEnd]))
  {
    assert MatchesIn(t)(0) == MatchAt(t, 0);
    assert FirstFound(MatchesIn(t), 0, |t|) == Some(0);
    MatchOfWhole(t, h);
  }

  lemma MatchOfWhole(t: string, h: Hit)
    requires h.start == 0 < h.tokenEnd && h.tokenEnd + 2 <= h.end == |t| && IsWordChar(t[0])
    ensures MatchOf(t, 0, h) == Match(0, t, 0, t[..h.tokenEnd])
  {
    assert t[0..h.end] == t && t[0..h.tokenEnd] == t[..h.tokenEnd];
  }

  /** Such a text is scanned into the value of that one match, if it parses. */
  lemma WholeTextMatch(t: string, h: Hit)
    requires MatchAt(t, 0) == Some(h) && h.end == |t|
    ensures Candidates(Exec, t) == Kept([], Match(0, t, 0, t[..h.tokenEnd]))
  {
    ExecAdvances();
    ExecWholeText(t, h);
    ExecAtEnd(t);
    var m := Match(0, t, 0, t[..h.tokenEnd]);
    var kept := Kept([], m);
    assert End(m) == |t|;
    assert ScanFrom(Exec, t, |t|, 1, kept) == kept;
    assert ScanFrom(Exec, t, 0, 0, []) == ScanFrom(Exec, t, |t|, 1, kept);
  }

  /** Such a text whose match token reads as `v` is scanned into `[v]` alone. */
  lemma WholeTextValue(t: string, h: Hit, v: real)
    requires MatchAt(t, 0) == Some(h) && h.end == |t| && TokenValue(Match(0, t, 0, t[..h.tokenEnd])) == Some(v)
    ensures Candidates(Exec, t) == [v]
  {
    WholeTextMatch(t, h);
    assert [] + [v] == [v];
  }

  /** The token of a placed match whose value is kept starts with a digit of the text. */
  lemma PlacedTokenDigit(text: string, from: nat, m: Match)
    requires Placed(text, from, m) && TokenValue(m).Some?
    ensures m.groupIndex < |text| && IsDigit(text[m.groupIndex])
  {
    TokenValueStartsWithDigit(m);
    assert text[m.groupIndex..m.groupIndex + |m.group|][0] == m.group[0];
  }

  /** The token of a match whose value is kept starts with a digit of the text. */
  lemma KeptTokenDigit(text: string, i: nat)
    requires i < |Matches(Exec, text)| && TokenValue(Matches(Exec, text)[i]).Some?
    ensures var m := Matches(Exec, text)[i];
            m.groupIndex < |text| && IsDigit(text[m.groupIndex])
  {
    var ms := Matches(Exec, text);
    MatchesLeftmost(text, i);
    PlacedTokenDigit(text, ResumeAt(0, ms, i), ms[i]);
  }

  /** Text without a single digit yields no candidate at all. */
  lemma NoDigitNoCandidates(text: string)
    requires forall k :: 0 <= k < |text| ==> !IsDigit(text[k])
    ensures Candidates(Exec, text) == []
  {
    ExecAdvances();
    CandidatesAreParsedMatches(Exec, text);
    var ms := Matches(Exec, text);
    if Parsed(ms) != [] {
      ParsedFromMatches(ms, Parsed(ms)[0]);
      var i :| 0 <= i < |ms| && TokenValue(ms[i]).Some?;
      KeptTokenDigit(text, i);
      assert false;
    }
  }
}
