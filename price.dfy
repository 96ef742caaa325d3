/**
 * The price token of `extractPrice`: the text of the price element with
 * white space trimmed, searched for `/£([\d,]+)/` (no flags, so the first
 * match only), and the whole match returned. Also the reading of that token
 * as a number in `handleCalculateRequest`, `parseFloat(price.replace(/[£,]/g, ''))`.
 */
module Price {
  import opened Wrappers
  import opened Chars
  import opened Numbers

  const Pound: char := '£'

  /** `[\d,]` */
  predicate IsPriceChar(c: char) {
    IsDigit(c) || c == ','
  }

  /** `£[\d,]` begins at position `p` of `t`. */
  predicate PriceAt(t: string, p: nat) {
    p + 1 < |t| && t[p] == Pound && IsPriceChar(t[p + 1])
  }

  /** What a match of `£[\d,]+` looks like. */
  predicate IsPriceToken(s: string) {
    |s| >= 2 && s[0] == Pound && forall k :: 1 <= k < |s| ==> IsPriceChar(s[k])
  }

  /** The first position from `p` on where a price begins. */
  function FirstPriceAt(t: string, p: nat): (q: Option<nat>)
    ensures q.Some? ==> p <= q.value && PriceAt(t, q.value)
    ensures q.Some? ==> forall k :: p <= k < q.value ==> !PriceAt(t, k)
    ensures q.None? ==> forall k :: p <= k ==> !PriceAt(t, k)
    decreases |t| - p
  {
    if p + 1 >= |t| then None
    else if PriceAt(t, p) then Some(p)
    else FirstPriceAt(t, p + 1)
  }

  /** The leftmost start of a price is the one `FirstPriceAt` reports. */
  lemma FirstPriceUnique(t: string, p: nat)
    requires PriceAt(t, p) && forall k :: 0 <= k < p ==> !PriceAt(t, k)
    ensures FirstPriceAt(t, 0) == Some(p)
  {
    var q := FirstPriceAt(t, 0);
    assert q.Some?;
    assert !(p < q.value);
  }

  /** `priceText.match(/£([\d,]+)/)[0]`, or `None` where `match` gives `null`. */
  function MatchPrice(t: string): (r: Option<string>)
    ensures r.Some? <==> exists p: nat :: PriceAt(t, p)
    ensures r.Some? ==> IsPriceToken(r.value)
  {
    match FirstPriceAt(t, 0)
    case None => None
    case Some(p) => Some(t[p..RunEnd(t, p + 1, IsPriceChar)])
  }

  /**
   * The match is the leftmost `£` followed by a digit or comma, with the
   * longest run of digits and commas after it.
   */
  lemma MatchPriceLeftmostLongest(t: string, p: nat, e: nat)
    requires PriceAt(t, p) && forall k :: 0 <= k < p ==> !PriceAt(t, k)
    requires p + 1 < e <= |t| && (forall k :: p + 1 <= k < e ==> IsPriceChar(t[k]))
    requires e == |t| || !IsPriceChar(t[e])
    ensures MatchPrice(t) == Some(t[p..e])
  {
    FirstPriceUnique(t, p);
    RunEndUnique(t, p + 1, IsPriceChar, e);
  }

  // ---------------------------------------------------------------------
  // String.prototype.trim
  // ---------------------------------------------------------------------

  /** The end of `t[lo..j]` once trailing white space is dropped. */
  function TrailEnd(t: string, lo: nat, j: nat): (b: nat)
    requires lo <= j <= |t|
    ensures lo <= b <= j
    ensures forall k :: b <= k < j ==> IsSpace(t[k])
    ensures b == lo || !IsSpace(t[b - 1])
    decreases j - lo
  {
    if j > lo && IsSpace(t[j - 1]) then TrailEnd(t, lo, j - 1) else j
  }

  /** `s.trim()`: white space and line terminators removed from both ends. */
  function Trim(s: string): (r: string)
    ensures r == [] || (!IsSpace(r[0]) && !IsSpace(r[|r| - 1]))
    ensures exists a: nat, b: nat :: SpaceOutside(s, a, b) && r == s[a..b]
  {
    var a := RunEnd(s, 0, IsSpace);
    var b := TrailEnd(s, a, |s|);
    s[a..b]
  }

  /** `t` has nothing but white space before `a` and from `b` on. */
  predicate SpaceOutside(t: string, a: nat, b: nat) {
    a <= b <= |t|
    && (forall k :: 0 <= k < a ==> IsSpace(t[k]))
    && (forall k :: b <= k < |t| ==> IsSpace(t[k]))
  }

  /** A price begins inside the part between the white space, at the same place. */
  lemma PriceInside(t: string, a: nat, b: nat)
    requires SpaceOutside(t, a, b)
    ensures forall q: nat :: PriceAt(t, q) ==> a <= q && q + 1 < b
    ensures forall q: nat :: PriceAt(t[a..b], q) <==> PriceAt(t, a + q)
  {
    forall q: nat | PriceAt(t, q)
      ensures a <= q && q + 1 < b
    {
      assert !IsSpace(t[q]) && !IsSpace(t[q + 1]);
    }
    forall q: nat
      ensures PriceAt(t[a..b], q) <==> PriceAt(t, a + q)
    {
      if q + 1 < b - a {
        assert t[a..b][q] == t[a + q] && t[a..b][q + 1] == t[a + q + 1];
      }
    }
  }

  /** A run of digits and commas inside `t[a..b]` is the same run in the slice. */
  lemma SlicedRun(t: string, a: nat, b: nat, i: nat, e: nat)
    requires a <= i <= e <= b <= |t|
    requires forall k :: i <= k < e ==> IsPriceChar(t[k])
    requires e == |t| || !IsPriceChar(t[e])
    ensures forall k :: i - a <= k < e - a ==> IsPriceChar(t[a..b][k])
    ensures e - a == |t[a..b]| || !IsPriceChar(t[a..b][e - a])
  {
    forall k | i - a <= k < e - a
      ensures IsPriceChar(t[a..b][k])
    {
      assert t[a..b][k] == t[a + k];
    }
    if e < b {
      assert t[a..b][e - a] == t[e];
    }
  }

  /** Cutting white space off both ends keeps the match when there is one. */
  lemma SlicedPrice(t: string, a: nat, b: nat, p: nat)
    requires SpaceOutside(t, a, b)
    requires PriceAt(t, p) && forall k :: 0 <= k < p ==> !PriceAt(t, k)
    ensures MatchPrice(t[a..b]) == MatchPrice(t)
  {
    PriceInside(t, a, b);
    var e := RunEnd(t, p + 1, IsPriceChar);
    assert e <= b by {
      assert b < |t| ==> IsSpace(t[b]) && !IsPriceChar(t[b]);
    }
    MatchPriceLeftmostLongest(t, p, e);
    SlicedMatch(t, a, b, p, e);
  }

  /** The leftmost longest match inside `t[a..b]` is the same stretch of `t`. */
  lemma SlicedMatch(t: string, a: nat, b: nat, p: nat, e: nat)
    requires SpaceOutside(t, a, b) && a <= p && p + 1 < e <= b
    requires PriceAt(t, p) && forall k :: 0 <= k < p ==> !PriceAt(t, k)
    requires (forall k :: p + 1 <= k < e ==> IsPriceChar(t[k])) && (e == |t| || !IsPriceChar(t[e]))
    ensures MatchPrice(t[a..b]) == Some(t[p..e])
  {
    PriceInside(t, a, b);
    SlicedRun(t, a, b, p + 1, e);
    assert forall k :: 0 <= k < p - a ==> !PriceAt(t[a..b], k);
    MatchPriceLeftmostLongest(t[a..b], p - a, e - a);
    SliceOfSlice(t, a, b, p, e);
  }

  /** Trimming never changes the price: neither `£` nor a digit or comma is white space. */
  lemma TrimKeepsPrice(s: string)
    ensures MatchPrice(Trim(s)) == MatchPrice(s)
  {
    var a := RunEnd(s, 0, IsSpace);
    var b := TrailEnd(s, a, |s|);
    assert SpaceOutside(s, a, b) && Trim(s) == s[a..b];
    if exists q: nat :: PriceAt(s, q) {
      LeftmostPrice(s);
      var p: nat :| PriceAt(s, p) && forall k :: 0 <= k < p ==> !PriceAt(s, k);
      SlicedPrice(s, a, b, p);
    } else {
      PriceInside(s, a, b);
    }
  }

  /** A text in which a price begins somewhere has a leftmost such place. */
  lemma LeftmostPrice(s: string)
    requires exists q: nat :: PriceAt(s, q)
    ensures exists p: nat :: PriceAt(s, p) && forall k :: 0 <= k < p ==> !PriceAt(s, k)
  {
    var p := FirstPriceAt(s, 0).value;
    assert PriceAt(s, p) && forall k :: 0 <= k < p ==> !PriceAt(s, k);
  }

  /** `extractPrice` given the text of the price element, or `None` when there is no such element. */
  function ExtractPrice(elementText: Option<string>): (r: Option<string>)
    ensures r.Some? ==> IsPriceToken(r.value)
    ensures elementText.None? ==> r.None?
    ensures elementText.Some? ==> r == MatchPrice(elementText.value)
  {
    if elementText.None? then None
    else
      TrimKeepsPrice(elementText.value);
      MatchPrice(Trim(elementText.value))
  }

  // ---------------------------------------------------------------------
  // Reading the price as a number
  // ---------------------------------------------------------------------

  /** `price.replace(/[£,]/g, '')` */
  function StripPrice(s: string): (r: string)
    ensures forall c :: c in r <==> c in s && c != Pound && c != ','
    ensures Pound !in s && ',' !in s ==> r == s
  {
    if s == [] then []
    else
      var rest := StripPrice(s[1..]);
      assert Pound !in s && ',' !in s ==> [s[0]] + s[1..] == s;
      (if s[0] == Pound || s[0] == ',' then [] else [s[0]]) + rest
  }

  /**
   * `StripPrice` works character by character: it distributes over
   * concatenation, and on one character it drops `£` and `,` and keeps
   * anything else, so the characters kept stay in order.
   */
  lemma {:induction false} StripPriceFilter(a: string, b: string)
    ensures StripPrice(a + b) == StripPrice(a) + StripPrice(b)
    ensures |a| == 1 ==> StripPrice(a) == if a[0] == Pound || a[0] == ',' then [] else a
  {
    StripPriceAppend(a, b);
    if |a| == 1 {
      assert a[1..] == [];
    }
  }

  lemma {:induction false} StripPriceAppend(a: string, b: string)
    ensures StripPrice(a + b) == StripPrice(a) + StripPrice(b)
  {
    if a == [] {
      assert a + b == b;
    } else {
      assert (a + b)[1..] == a[1..] + b;
      StripPriceAppend(a[1..], b);
    }
  }

  /** Stripping `£` and `,` from a price token leaves digits only. */
  lemma StripPriceDigits(s: string)
    requires IsPriceToken(s)
    ensures AllDigits(StripPrice(s))
  {
    var r := StripPrice(s);
    forall i | 0 <= i < |r|
      ensures IsDigit(r[i])
    {
      assert r[i] in s;
      var k :| 0 <= k < |s| && s[k] == r[i];
      assert k != 0;
    }
  }

  /** `parseFloat` of the stripped price; `None` where it gives `NaN`. */
  function PriceAmount(price: string): (r: Option<real>)
    ensures r.Some? <==> StartsNumber(StripPrice(price))
    ensures r.Some? ==> r.value >= 0.0
  {
    ParseNumber(StripPrice(price))
  }

  /**
   * A price token reads as the value of its digits with the commas taken
   * out, and as `NaN` when it holds no digit at all (`£,`).
   */
  lemma PriceAmountValue(s: string)
    requires IsPriceToken(s)
    ensures AllDigits(StripPrice(s))
    ensures StripPrice(s) != [] ==> PriceAmount(s) == Some(DigitsValue(StripPrice(s)) as real)
    ensures StripPrice(s) == [] <==> PriceAmount(s).None?
  {
    StripPriceDigits(s);
    if StripPrice(s) != [] {
      ParseDigits(StripPrice(s));
    }
  }
}
