/**
 * `extract_room_area` (app.py): the room-size recogniser.
 *
 * Each candidate text is searched, leftmost first, for the pattern
 *
 *     (\d+[.,]?\d*)\s*(?:square\s*)?(feet²|ft²|sq\s*ft|m²|sqm|sq\s*m|meters²)
 *
 * with case ignored.  The pattern is given twice: once declaratively
 * (`PatternAt`: some split of the text into the pattern's pieces exists)
 * and once as a deterministic matcher (`MatchAt`: maximal runs, the unit
 * alternatives tried in the pattern's order).  `MatchAtSound` and
 * `MatchAtComplete` prove the two agree, so the backtracking match at a
 * position is unique: no unit spelling starts with a digit, a separator
 * or whitespace, so no shorter run can be followed by the rest.
 *
 * The superscript two of the unit spellings is one opaque character
 * (U+00B2); only ASCII letters are case-folded.
 */
module RoomArea {
  import opened Common

  const FeetSq: string := "feet\U{00B2}"
  const FtSq: string := "ft\U{00B2}"
  const MSq: string := "m\U{00B2}"
  const MetersSq: string := "meters\U{00B2}"

  predicate IsSeparator(c: char) {
    c == '.' || c == ','
  }

  /** `t` holds the lower-case word `w` at position `p`, ignoring ASCII case. */
  predicate WordAt(t: string, p: nat, w: string) {
    p + |w| <= |t| && forall k :: 0 <= k < |w| ==> LowerChar(t[p + k]) == w[k]
  }

  lemma WordAtChar(t: string, p: nat, w: string, k: nat)
    requires WordAt(t, p, w) && k < |w|
    ensures LowerChar(t[p + k]) == w[k]
  {
  }

  lemma NotWordAt(t: string, p: nat, w: string, k: nat)
    requires k < |w| && (p + k < |t| ==> LowerChar(t[p + k]) != w[k])
    ensures !WordAt(t, p, w)
  {
  }

  // ---------------------------------------------------------------------
  // The declarative reading of the pattern

  ghost predicate Digits(t: string, a: nat, b: nat) {
    a <= b <= |t| && forall k :: a <= k < b ==> IsDigit(t[k])
  }

  ghost predicate Spaces(t: string, a: nat, b: nat) {
    a <= b <= |t| && forall k :: a <= k < b ==> IsSpace(t[k])
  }

  /** `t[i..e]` is `\d+[.,]?\d*`. */
  ghost predicate NumberSpan(t: string, i: nat, e: nat) {
    exists a: nat :: i < a && Digits(t, i, a) &&
      (Digits(t, a, e) || (Digits(t, a + 1, e) && IsSeparator(t[a])))
  }

  /** `t[s..q]` is `(?:square\s*)?`. */
  ghost predicate SquareSpan(t: string, s: nat, q: nat) {
    (s == q && s <= |t|) || (WordAt(t, s, "square") && Spaces(t, s + 6, q))
  }

  ghost predicate LiteralSpan(t: string, p: nat, e: nat, w: string) {
    WordAt(t, p, w) && e == p + |w|
  }

  /** `t[p..e]` is `sq\s*` followed by the word `w`. */
  ghost predicate SqSpan(t: string, p: nat, e: nat, w: string) {
    WordAt(t, p, "sq") && exists c: nat :: Spaces(t, p + 2, c) && WordAt(t, c, w) && e == c + |w|
  }

  /** `t[p..e]` is one of the unit alternatives. */
  ghost predicate UnitSpan(t: string, p: nat, e: nat) {
    || LiteralSpan(t, p, e, FeetSq)
    || LiteralSpan(t, p, e, FtSq)
    || SqSpan(t, p, e, "ft")
    || LiteralSpan(t, p, e, MSq)
    || LiteralSpan(t, p, e, "sqm")
    || SqSpan(t, p, e, "m")
    || LiteralSpan(t, p, e, MetersSq)
  }

  /** What follows group 1: `\s*(?:square\s*)?` ending at `s2`, then the unit `t[s2..e]`. */
  ghost predicate TailSpan(t: string, e1: nat, s2: nat, e: nat) {
    (exists s1: nat :: Spaces(t, e1, s1) && SquareSpan(t, s1, s2)) && UnitSpan(t, s2, e)
  }

  /** The pattern matches at `i`, with group 1 `t[i..e1]` and group 2 `t[s2..e]`. */
  ghost predicate PatternAt(t: string, i: nat, e1: nat, s2: nat, e: nat) {
    NumberSpan(t, i, e1) && TailSpan(t, e1, s2, e)
  }

  // ---------------------------------------------------------------------
  // The matcher

  /** End of the maximal run of digits starting at `p`. */
  function DigitRun(t: string, p: nat): (e: nat)
    requires p <= |t|
    ensures p <= e <= |t|
    ensures forall k :: p <= k < e ==> IsDigit(t[k])
    ensures e == |t| || !IsDigit(t[e])
    decreases |t| - p
  {
    if p < |t| && IsDigit(t[p]) then DigitRun(t, p + 1) else p
  }

  /** End of the maximal run of whitespace starting at `p`. */
  function SpaceRun(t: string, p: nat): (e: nat)
    requires p <= |t|
    ensures p <= e <= |t|
    ensures forall k :: p <= k < e ==> IsSpace(t[k])
    ensures e == |t| || !IsSpace(t[e])
    decreases |t| - p
  {
    if p < |t| && IsSpace(t[p]) then SpaceRun(t, p + 1) else p
  }

  /** End of group 1 when it starts at `i`: digits, an optional separator, digits. */
  function NumberEnd(t: string, i: nat): (e1: nat)
    requires i <= |t|
    ensures i <= e1 <= |t|
  {
    var a := DigitRun(t, i);
    if a < |t| && IsSeparator(t[a]) then DigitRun(t, a + 1) else a
  }

  /** Start of group 2 when group 1 ends at `e1`: whitespace and an optional `square`. */
  function UnitStart(t: string, e1: nat): (s2: nat)
    requires e1 <= |t|
    ensures e1 <= s2 <= |t|
  {
    var s1 := SpaceRun(t, e1);
    if WordAt(t, s1, "square") then SpaceRun(t, s1 + 6) else s1
  }

  /** End of the first unit alternative, in the pattern's order, that matches at `p`. */
  function UnitEnd(t: string, p: nat): (r: Option<nat>)
    requires p <= |t|
    ensures r.Some? ==> p < r.value <= |t|
  {
    if WordAt(t, p, FeetSq) then Some(p + |FeetSq|)
    else if WordAt(t, p, FtSq) then Some(p + |FtSq|)
    else if WordAt(t, p, "sq") && WordAt(t, SpaceRun(t, p + 2), "ft") then Some(SpaceRun(t, p + 2) + 2)
    else if WordAt(t, p, MSq) then Some(p + |MSq|)
    else if WordAt(t, p, "sqm") then Some(p + 3)
    else if WordAt(t, p, "sq") && WordAt(t, SpaceRun(t, p + 2), "m") then Some(SpaceRun(t, p + 2) + 1)
    else if WordAt(t, p, MetersSq) then Some(p + |MetersSq|)
    else None
  }

  /** `match.group(1)` and `match.group(2)`. */
  datatype Groups = Groups(number: string, unit: string)

  /** The match of the pattern that starts exactly at `i`, if any. */
  function MatchAt(t: string, i: nat): (r: Option<Groups>)
    requires i <= |t|
  {
    if i < |t| && IsDigit(t[i]) then
      var e1 := NumberEnd(t, i);
      var s2 := UnitStart(t, e1);
      match UnitEnd(t, s2)
      case None => None
      case Some(e) => Some(Groups(t[i..e1], t[s2..e]))
    else None
  }

  /** `re.search` from position `i`: the match at the leftmost position that has one. */
  function Search(t: string, i: nat): (r: Option<Groups>)
    requires i <= |t|
    decreases |t| - i
  {
    match MatchAt(t, i)
    case Some(g) => Some(g)
    case None => if i == |t| then None else Search(t, i + 1)
  }

  /** `Search` finds nothing only when no position matches, and otherwise the leftmost match. */
  lemma SearchLeftmost(t: string, i: nat)
    requires i <= |t|
    ensures Search(t, i).None? ==> forall j :: i <= j <= |t| ==> MatchAt(t, j).None?
    ensures Search(t, i).Some? ==>
      exists j :: i <= j <= |t| && MatchAt(t, j) == Search(t, i) &&
        forall k :: i <= k < j ==> MatchAt(t, k).None?
  {
    SearchNone(t, i);
    SearchSome(t, i);
  }

  lemma {:induction false} SearchNone(t: string, i: nat)
    requires i <= |t|
    ensures Search(t, i).None? ==> forall j :: i <= j <= |t| ==> MatchAt(t, j).None?
    decreases |t| - i
  {
    if MatchAt(t, i).None? && i < |t| {
      assert Search(t, i) == Search(t, i + 1);
      SearchNone(t, i + 1);
    }
  }

  lemma {:induction false} SearchSome(t: string, i: nat)
    requires i <= |t|
    ensures Search(t, i).Some? ==>
      exists j :: i <= j <= |t| && MatchAt(t, j) == Search(t, i) &&
        forall k :: i <= k < j ==> MatchAt(t, k).None?
    decreases |t| - i
  {
    if MatchAt(t, i).Some? {
      assert MatchAt(t, i) == Search(t, i);
    } else if i < |t| {
      SearchSome(t, i + 1);
      if Search(t, i).Some? {
        var j :| i + 1 <= j <= |t| && MatchAt(t, j) == Search(t, i + 1) &&
          forall k :: i + 1 <= k < j ==> MatchAt(t, k).None?;
        assert forall k :: i <= k < j ==> MatchAt(t, k).None?;
      }
    }
  }

  // ---------------------------------------------------------------------
  // The matcher agrees with the pattern

  /** A run ending at `e` with a non-matching character there is the maximal run. */
  lemma SpaceRunIs(t: string, p: nat, c: nat)
    requires Spaces(t, p, c) && (c == |t| || !IsSpace(t[c]))
    ensures SpaceRun(t, p) == c
  {
  }

  lemma DigitRunIs(t: string, p: nat, c: nat)
    requires Digits(t, p, c) && (c == |t| || !IsDigit(t[c]))
    ensures DigitRun(t, p) == c
  {
  }

  /** Every unit spelling starts with one of the letters f, s, m (in either case). */
  lemma UnitSpanStart(t: string, p: nat, e: nat)
    requires UnitSpan(t, p, e)
    ensures p < e <= |t|
    ensures LowerChar(t[p]) == 'f' || LowerChar(t[p]) == 's' || LowerChar(t[p]) == 'm'
  {
    if SqSpan(t, p, e, "ft") || SqSpan(t, p, e, "m") {
      WordAtChar(t, p, "sq", 0);
    } else if LiteralSpan(t, p, e, FeetSq) {
      WordAtChar(t, p, FeetSq, 0);
    } else if LiteralSpan(t, p, e, FtSq) {
      WordAtChar(t, p, FtSq, 0);
    } else if LiteralSpan(t, p, e, MSq) {
      WordAtChar(t, p, MSq, 0);
    } else if LiteralSpan(t, p, e, "sqm") {
      WordAtChar(t, p, "sqm", 0);
    } else {
      WordAtChar(t, p, MetersSq, 0);
    }
  }

  /** Group 1 cannot be followed directly by a digit or a separator. */
  lemma TailSpanStart(t: string, e1: nat, s2: nat, e: nat)
    requires TailSpan(t, e1, s2, e)
    ensures e1 <= s2 < e <= |t|
    ensures !IsDigit(t[e1]) && !IsSeparator(t[e1])
  {
    var s1: nat :| Spaces(t, e1, s1) && SquareSpan(t, s1, s2);
    UnitSpanStart(t, s2, e);
    if e1 == s1 && s1 < s2 {
      WordAtChar(t, s1, "square", 0);
    }
  }

  /** Where the text reads `square`, no unit spelling starts. */
  lemma NoUnitAtSquare(t: string, p: nat, e: nat)
    requires WordAt(t, p, "square")
    ensures !UnitSpan(t, p, e)
  {
    WordAtChar(t, p, "square", 0);
    WordAtChar(t, p, "square", 2);
    NotWordAt(t, p, FeetSq, 0);
    NotWordAt(t, p, FtSq, 0);
    NotWordAt(t, p, MSq, 0);
    NotWordAt(t, p, MetersSq, 0);
    NotWordAt(t, p, "sqm", 2);
    NotWordAt(t, p + 2, "ft", 0);
    NotWordAt(t, p + 2, "m", 0);
    assert !IsSpace(t[p + 2]);
  }

  lemma UnitEndSound(t: string, p: nat)
    requires p <= |t| && UnitEnd(t, p).Some?
    ensures UnitSpan(t, p, UnitEnd(t, p).value)
  {
    if !WordAt(t, p, FeetSq) && !WordAt(t, p, FtSq) && WordAt(t, p, "sq") {
      var c := SpaceRun(t, p + 2);
      if WordAt(t, c, "ft") {
        assert SqSpan(t, p, c + 2, "ft");
      } else if !WordAt(t, p, MSq) && !WordAt(t, p, "sqm") && WordAt(t, c, "m") {
        assert SqSpan(t, p, c + 1, "m");
      }
    }
  }

  // One lemma per alternative: the earlier alternatives fail on some character.

  lemma UnitEndFtSq(t: string, p: nat)
    requires WordAt(t, p, FtSq)
    ensures UnitEnd(t, p) == Some(p + |FtSq|)
  {
    WordAtChar(t, p, FtSq, 1);
    NotWordAt(t, p, FeetSq, 1);
  }

  lemma UnitEndSqFt(t: string, p: nat, c: nat)
    requires WordAt(t, p, "sq") && Spaces(t, p + 2, c) && WordAt(t, c, "ft")
    ensures UnitEnd(t, p) == Some(c + 2)
  {
    WordAtChar(t, p, "sq", 0);
    NotWordAt(t, p, FeetSq, 0);
    NotWordAt(t, p, FtSq, 0);
    WordAtChar(t, c, "ft", 0);
    SpaceRunIs(t, p + 2, c);
  }

  lemma UnitEndMSq(t: string, p: nat)
    requires WordAt(t, p, MSq)
    ensures UnitEnd(t, p) == Some(p + |MSq|)
  {
    WordAtChar(t, p, MSq, 0);
    NotWordAt(t, p, FeetSq, 0);
    NotWordAt(t, p, FtSq, 0);
    NotWordAt(t, p, "sq", 0);
  }

  lemma UnitEndSqm(t: string, p: nat)
    requires WordAt(t, p, "sqm")
    ensures UnitEnd(t, p) == Some(p + 3)
  {
    WordAtChar(t, p, "sqm", 0);
    WordAtChar(t, p, "sqm", 1);
    WordAtChar(t, p, "sqm", 2);
    NotWordAt(t, p, FeetSq, 0);
    NotWordAt(t, p, FtSq, 0);
    NotWordAt(t, p, MSq, 0);
    SpaceRunIs(t, p + 2, p + 2);
    NotWordAt(t, p + 2, "ft", 0);
  }

  lemma UnitEndSqM(t: string, p: nat, c: nat)
    requires WordAt(t, p, "sq") && Spaces(t, p + 2, c) && WordAt(t, c, "m")
    ensures UnitEnd(t, p) == Some(c + 1)
  {
    WordAtChar(t, c, "m", 0);
    SpaceRunIs(t, p + 2, c);
    if WordAt(t, p, "sqm") {
      // then `sqm` is chosen, which ends where `sq\s*m` does
      WordAtChar(t, p, "sqm", 2);
      assert SpaceRun(t, p + 2) == p + 2;
      UnitEndSqm(t, p);
    } else {
      WordAtChar(t, p, "sq", 0);
      NotWordAt(t, p, FeetSq, 0);
      NotWordAt(t, p, FtSq, 0);
      NotWordAt(t, p, MSq, 0);
      NotWordAt(t, c, "ft", 0);
    }
  }

  lemma UnitEndMetersSq(t: string, p: nat)
    requires WordAt(t, p, MetersSq)
    ensures UnitEnd(t, p) == Some(p + |MetersSq|)
  {
    WordAtChar(t, p, MetersSq, 0);
    WordAtChar(t, p, MetersSq, 1);
    NotWordAt(t, p, FeetSq, 0);
    NotWordAt(t, p, FtSq, 0);
    NotWordAt(t, p, "sq", 0);
    NotWordAt(t, p, MSq, 1);
    NotWordAt(t, p, "sqm", 0);
  }

  /** Whichever alternative matches, the first one in order ends at the same place. */
  lemma UnitEndComplete(t: string, p: nat, e: nat)
    requires UnitSpan(t, p, e)
    ensures UnitEnd(t, p) == Some(e)
  {
    if LiteralSpan(t, p, e, FeetSq) {
    } else if LiteralSpan(t, p, e, FtSq) {
      UnitEndFtSq(t, p);
    } else if SqSpan(t, p, e, "ft") {
      var c: nat :| Spaces(t, p + 2, c) && WordAt(t, c, "ft") && e == c + 2;
      UnitEndSqFt(t, p, c);
    } else if LiteralSpan(t, p, e, MSq) {
      UnitEndMSq(t, p);
    } else if LiteralSpan(t, p, e, "sqm") {
      UnitEndSqm(t, p);
    } else if SqSpan(t, p, e, "m") {
      var c: nat :| Spaces(t, p + 2, c) && WordAt(t, c, "m") && e == c + 1;
      UnitEndSqM(t, p, c);
    } else {
      UnitEndMetersSq(t, p);
    }
  }

  lemma NumberEndSound(t: string, i: nat)
    requires i < |t| && IsDigit(t[i])
    ensures NumberSpan(t, i, NumberEnd(t, i))
  {
    var a := DigitRun(t, i);
    assert Digits(t, i, a);
    if a < |t| && IsSeparator(t[a]) {
      assert Digits(t, a + 1, DigitRun(t, a + 1));
    } else {
      assert Digits(t, a, a);
    }
  }

  /** A group 1 that ends before a non-digit, non-separator is the one `NumberEnd` finds. */
  lemma NumberEndUnique(t: string, i: nat, e1: nat)
    requires NumberSpan(t, i, e1)
    requires e1 < |t| && !IsDigit(t[e1]) && !IsSeparator(t[e1])
    ensures e1 == NumberEnd(t, i)
  {
    var a': nat :| i < a' && Digits(t, i, a') &&
      (Digits(t, a', e1) || (Digits(t, a' + 1, e1) && IsSeparator(t[a'])));
    var a := DigitRun(t, i);
    if Digits(t, a', e1) {
      assert Digits(t, i, e1);
      DigitRunIs(t, i, e1);
    } else {
      DigitRunIs(t, a + 1, e1);
    }
  }

  lemma UnitStartSound(t: string, e1: nat)
    requires e1 <= |t|
    ensures Spaces(t, e1, SpaceRun(t, e1)) && SquareSpan(t, SpaceRun(t, e1), UnitStart(t, e1))
  {
  }

  /** The whitespace and `square` before group 2 are taken maximally. */
  lemma UnitStartUnique(t: string, e1: nat, s2: nat, e: nat)
    requires TailSpan(t, e1, s2, e)
    ensures s2 == UnitStart(t, e1)
  {
    var s1': nat :| Spaces(t, e1, s1') && SquareSpan(t, s1', s2);
    UnitSpanStart(t, s2, e);
    if s1' < s2 {
      WordAtChar(t, s1', "square", 0);
    }
    SpaceRunIs(t, e1, s1');
    if WordAt(t, s1', "square") {
      if s2 == s1' {
        NoUnitAtSquare(t, s1', e);
      } else {
        SpaceRunIs(t, s1' + 6, s2);
      }
    }
  }

  /** Every match found by `MatchAt` is a match of the pattern. */
  lemma MatchAtSound(t: string, i: nat)
    requires i <= |t| && MatchAt(t, i).Some?
    ensures exists e1: nat, s2: nat, e: nat ::
      PatternAt(t, i, e1, s2, e) && MatchAt(t, i) == Some(Groups(t[i..e1], t[s2..e]))
  {
    var e1 := NumberEnd(t, i);
    var s2 := UnitStart(t, e1);
    var e := UnitEnd(t, s2).value;
    NumberEndSound(t, i);
    UnitStartSound(t, e1);
    UnitEndSound(t, s2);
    assert TailSpan(t, e1, s2, e);
    assert PatternAt(t, i, e1, s2, e);
  }

  /** Every match of the pattern at `i` is the one `MatchAt` returns: the groups are unique. */
  lemma MatchAtComplete(t: string, i: nat, e1: nat, s2: nat, e: nat)
    requires PatternAt(t, i, e1, s2, e)
    ensures MatchAt(t, i) == Some(Groups(t[i..e1], t[s2..e]))
  {
    var a: nat :| i < a && Digits(t, i, a) &&
      (Digits(t, a, e1) || (Digits(t, a + 1, e1) && IsSeparator(t[a])));
    assert IsDigit(t[i]);
    TailSpanStart(t, e1, s2, e);
    NumberEndUnique(t, i, e1);
    UnitStartUnique(t, e1, s2, e);
    UnitEndComplete(t, s2, e);
  }

  // ---------------------------------------------------------------------
  // From the groups to `(area_value, unit)`

  datatype NumberKind = Int | Float

  /**
   * The area number as the cleaned text of group 1 with the kind
   * `float(...)` or `int(...)` would give it; no float is computed.
   */
  datatype AreaValue = AreaValue(text: string, kind: NumberKind)

  /** The pair `(area_value, unit)` returned by `extract_room_area`. */
  datatype Area = Area(value: AreaValue, unit: string)

  /**
   * `str.replace(',', '')`: the characters other than commas, in their
   * order and with their counts.
   */
  function RemoveCommas(s: string): (r: string)
    ensures ',' !in r
    ensures IsSubsequence(r, s)
    ensures forall c :: c != ',' ==> multiset(r)[c] == multiset(s)[c]
  {
    if s == [] then []
    else
      assert s == [s[0]] + s[1..];
      var rest := RemoveCommas(s[1..]);
      if s[0] == ',' then
        assert rest == [] || rest[0] != s[0];
        rest
      else
        assert ([s[0]] + rest)[1..] == rest;
        [s[0]] + rest
  }

  /** The unit mapping: `ft²`, `sq ft`, `sqft` to `feet²`; `m²`, `sqm`, `sq m` to `m²`; anything else unchanged. */
  function NormaliseUnit(u: string): (r: string) {
    if u == FtSq || u == "sq ft" || u == "sqft" then FeetSq
    else if u == MSq || u == "sqm" || u == "sq m" then MSq
    else u
  }

  /**
   * The mapping gives `feet²` exactly for the four feet spellings, `m²`
   * exactly for the three metre spellings, and leaves every other unit as
   * it is; so it is idempotent.
   */
  lemma NormaliseUnitCases(u: string)
    ensures NormaliseUnit(u) == FeetSq <==> u in {FeetSq, FtSq, "sq ft", "sqft"}
    ensures NormaliseUnit(u) == MSq <==> u in {MSq, "sqm", "sq m"}
    ensures NormaliseUnit(u) != FeetSq && NormaliseUnit(u) != MSq ==> NormaliseUnit(u) == u
    ensures NormaliseUnit(NormaliseUnit(u)) == NormaliseUnit(u)
  {
  }

  function ToArea(g: Groups): (r: Area) {
    var v := RemoveCommas(g.number);
    Area(AreaValue(v, if '.' in v then Float else Int), NormaliseUnit(Lower(g.unit)))
  }

  /**
   * The conversion of the groups: the number without its commas, in
   * order, a float exactly when group 1 holds a point, and the normalised
   * lower-cased unit.
   */
  lemma ToAreaFields(g: Groups)
    ensures var a := ToArea(g);
      && ',' !in a.value.text && IsSubsequence(a.value.text, g.number)
      && (forall c :: c != ',' ==> multiset(a.value.text)[c] == multiset(g.number)[c])
      && (a.value.kind == Float <==> '.' in g.number)
      && a.unit == NormaliseUnit(Lower(g.unit))
  {
    var v := RemoveCommas(g.number);
    assert '.' in v <==> multiset(v)['.'] > 0;
    assert '.' in g.number <==> multiset(g.number)['.'] > 0;
  }

  /**
   * The area read from one candidate text: `re.search`, then the
   * conversions. There is none only when the matcher finds no position.
   */
  function AreaOf(text: string): (r: Option<Area>) {
    match Search(text, 0)
    case None => None
    case Some(g) => Some(ToArea(g))
  }

  /** The loop of `extract_room_area`: the area of the first candidate text that has one. */
  function FirstArea(texts: seq<string>): (r: Option<Area>) {
    if texts == [] then None
    else match AreaOf(texts[0])
      case Some(a) => Some(a)
      case None => FirstArea(texts[1..])
  }

  method ExtractRoomArea(texts: seq<string>) returns (r: Option<Area>)
    ensures r == FirstArea(texts)
  {
    var i := 0;
    while i < |texts|
      invariant 0 <= i <= |texts|
      invariant FirstArea(texts[i..]) == FirstArea(texts)
    {
      assert texts[i..][0] == texts[i] && texts[i..][1..] == texts[i + 1..];
      var found := AreaOf(texts[i]);
      if found.Some? {
        return found;
      }
      i := i + 1;
    }
    return None;
  }

  // ---------------------------------------------------------------------
  // What the recogniser promises

  /** A match of the pattern starts with a digit. */
  lemma PatternStart(t: string, i: nat, e1: nat, s2: nat, e: nat)
    requires PatternAt(t, i, e1, s2, e)
    ensures i < |t| && IsDigit(t[i])
  {
    var a: nat :| i < a && Digits(t, i, a) &&
      (Digits(t, a, e1) || (Digits(t, a + 1, e1) && IsSeparator(t[a])));
  }

  /** Every occurrence of the pattern is seen by `MatchAt`. */
  lemma PatternSeen(t: string)
    ensures forall i: nat, e1: nat, s2: nat, e: nat :: PatternAt(t, i, e1, s2, e) ==>
      i <= |t| && MatchAt(t, i).Some?
  {
    forall i: nat, e1: nat, s2: nat, e: nat | PatternAt(t, i, e1, s2, e)
      ensures i <= |t| && MatchAt(t, i).Some?
    {
      MatchAtComplete(t, i, e1, s2, e);
    }
  }

  /** No area is read exactly when the pattern occurs nowhere in the text. */
  lemma AreaOfNone(t: string)
    ensures AreaOf(t).None? <==> forall i: nat, e1: nat, s2: nat, e: nat :: !PatternAt(t, i, e1, s2, e)
  {
    SearchLeftmost(t, 0);
    PatternSeen(t);
    if AreaOf(t).Some? {
      var i :| 0 <= i <= |t| && MatchAt(t, i) == Search(t, 0);
      MatchAtSound(t, i);
    }
  }

  /** The pattern does not occur at any position before `i`. */
  ghost predicate NoPatternBefore(t: string, i: nat) {
    forall j: nat, f1: nat, f2: nat, f: nat :: j < i ==> !PatternAt(t, j, f1, f2, f)
  }

  /** Positions where `MatchAt` finds nothing hold no occurrence of the pattern. */
  lemma NoMatchNoPattern(t: string, i: nat)
    requires i <= |t| && forall k :: 0 <= k < i ==> MatchAt(t, k).None?
    ensures NoPatternBefore(t, i)
  {
    forall j: nat, f1: nat, f2: nat, f: nat | j < i
      ensures !PatternAt(t, j, f1, f2, f)
    {
      if PatternAt(t, j, f1, f2, f) {
        MatchAtComplete(t, j, f1, f2, f);
      }
    }
  }

  /** The groups `re.search` reports come from the leftmost occurrence of the pattern. */
  lemma SearchFindsLeftmost(t: string)
    requires Search(t, 0).Some?
    ensures exists i: nat, e1: nat, s2: nat, e: nat ::
      && PatternAt(t, i, e1, s2, e)
      && NoPatternBefore(t, i)
      && Search(t, 0) == Some(Groups(t[i..e1], t[s2..e]))
  {
    SearchLeftmost(t, 0);
    var i :| 0 <= i <= |t| && MatchAt(t, i) == Search(t, 0) &&
      forall k :: 0 <= k < i ==> MatchAt(t, k).None?;
    MatchAtSound(t, i);
    NoMatchNoPattern(t, i);
  }

  /** An area that is read comes from the leftmost occurrence of the pattern. */
  lemma AreaOfLeftmost(t: string)
    requires AreaOf(t).Some?
    ensures exists i: nat, e1: nat, s2: nat, e: nat ::
      && PatternAt(t, i, e1, s2, e)
      && NoPatternBefore(t, i)
      && AreaOf(t) == Some(ToArea(Groups(t[i..e1], t[s2..e])))
  {
    SearchFindsLeftmost(t);
  }

  /** Absent an area in every candidate the result is `None`; otherwise it is the first candidate's. */
  lemma {:induction false} FirstAreaIsFirst(texts: seq<string>)
    ensures FirstArea(texts).None? <==> forall k :: 0 <= k < |texts| ==> AreaOf(texts[k]).None?
    ensures FirstArea(texts).Some? ==>
      exists k :: 0 <= k < |texts| && AreaOf(texts[k]) == FirstArea(texts) &&
        forall j :: 0 <= j < k ==> AreaOf(texts[j]).None?
  {
    if texts == [] {
    } else if AreaOf(texts[0]).Some? {
      assert FirstArea(texts) == AreaOf(texts[0]);
    } else {
      var rest := texts[1..];
      assert FirstArea(texts) == FirstArea(rest);
      FirstAreaIsFirst(rest);
      assert forall k :: 1 <= k < |texts| ==> texts[k] == rest[k - 1];
      if FirstArea(rest).Some? {
        var k :| 0 <= k < |rest| && AreaOf(rest[k]) == FirstArea(rest) &&
          forall j :: 0 <= j < k ==> AreaOf(rest[j]).None?;
        assert AreaOf(texts[k + 1]) == FirstArea(texts);
      }
    }
  }

  /** A text without a digit holds no area. */
  lemma NoDigitNoArea(t: string)
    requires forall k :: 0 <= k < |t| ==> !IsDigit(t[k])
    ensures AreaOf(t) == None
  {
    AreaOfNone(t);
    forall i: nat, e1: nat, s2: nat, e: nat | PatternAt(t, i, e1, s2, e)
      ensures i < |t| && IsDigit(t[i])
    {
      PatternStart(t, i, e1, s2, e);
    }
  }

  // ---------------------------------------------------------------------
  // The value and the unit

  /** Digits, with at most one `.` and a digit first: what `float` or `int` is applied to. */
  predicate IsNumberText(v: string) {
    && v != [] && IsDigit(v[0])
    && (forall k :: 0 <= k < |v| ==> IsDigit(v[k]) || v[k] == '.')
    && (forall j, k :: 0 <= j < k < |v| && v[j] == '.' ==> v[k] != '.')
  }

  lemma {:induction false} RemoveCommasAppend(a: string, b: string)
    ensures RemoveCommas(a + b) == RemoveCommas(a) + RemoveCommas(b)
  {
    if a != [] {
      RemoveCommasAppend(a[1..], b);
      assert a + b != [] && (a + b)[0] == a[0] && (a + b)[1..] == a[1..] + b;
      var h := if a[0] == ',' then [] else [a[0]];
      assert RemoveCommas(a + b) == h + RemoveCommas(a[1..] + b);
      assert RemoveCommas(a) == h + RemoveCommas(a[1..]);
    } else {
      assert a + b == b;
    }
  }

  lemma {:induction false} RemoveCommasDigits(a: string)
    requires forall k :: 0 <= k < |a| ==> IsDigit(a[k])
    ensures RemoveCommas(a) == a
  {
    if a != [] {
      RemoveCommasDigits(a[1..]);
    }
  }

  lemma NumberTextOfDigits(d: string)
    requires d != [] && forall k :: 0 <= k < |d| ==> IsDigit(d[k])
    ensures RemoveCommas(d) == d && IsNumberText(d) && '.' !in d
  {
    RemoveCommasDigits(d);
  }

  lemma RemoveCommasSplit(d1: string, x: char, d2: string)
    requires forall k :: 0 <= k < |d1| ==> IsDigit(d1[k])
    requires forall k :: 0 <= k < |d2| ==> IsDigit(d2[k])
    ensures RemoveCommas(d1 + [x] + d2) == d1 + (if x == ',' then [] else [x]) + d2
  {
    var h := if x == ',' then [] else [x];
    assert [x][1..] == [];
    assert RemoveCommas([x]) == h;
    RemoveCommasAppend(d1, [x]);
    RemoveCommasDigits(d1);
    assert RemoveCommas(d1 + [x]) == d1 + h;
    RemoveCommasAppend(d1 + [x], d2);
    RemoveCommasDigits(d2);
  }

  lemma NumberTextWithPoint(d1: string, d2: string)
    requires d1 != [] && forall k :: 0 <= k < |d1| ==> IsDigit(d1[k])
    requires forall k :: 0 <= k < |d2| ==> IsDigit(d2[k])
    ensures IsNumberText(d1 + ['.'] + d2) && '.' in d1 + ['.'] + d2
  {
    var v := d1 + ['.'] + d2;
    assert v[|d1|] == '.';
    forall k | 0 <= k < |v| && k != |d1|
      ensures IsDigit(v[k])
    {
      if k < |d1| {
        assert v[k] == d1[k];
      } else {
        assert v[k] == d2[k - |d1| - 1];
      }
    }
  }

  lemma NumberTextOfSplit(d1: string, x: char, d2: string)
    requires d1 != [] && forall k :: 0 <= k < |d1| ==> IsDigit(d1[k])
    requires forall k :: 0 <= k < |d2| ==> IsDigit(d2[k])
    requires IsSeparator(x)
    ensures var v := d1 + (if x == ',' then [] else [x]) + d2;
      IsNumberText(v) && ('.' in v <==> x == '.')
    ensures '.' in d1 + [x] + d2 <==> x == '.'
  {
    var s := d1 + [x] + d2;
    assert s[|d1|] == x;
    if x == ',' {
      var v := d1 + d2;
      assert d1 + [] + d2 == v;
      assert forall k :: 0 <= k < |v| ==> IsDigit(v[k]);
      NumberTextOfDigits(v);
      assert forall k :: 0 <= k < |s| ==> s[k] != '.';
    } else {
      NumberTextWithPoint(d1, d2);
    }
  }

  /**
   * The value is group 1 with its comma deleted in place: unchanged when
   * group 1 has no comma, otherwise the text before the comma followed by
   * the text after it. It is digits, then at most one `.` and digits, and
   * it is a float exactly when group 1 held a `.`.
   */
  lemma AreaValueShape(t: string, i: nat, e1: nat)
    requires NumberSpan(t, i, e1)
    ensures ',' !in t[i..e1] ==> RemoveCommas(t[i..e1]) == t[i..e1]
    ensures forall k :: i <= k < e1 && t[k] == ',' ==> RemoveCommas(t[i..e1]) == t[i..k] + t[k + 1..e1]
    ensures IsNumberText(RemoveCommas(t[i..e1]))
    ensures '.' in RemoveCommas(t[i..e1]) <==> '.' in t[i..e1]
  {
    var a: nat :| i < a && Digits(t, i, a) &&
      (Digits(t, a, e1) || (Digits(t, a + 1, e1) && IsSeparator(t[a])));
    if Digits(t, a, e1) {
      assert t[i..e1] == t[i..a] + t[a..e1];
      NumberTextOfDigits(t[i..e1]);
      assert forall k :: i <= k < e1 ==> t[k] != ',';
    } else {
      SeparatedNumber(t, i, a, e1);
    }
  }

  /** Group 1 split at its separator `t[a]`. */
  lemma SeparatedNumber(t: string, i: nat, a: nat, e1: nat)
    requires i < a && Digits(t, i, a) && Digits(t, a + 1, e1) && IsSeparator(t[a])
    ensures ',' !in t[i..e1] ==> RemoveCommas(t[i..e1]) == t[i..e1]
    ensures forall k :: i <= k < e1 && t[k] == ',' ==> RemoveCommas(t[i..e1]) == t[i..k] + t[k + 1..e1]
    ensures IsNumberText(RemoveCommas(t[i..e1]))
    ensures '.' in RemoveCommas(t[i..e1]) <==> '.' in t[i..e1]
  {
    var d1, d2 := t[i..a], t[a + 1..e1];
    assert t[i..e1] == d1 + [t[a]] + d2;
    RemoveCommasSplit(d1, t[a], d2);
    NumberTextOfSplit(d1, t[a], d2);
    assert forall k :: i <= k < e1 && k != a ==> t[k] != ',';
    if t[a] != ',' {
      assert ',' !in t[i..e1];
    }
  }

  /** `sq`, whitespace other than none or one space, then `w`. */
  predicate SqVariant(u: string, w: string) {
    && |u| >= 3 + |w|
    && u[..2] == "sq"
    && u[|u| - |w|..] == w
    && (forall k :: 2 <= k < |u| - |w| ==> IsSpace(u[k]))
    && u[2..|u| - |w|] != " "
  }

  lemma LowerWord(t: string, p: nat, w: string)
    requires WordAt(t, p, w)
    ensures Lower(t[p..p + |w|]) == w
  {
  }

  /** Text without upper-case letters, such as whitespace, is its own lower case. */
  lemma LowerNoUpper(s: string)
    requires forall k :: 0 <= k < |s| ==> !IsUpper(s[k])
    ensures Lower(s) == s
  {
  }

  /** The matched text of a `sq…` spelling, lower-cased. */
  lemma SqLower(t: string, p: nat, c: nat, w: string)
    requires WordAt(t, p, "sq") && Spaces(t, p + 2, c) && WordAt(t, c, w)
    ensures Lower(t[p..c + |w|]) == "sq" + t[p + 2..c] + w
  {
    var ws := t[p + 2..c];
    assert t[p..c + |w|] == t[p..p + 2] + ws + t[c..c + |w|];
    LowerAppend(t[p..p + 2] + ws, t[c..c + |w|]);
    LowerAppend(t[p..p + 2], ws);
    LowerWord(t, p, "sq");
    LowerWord(t, c, w);
    LowerNoUpper(ws);
  }

  /** The canonical unit of the `sq…w` spellings. */
  function SqCanonical(w: string): (r: string)
    requires w == "ft" || w == "m"
    ensures r == FeetSq || r == MSq
  {
    if w == "ft" then FeetSq else MSq
  }

  /**
   * How `sq`, whitespace and `w` is normalised: written with no space or
   * one space it becomes the canonical unit, otherwise it stays as spelled.
   */
  lemma SqNormalise(ws: string, w: string)
    requires forall k :: 0 <= k < |ws| ==> IsSpace(ws[k])
    requires w == "ft" || w == "m"
    ensures var l := "sq" + ws + w;
      && (l == "sq" + w || l == "sq " + w ==> NormaliseUnit(l) == SqCanonical(w))
      && (l != "sq" + w && l != "sq " + w ==> NormaliseUnit(l) == l && SqVariant(l, w))
  {
    var l := "sq" + ws + w;
    if ws == [] {
      assert l == "sq" + w;
    } else if ws == " " {
      assert l == "sq " + w;
    } else {
      assert l[..2] == "sq" && l[|l| - |w|..] == w && l[2..|l| - |w|] == ws;
      assert l[2] == ws[0] && IsSpace(ws[0]);
      if |ws| == 1 {
        assert l[2] != ' ';
        assert l != "sq ft" && l != "sq m";
      }
      assert l[|l| - 1] != '\U{00B2}' && l[0] == 's';
      assert l != FtSq && l != MSq;
      assert |l| == |ws| + 2 + |w|;
    }
  }

  /** `sq`, the whitespace, then `w`, as the recogniser reports it. */
  lemma SqSpelling(t: string, p: nat, c: nat, w: string)
    requires WordAt(t, p, "sq") && Spaces(t, p + 2, c) && WordAt(t, c, w)
    requires w == "ft" || w == "m"
    ensures var l := Lower(t[p..c + |w|]);
      && (l == "sq" + w || l == "sq " + w ==> NormaliseUnit(l) == SqCanonical(w))
      && (l != "sq" + w && l != "sq " + w ==> NormaliseUnit(l) == l && SqVariant(l, w))
  {
    SqLower(t, p, c, w);
    SqNormalise(t[p + 2..c], w);
  }

  lemma LiteralLower(t: string, s2: nat, e: nat, w: string)
    requires LiteralSpan(t, s2, e, w)
    ensures Lower(t[s2..e]) == w
  {
    LowerWord(t, s2, w);
  }

  lemma SqSpanLower(t: string, s2: nat, e: nat, w: string)
    requires SqSpan(t, s2, e, w) && (w == "ft" || w == "m")
    ensures var l := Lower(t[s2..e]);
      && (l == "sq" + w || l == "sq " + w ==> NormaliseUnit(l) == SqCanonical(w))
      && (l != "sq" + w && l != "sq " + w ==> NormaliseUnit(l) == l && SqVariant(l, w))
  {
    var c: nat :| Spaces(t, s2 + 2, c) && WordAt(t, c, w) && e == c + |w|;
    SqSpelling(t, s2, c, w);
    assert t[s2..e] == t[s2..c + |w|];
  }

  /**
   * The reported unit: `ft²` and `feet²` give `feet²`, `m²` and `sqm`
   * give `m²`, `meters²` stays; `sq…ft` and `sq…m` give the canonical
   * unit exactly when written `sqft`, `sq ft`, `sqm` or `sq m` (in any
   * case), and are otherwise returned lower-cased as spelled.
   */
  lemma UnitOfSpelling(t: string, s2: nat, e: nat)
    requires UnitSpan(t, s2, e)
    ensures var u := NormaliseUnit(Lower(t[s2..e]));
      var l := Lower(t[s2..e]);
      && (LiteralSpan(t, s2, e, FeetSq) || LiteralSpan(t, s2, e, FtSq) ==> u == FeetSq)
      && (SqSpan(t, s2, e, "ft") && (l == "sqft" || l == "sq ft") ==> u == FeetSq)
      && (SqSpan(t, s2, e, "ft") && l != "sqft" && l != "sq ft" ==> u == l && SqVariant(l, "ft"))
      && (LiteralSpan(t, s2, e, MSq) || LiteralSpan(t, s2, e, "sqm") ==> u == MSq)
      && (SqSpan(t, s2, e, "m") && (l == "sqm" || l == "sq m") ==> u == MSq)
      && (SqSpan(t, s2, e, "m") && l != "sqm" && l != "sq m" ==> u == l && SqVariant(l, "m"))
      && (LiteralSpan(t, s2, e, MetersSq) ==> u == MetersSq)
    ensures IsReportedUnit(NormaliseUnit(Lower(t[s2..e])))
  {
    if LiteralSpan(t, s2, e, FeetSq) {
      LiteralLower(t, s2, e, FeetSq);
    }
    if LiteralSpan(t, s2, e, FtSq) {
      LiteralLower(t, s2, e, FtSq);
    }
    if LiteralSpan(t, s2, e, MSq) {
      LiteralLower(t, s2, e, MSq);
    }
    if LiteralSpan(t, s2, e, "sqm") {
      LiteralLower(t, s2, e, "sqm");
    }
    if LiteralSpan(t, s2, e, MetersSq) {
      LiteralLower(t, s2, e, MetersSq);
    }
    if SqSpan(t, s2, e, "ft") {
      SqSpanLower(t, s2, e, "ft");
      assert "sq" + "ft" == "sqft" && "sq " + "ft" == "sq ft";
    }
    if SqSpan(t, s2, e, "m") {
      SqSpanLower(t, s2, e, "m");
      assert "sq" + "m" == "sqm" && "sq " + "m" == "sq m";
    }
  }

  /** The units `extract_room_area` can report. */
  predicate IsReportedUnit(u: string) {
    u == FeetSq || u == MSq || u == MetersSq || SqVariant(u, "ft") || SqVariant(u, "m")
  }

  /** What can be reported: a clean number text, its kind, and a known unit. */
  predicate WellFormedArea(a: Area) {
    && IsNumberText(a.value.text)
    && ',' !in a.value.text
    && (a.value.kind == Float <==> '.' in a.value.text)
    && IsReportedUnit(a.unit)
  }

  lemma ToAreaShape(t: string, i: nat, e1: nat, s2: nat, e: nat)
    requires PatternAt(t, i, e1, s2, e)
    ensures WellFormedArea(ToArea(Groups(t[i..e1], t[s2..e])))
  {
    assert UnitSpan(t, s2, e);
    AreaValueShape(t, i, e1);
    UnitOfSpelling(t, s2, e);
  }

  /** Every group pair `re.search` reports comes from an occurrence of the pattern. */
  lemma SearchSound(t: string)
    requires Search(t, 0).Some?
    ensures exists i: nat, e1: nat, s2: nat, e: nat ::
      PatternAt(t, i, e1, s2, e) && Search(t, 0).value == Groups(t[i..e1], t[s2..e])
  {
    SearchLeftmost(t, 0);
    var i :| 0 <= i <= |t| && MatchAt(t, i) == Search(t, 0);
    MatchAtSound(t, i);
  }

  lemma GroupsShape(t: string, g: Groups)
    requires exists i: nat, e1: nat, s2: nat, e: nat ::
      PatternAt(t, i, e1, s2, e) && g == Groups(t[i..e1], t[s2..e])
    ensures WellFormedArea(ToArea(g))
  {
    var i: nat, e1: nat, s2: nat, e: nat :| PatternAt(t, i, e1, s2, e) && g == Groups(t[i..e1], t[s2..e]);
    ToAreaShape(t, i, e1, s2, e);
  }

  /** The shape of every area read from a text. */
  lemma AreaOfShape(t: string)
    requires AreaOf(t).Some?
    ensures WellFormedArea(AreaOf(t).value)
  {
    SearchSound(t);
    GroupsShape(t, Search(t, 0).value);
  }

  // ---------------------------------------------------------------------
  // Worked examples

  /** An occurrence at the very start is the one `re.search` reports. */
  lemma AreaAtStart(t: string, e1: nat, s2: nat, e: nat, number: string, unit: string)
    requires PatternAt(t, 0, e1, s2, e) && t[..e1] == number && t[s2..e] == unit
    ensures AreaOf(t) == Some(ToArea(Groups(number, unit)))
  {
    MatchAtComplete(t, 0, e1, s2, e);
    assert t[0..e1] == t[..e1];
  }

  lemma SquareFeetMatch(t: string)
    requires t == "350 sq ft"
    ensures AreaOf(t) == Some(ToArea(Groups("350", "sq ft")))
  {
    assert Digits(t, 0, 3) && Digits(t, 3, 3);
    assert Spaces(t, 3, 4) && SquareSpan(t, 4, 4);
    assert Spaces(t, 6, 7) && WordAt(t, 7, "ft");
    assert SqSpan(t, 4, 9, "ft");
    assert t[..3] == "350" && t[4..9] == "sq ft";
    AreaAtStart(t, 3, 4, 9, "350", "sq ft");
  }

  lemma SquareFeetConversion()
    ensures ToArea(Groups("350", "sq ft")) == Area(AreaValue("350", Int), FeetSq)
  {
    RemoveCommasDigits("350");
    LowerNoUpper("sq ft");
  }

  /** "350 sq ft" reads as the integer 350 in square feet. */
  lemma SquareFeetExample()
    ensures AreaOf("350 sq ft") == Some(Area(AreaValue("350", Int), FeetSq))
  {
    SquareFeetMatch("350 sq ft");
    SquareFeetConversion();
  }

  lemma SquareMetresMatch(t: string)
    requires t == "32.5 m\U{00B2}"
    ensures AreaOf(t) == Some(ToArea(Groups("32.5", MSq)))
  {
    assert Digits(t, 0, 2) && Digits(t, 3, 4) && IsSeparator(t[2]);
    assert Spaces(t, 4, 5) && SquareSpan(t, 5, 5);
    assert LiteralSpan(t, 5, 7, MSq);
    assert t[..4] == "32.5" && t[5..7] == MSq;
    AreaAtStart(t, 4, 5, 7, "32.5", MSq);
  }

  lemma SquareMetresConversion()
    ensures ToArea(Groups("32.5", MSq)) == Area(AreaValue("32.5", Float), MSq)
  {
    assert "32.5" == "32" + ['.'] + "5";
    RemoveCommasSplit("32", '.', "5");
    LowerNoUpper(MSq);
  }

  /** "32.5 m²" reads as the float 32.5 in square metres. */
  lemma SquareMetresExample()
    ensures AreaOf("32.5 m\U{00B2}") == Some(Area(AreaValue("32.5", Float), MSq))
  {
    SquareMetresMatch("32.5 m\U{00B2}");
    SquareMetresConversion();
  }

  lemma ThousandsPattern(t: string)
    requires t == "1,500 sqft"
    ensures PatternAt(t, 0, 5, 6, 10)
  {
    assert Digits(t, 0, 1) && Digits(t, 2, 5) && IsSeparator(t[1]);
    assert Spaces(t, 5, 6) && SquareSpan(t, 6, 6);
    assert Spaces(t, 8, 8) && WordAt(t, 8, "ft");
    assert SqSpan(t, 6, 10, "ft");
  }

  lemma ThousandsMatch(t: string)
    requires t == "1,500 sqft"
    ensures AreaOf(t) == Some(ToArea(Groups("1,500", "sqft")))
  {
    ThousandsPattern(t);
    assert t[..5] == "1,500" && t[6..10] == "sqft";
    AreaAtStart(t, 5, 6, 10, "1,500", "sqft");
  }

  lemma ThousandsConversion()
    ensures ToArea(Groups("1,500", "sqft")) == Area(AreaValue("1500", Int), FeetSq)
  {
    assert "1,500" == "1" + [','] + "500";
    RemoveCommasSplit("1", ',', "500");
    assert "1" + [] + "500" == "1500";
    LowerNoUpper("sqft");
  }

  /** "1,500 sqft" reads as the integer 1500 in square feet: the comma is a thousands separator. */
  lemma ThousandsExample()
    ensures AreaOf("1,500 sqft") == Some(Area(AreaValue("1500", Int), FeetSq))
  {
    ThousandsMatch("1,500 sqft");
    ThousandsConversion();
  }

  lemma NoAreaExample()
    ensures AreaOf("Free WiFi") == None
  {
    NoDigitNoArea("Free WiFi");
  }
}
