/**
 * The price-token cleaner of `parse_hotel_page`: the serialised price
 * element is reduced to its digit characters (`re.sub(r'[^\d]', '', ...)`).
 */
module Price {
  import opened Common

  predicate AllDigits(s: string) {
    forall i :: 0 <= i < |s| ==> IsDigit(s[i])
  }

  /** Removes every character that is not a digit, keeping the order of the rest. */
  function CleanPrice(s: string): (r: string)
    ensures AllDigits(r)
    ensures |r| <= |s|
  {
    if s == [] then []
    else if IsDigit(s[0]) then [s[0]] + CleanPrice(s[1..])
    else CleanPrice(s[1..])
  }

  /** The price column: an absent price element stays `None`. */
  function CleanPriceField(element: Option<string>): (r: Option<string>)
    ensures r.Some? <==> element.Some?
    ensures r.Some? ==> AllDigits(r.value)
  {
    match element
    case None => None
    case Some(s) => Some(CleanPrice(s))
  }

  lemma {:induction false} SubsequenceMultiset(t: string, s: string)
    requires IsSubsequence(t, s)
    ensures multiset(t) <= multiset(s)
  {
    if t != [] && s != [] {
      assert s == [s[0]] + s[1..];
      if t[0] == s[0] {
        assert t == [t[0]] + t[1..];
        SubsequenceMultiset(t[1..], s[1..]);
      } else {
        SubsequenceMultiset(t, s[1..]);
      }
    }
  }

  /**
   * The cleaned price is a subsequence of the serialised element that
   * keeps every digit occurrence and no other character.
   */
  lemma {:induction false} CleanPriceKeepsDigits(s: string)
    ensures IsSubsequence(CleanPrice(s), s)
    ensures forall c :: IsDigit(c) ==> multiset(CleanPrice(s))[c] == multiset(s)[c]
    ensures forall c :: !IsDigit(c) ==> multiset(CleanPrice(s))[c] == 0
  {
    if s != [] {
      CleanPriceKeepsDigits(s[1..]);
      assert s == [s[0]] + s[1..];
      var r := CleanPrice(s[1..]);
      if IsDigit(s[0]) {
        assert CleanPrice(s) == [s[0]] + r;
        assert CleanPrice(s)[1..] == r;
      } else {
        // a digit-only string is matched against s[1..] directly
        assert r == [] || r[0] != s[0];
      }
    }
  }

  /**
   * Those three facts determine the cleaned price: any digit-only
   * subsequence holding every digit occurrence of `s` is `CleanPrice(s)`.
   */
  lemma {:induction false} CleanPriceUnique(t: string, s: string)
    requires AllDigits(t) && IsSubsequence(t, s)
    requires forall c :: IsDigit(c) ==> multiset(t)[c] == multiset(s)[c]
    ensures t == CleanPrice(s)
  {
    if s != [] {
      assert s == [s[0]] + s[1..];
      if IsDigit(s[0]) {
        if t != [] && t[0] != s[0] {
          SubsequenceMultiset(t, s[1..]);
          assert false;
        } else if t != [] {
          assert t == [t[0]] + t[1..];
          forall c | IsDigit(c)
            ensures multiset(t[1..])[c] == multiset(s[1..])[c]
          {
          }
          CleanPriceUnique(t[1..], s[1..]);
        }
      } else {
        if t != [] {
          assert t[0] != s[0];
        }
        CleanPriceUnique(t, s[1..]);
      }
    }
  }

  /** A string of digits is left unchanged. */
  lemma {:induction false} CleanPriceOfDigits(s: string)
    requires AllDigits(s)
    ensures CleanPrice(s) == s
  {
    if s != [] {
      CleanPriceOfDigits(s[1..]);
      assert s == [s[0]] + s[1..];
    }
  }

  /** Cleaning an already cleaned price changes nothing. */
  lemma CleanPriceIdempotent(s: string)
    ensures CleanPrice(CleanPrice(s)) == CleanPrice(s)
  {
    CleanPriceOfDigits(CleanPrice(s));
  }

  /** The worked example: "$1,234.56" becomes "123456". */
  lemma CleanPriceExample()
    ensures CleanPrice("$1,234.56") == "123456"
  {
    CleanPriceOfDigits("123456");
    var s := "$1,234.56";
    assert s == "$" + "1" + "," + "234" + "." + "56";
  }
}
