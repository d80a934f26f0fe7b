/**
 * The hotel-page URL of `get_hotel_details_async` (app.py:29): the
 * country, the hotel's URL name, both dates and the currency are pasted
 * into a fixed template with no escaping. The partner of the builder is a
 * parser that splits a URL back at the template's separators; the two are
 * inverse exactly on parts that do not themselves contain the separator
 * that ends them.
 */
module BookingUrl {
  import opened Common

  datatype UrlParts = UrlParts(country: string, hotel: string, checkIn: string, checkOut: string, currency: string)

  const Scheme: string := "https://www.booking.com/hotel/"
  const Page: string := "en-gb.html?checkin="
  const CheckOutKey: string := "checkout="
  const Fixed: string := "dist=0;group_adults=2;group_children=0;selected_currency="

  /**
   * The URL of one hotel page for one stay: the template
   * `https://www.booking.com/hotel/{country}/{hotel}.en-gb.html?checkin={checkIn};checkout={checkOut};dist=0;group_adults=2;group_children=0;selected_currency={currency}`.
   */
  function HotelUrl(country: string, hotel: string, checkIn: string, checkOut: string, currency: string): (r: string)
    ensures |r| == |Scheme| + |country| + |hotel| + |Page| + |checkIn| + |CheckOutKey| + |checkOut| + |Fixed| + |currency| + 4
    ensures r[..|Scheme|] == Scheme && r[|r| - |Fixed + currency|..] == Fixed + currency
  {
    Scheme + (country + ("/" + (hotel + ("." + (Page + (checkIn + (";" + (CheckOutKey + (checkOut
      + (";" + (Fixed + currency)))))))))))
  }

  function UrlOf(p: UrlParts): (r: string) {
    HotelUrl(p.country, p.hotel, p.checkIn, p.checkOut, p.currency)
  }

  /** Splits `s` at the first occurrence of `c`. */
  function SplitAt(s: string, c: char): (r: Option<(string, string)>)
    ensures r.Some? <==> c in s
    ensures r.Some? ==> s == r.value.0 + [c] + r.value.1 && c !in r.value.0
  {
    if s == [] then None
    else if s[0] == c then
      assert s == [] + [c] + s[1..];
      Some(([], s[1..]))
    else
      match SplitAt(s[1..], c)
      case None => None
      case Some(p) =>
        assert s == [s[0]] + s[1..];
        Some(([s[0]] + p.0, p.1))
  }

  /** `s` with the prefix `p` removed, if it starts with `p`. */
  function DropPrefix(p: string, s: string): (r: Option<string>)
    ensures r.Some? <==> |p| <= |s| && s[..|p|] == p
    ensures r.Some? ==> s == p + r.value
  {
    if |p| <= |s| && s[..|p|] == p then
      assert s == s[..|p|] + s[|p|..];
      Some(s[|p|..])
    else None
  }

  /** Splitting at the first `c` recovers the two halves when the first has no `c`. */
  lemma {:induction false} SplitAtJoin(a: string, c: char, b: string)
    requires c !in a
    ensures SplitAt(a + ([c] + b), c) == Some((a, b))
  {
    assert a + ([c] + b) == a + [c] + b;
    if a == [] {
      assert a + [c] + b == [c] + b;
    } else {
      assert (a + [c] + b)[1..] == a[1..] + [c] + b;
      SplitAtJoin(a[1..], c, b);
      assert a[1..] + ([c] + b) == a[1..] + [c] + b;
      assert [a[0]] + a[1..] == a;
    }
  }

  lemma DropPrefixJoin(p: string, s: string)
    ensures DropPrefix(p, p + s) == Some(s)
  {
    assert (p + s)[..|p|] == p;
  }

  /** Reads a URL of the template back into its parts. */
  function ParseHotelUrl(url: string): (r: Option<UrlParts>) {
    match DropPrefix(Scheme, url)
    case None => None
    case Some(r1) =>
      match SplitAt(r1, '/')
      case None => None
      case Some(countryRest) =>
        match SplitAt(countryRest.1, '.')
        case None => None
        case Some(hotelRest) =>
          match DropPrefix(Page, hotelRest.1)
          case None => None
          case Some(r2) =>
            match SplitAt(r2, ';')
            case None => None
            case Some(checkInRest) =>
              match DropPrefix(CheckOutKey, checkInRest.1)
              case None => None
              case Some(r3) =>
                match SplitAt(r3, ';')
                case None => None
                case Some(checkOutRest) =>
                  match DropPrefix(Fixed, checkOutRest.1)
                  case None => None
                  case Some(currency) =>
                    Some(UrlParts(countryRest.0, hotelRest.0, checkInRest.0, checkOutRest.0, currency))
  }

  /** No part contains the separator that ends it. */
  predicate Separable(p: UrlParts) {
    '/' !in p.country && '.' !in p.hotel && ';' !in p.checkIn && ';' !in p.checkOut
  }

  /** Parsing a built URL gives back its parts, when they are separable. */
  lemma ParseBuilt(p: UrlParts)
    requires Separable(p)
    ensures ParseHotelUrl(UrlOf(p)) == Some(p)
  {
    var t6 := Fixed + p.currency;
    var t5 := p.checkOut + ([';'] + t6);
    var t4 := CheckOutKey + t5;
    var t3 := p.checkIn + ([';'] + t4);
    var t2 := Page + t3;
    var t1 := p.hotel + (['.'] + t2);
    var t0 := p.country + (['/'] + t1);
    assert UrlOf(p) == Scheme + t0;
    DropPrefixJoin(Scheme, t0);
    SplitAtJoin(p.country, '/', t1);
    SplitAtJoin(p.hotel, '.', t2);
    DropPrefixJoin(Page, t3);
    SplitAtJoin(p.checkIn, ';', t4);
    DropPrefixJoin(CheckOutKey, t5);
    SplitAtJoin(p.checkOut, ';', t6);
    DropPrefixJoin(Fixed, p.currency);
  }

  /** Whatever the parser accepts is a built URL of separable parts. */
  lemma ParsedIsBuilt(url: string)
    requires ParseHotelUrl(url).Some?
    ensures Separable(ParseHotelUrl(url).value)
    ensures UrlOf(ParseHotelUrl(url).value) == url
  {
    var r1 := DropPrefix(Scheme, url).value;
    var cr := SplitAt(r1, '/').value;
    var hr := SplitAt(cr.1, '.').value;
    var r2 := DropPrefix(Page, hr.1).value;
    var ir := SplitAt(r2, ';').value;
    var r3 := DropPrefix(CheckOutKey, ir.1).value;
    var orest := SplitAt(r3, ';').value;
    var currency := DropPrefix(Fixed, orest.1).value;
    assert ParseHotelUrl(url).value == UrlParts(cr.0, hr.0, ir.0, orest.0, currency);
    Reassemble(url, r1, cr, hr, r2, ir, r3, orest, currency);
  }

  lemma Reassemble(url: string, r1: string, cr: (string, string), hr: (string, string), r2: string,
                   ir: (string, string), r3: string, orest: (string, string), currency: string)
    requires url == Scheme + r1 && r1 == cr.0 + ['/'] + cr.1 && cr.1 == hr.0 + ['.'] + hr.1
    requires hr.1 == Page + r2 && r2 == ir.0 + [';'] + ir.1 && ir.1 == CheckOutKey + r3
    requires r3 == orest.0 + [';'] + orest.1 && orest.1 == Fixed + currency
    ensures url == UrlOf(UrlParts(cr.0, hr.0, ir.0, orest.0, currency))
  {
    assert r3 == orest.0 + ([';'] + orest.1);
    assert r2 == ir.0 + ([';'] + ir.1);
    assert cr.1 == hr.0 + (['.'] + hr.1);
    assert r1 == cr.0 + (['/'] + cr.1);
  }

  /** The builder and the parser are inverse on separable parts. */
  lemma ParseIffBuilt(url: string, p: UrlParts)
    ensures ParseHotelUrl(url) == Some(p) <==> url == UrlOf(p) && Separable(p)
  {
    if ParseHotelUrl(url) == Some(p) {
      ParsedIsBuilt(url);
    }
    if url == UrlOf(p) && Separable(p) {
      ParseBuilt(p);
    }
  }

  /** Distinct separable parts give distinct URLs. */
  lemma HotelUrlInjective(p: UrlParts, q: UrlParts)
    requires Separable(p) && Separable(q) && UrlOf(p) == UrlOf(q)
    ensures p == q
  {
    ParseBuilt(p);
    ParseBuilt(q);
  }

  /**
   * Without escaping, a `/` can move between the country and the hotel
   * name without changing the URL, so different parts give the same URL.
   */
  lemma NoEscaping(a: string, b: string, c: string, checkIn: string, checkOut: string, currency: string)
    ensures HotelUrl(a + "/" + b, c, checkIn, checkOut, currency) == HotelUrl(a, b + "/" + c, checkIn, checkOut, currency)
    ensures UrlParts(a + "/" + b, c, checkIn, checkOut, currency) != UrlParts(a, b + "/" + c, checkIn, checkOut, currency)
  {
    var rest := "." + (Page + (checkIn + (";" + (CheckOutKey + (checkOut + (";" + (Fixed + currency)))))));
    assert (a + "/" + b) + ("/" + (c + rest)) == a + ("/" + ((b + "/" + c) + rest));
    assert |a + "/" + b| != |a|;
  }
}
