/**
 * The post-processing of the gathered records (app.py:357-376): rows
 * without a room name are dropped; of the rows that share
 * (check-in, check-out, room name) the one with the lowest `room_price`
 * is kept, the hotel playing no part in the grouping; and the result is
 * ordered by (check-in, hotel name).
 *
 * `room_price` is a digit string or missing, so the price order is
 * Python's string order with missing prices last, as pandas sorts an
 * object column.
 */
module Aggregate {
  import opened Common
  import opened HotelPage

  /** The `groupby` key. */
  datatype Key = Key(checkIn: string, checkOut: string, roomName: Option<string>)

  function KeyOf(r: Record): (k: Key) {
    Key(r.checkIn, r.checkOut, r.roomName)
  }

  /** `dropna(subset=['room_name'])`, keeping the order of the rows. */
  function DropNullNames(rows: seq<Record>): (r: seq<Record>)
    ensures forall x :: x in r <==> x in rows && x.roomName.Some?
  {
    if rows == [] then []
    else
      var rest := DropNullNames(rows[1..]);
      assert forall x :: x in rows <==> x == rows[0] || x in rows[1..];
      if rows[0].roomName.Some? then [rows[0]] + rest else rest
  }

  // ---------------------------------------------------------------------
  // The price order of `sort_values('room_price')`

  /**
   * `a` sorts no later than `b`: a missing price sorts after every
   * present one, and two present prices sort unless the second is
   * strictly smaller in string order.
   */
  predicate PriceLe(a: Option<string>, b: Option<string>)
    ensures a.None? && b.Some? ==> !PriceLe(a, b)
    ensures b.None? ==> PriceLe(a, b)
    ensures a.Some? && b.Some? ==> (PriceLe(a, b) <==> !StrLt(b.value, a.value))
  {
    if a.Some? && b.Some? then
      StrLeNotLt(a.value, b.value);
      StrLe(a.value, b.value)
    else b.None?
  }

  lemma PriceLeTotal(a: Option<string>, b: Option<string>)
    ensures PriceLe(a, b) || PriceLe(b, a)
  {
    if a.Some? && b.Some? {
      StrLeTotal(a.value, b.value);
    }
  }

  lemma PriceLeTransitive(a: Option<string>, b: Option<string>, c: Option<string>)
    requires PriceLe(a, b) && PriceLe(b, c)
    ensures PriceLe(a, c)
  {
    if c.Some? {
      StrLeTransitive(a.value, b.value, c.value);
    }
  }

  /** A sorted-first row: one whose price is no later than any other's. */
  function Cheapest(rows: seq<Record>): (c: Record)
    requires rows != []
    ensures c in rows
    ensures forall x :: x in rows ==> PriceLe(c.roomPrice, x.roomPrice)
  {
    if |rows| == 1 then rows[0]
    else
      var rest := Cheapest(rows[1..]);
      assert forall x :: x in rows ==> x == rows[0] || x in rows[1..];
      if PriceLe(rows[0].roomPrice, rest.roomPrice) then
        assert forall x :: x in rows[1..] ==> PriceLe(rows[0].roomPrice, x.roomPrice) by {
          forall x | x in rows[1..]
            ensures PriceLe(rows[0].roomPrice, x.roomPrice)
          {
            PriceLeTransitive(rows[0].roomPrice, rest.roomPrice, x.roomPrice);
          }
        }
        rows[0]
      else
        PriceLeTotal(rows[0].roomPrice, rest.roomPrice);
        rest
  }

  // ---------------------------------------------------------------------
  // `groupby([...]).first()`

  /** The distinct keys of `rows`, in order of first appearance. */
  function KeysOf(rows: seq<Record>): (ks: seq<Key>)
    ensures forall i, j :: 0 <= i < j < |ks| ==> ks[i] != ks[j]
    ensures forall k :: k in ks <==> exists x :: x in rows && KeyOf(x) == k
  {
    if rows == [] then []
    else
      var init := KeysOf(rows[..|rows| - 1]);
      var last := rows[|rows| - 1];
      assert forall x :: x in rows <==> x == last || x in rows[..|rows| - 1] by {
        assert rows == rows[..|rows| - 1] + [last];
      }
      if KeyOf(last) in init then init else init + [KeyOf(last)]
  }

  /** The rows of one group. */
  function WithKey(rows: seq<Record>, k: Key): (r: seq<Record>)
    ensures forall x :: x in r <==> x in rows && KeyOf(x) == k
  {
    if rows == [] then []
    else
      var rest := WithKey(rows[1..], k);
      assert forall x :: x in rows <==> x == rows[0] || x in rows[1..];
      if KeyOf(rows[0]) == k then [rows[0]] + rest else rest
  }

  /** One row per key of `ks`: the cheapest row of its group. */
  function Groups(rows: seq<Record>, ks: seq<Key>): (g: seq<Record>)
    requires forall k :: k in ks ==> WithKey(rows, k) != []
    ensures |g| == |ks|
  {
    seq(|ks|, i requires 0 <= i < |ks| => Cheapest(WithKey(rows, ks[i])))
  }

  /** The `i`-th group row has the `i`-th key, is an input row, and is no dearer than any row of its group. */
  lemma GroupAt(rows: seq<Record>, ks: seq<Key>, i: int)
    requires forall k :: k in ks ==> WithKey(rows, k) != []
    requires 0 <= i < |ks|
    ensures var g := Groups(rows, ks)[i];
      && KeyOf(g) == ks[i] && g in rows
      && forall x :: x in rows && KeyOf(x) == ks[i] ==> PriceLe(g.roomPrice, x.roomPrice)
  {
    assert ks[i] in ks;
    var w := WithKey(rows, ks[i]);
    assert Groups(rows, ks)[i] == Cheapest(w);
  }

  /** Every key of `KeysOf(rows)` has a group. */
  lemma KeysHaveGroups(rows: seq<Record>)
    ensures forall k :: k in KeysOf(rows) ==> WithKey(rows, k) != []
  {
    forall k | k in KeysOf(rows)
      ensures WithKey(rows, k) != []
    {
      var x :| x in rows && KeyOf(x) == k;
      assert x in WithKey(rows, k);
    }
  }

  // ---------------------------------------------------------------------
  // `sort_values(['check_in_date', 'hotel_name'])`

  /** The final order: check-in date, then hotel name, both in string order. */
  predicate RowLe(a: Record, b: Record) {
    StrLt(a.checkIn, b.checkIn) || (a.checkIn == b.checkIn && StrLe(a.hotelName, b.hotelName))
  }

  lemma RowLeTotal(a: Record, b: Record)
    ensures RowLe(a, b) || RowLe(b, a)
  {
    if a.checkIn != b.checkIn {
      StrLtTotal(a.checkIn, b.checkIn);
    } else {
      StrLeTotal(a.hotelName, b.hotelName);
    }
  }

  lemma RowLeTransitive(a: Record, b: Record, c: Record)
    requires RowLe(a, b) && RowLe(b, c)
    ensures RowLe(a, c)
  {
    if StrLt(a.checkIn, b.checkIn) && StrLt(b.checkIn, c.checkIn) {
      StrLtTransitive(a.checkIn, b.checkIn, c.checkIn);
    } else if a.checkIn == b.checkIn && b.checkIn == c.checkIn {
      StrLeTransitive(a.hotelName, b.hotelName, c.hotelName);
    }
  }

  predicate Sorted(s: seq<Record>) {
    forall i, j :: 0 <= i < j < |s| ==> RowLe(s[i], s[j])
  }

  function Insert(x: Record, s: seq<Record>): (r: seq<Record>)
    requires Sorted(s)
    ensures Sorted(r) && multiset(r) == multiset(s) + multiset{x}
  {
    if s == [] then [x]
    else if RowLe(x, s[0]) then
      assert forall j :: 0 <= j < |s| ==> RowLe(x, s[j]) by {
        forall j | 0 <= j < |s|
          ensures RowLe(x, s[j])
        {
          if j > 0 {
            RowLeTransitive(x, s[0], s[j]);
          }
        }
      }
      [x] + s
    else
      RowLeTotal(x, s[0]);
      var t := Insert(x, s[1..]);
      InsertHead(x, s, t);
      [s[0]] + t
  }

  lemma InsertHead(x: Record, s: seq<Record>, t: seq<Record>)
    requires s != [] && Sorted(s) && RowLe(s[0], x)
    requires Sorted(t) && multiset(t) == multiset(s[1..]) + multiset{x}
    ensures Sorted([s[0]] + t) && multiset([s[0]] + t) == multiset(s) + multiset{x}
  {
    assert s == [s[0]] + s[1..];
    forall j | 0 <= j < |t|
      ensures RowLe(s[0], t[j])
    {
      assert t[j] in multiset(t);
      if t[j] != x {
        assert t[j] in s[1..];
      }
    }
  }

  /** Insertion sort by `RowLe`. */
  function SortRows(s: seq<Record>): (r: seq<Record>)
    ensures Sorted(r) && multiset(r) == multiset(s)
  {
    if s == [] then []
    else
      assert s == [s[0]] + s[1..];
      Insert(s[0], SortRows(s[1..]))
  }

  /** The whole chain of app.py:358-376. */
  function AggregateRows(rows: seq<Record>): (r: seq<Record>)
    ensures Sorted(r)
  {
    var named := DropNullNames(rows);
    KeysHaveGroups(named);
    SortRows(Groups(named, KeysOf(named)))
  }

  // ---------------------------------------------------------------------
  // Properties

  /** Every output row is one of the group rows, each the cheapest of the group of its key. */
  lemma AggregateGroup(rows: seq<Record>, x: Record)
    requires x in AggregateRows(rows)
    ensures var named := DropNullNames(rows);
      && x in named
      && forall y :: y in named && KeyOf(y) == KeyOf(x) ==> PriceLe(x.roomPrice, y.roomPrice)
  {
    var named := DropNullNames(rows);
    var ks := KeysOf(named);
    KeysHaveGroups(named);
    var g := Groups(named, ks);
    assert x in multiset(g);
    var i :| 0 <= i < |g| && g[i] == x;
    GroupAt(named, ks, i);
  }

  /** Every output row is an input row with a room name. */
  lemma AggregateFromInput(rows: seq<Record>, x: Record)
    requires x in AggregateRows(rows)
    ensures x in rows && x.roomName.Some?
  {
    AggregateGroup(rows, x);
  }

  /** Each output row is the cheapest of the input rows with its key, in the price order. */
  lemma AggregateCheapest(rows: seq<Record>, x: Record, y: Record)
    requires x in AggregateRows(rows) && y in rows && y.roomName.Some? && KeyOf(y) == KeyOf(x)
    ensures PriceLe(x.roomPrice, y.roomPrice)
  {
    AggregateGroup(rows, x);
  }

  /** Every key of an input row with a room name has an output row. */
  lemma AggregateKeyKept(rows: seq<Record>, y: Record)
    requires y in rows && y.roomName.Some?
    ensures exists x :: x in AggregateRows(rows) && KeyOf(x) == KeyOf(y)
  {
    var named := DropNullNames(rows);
    var ks := KeysOf(named);
    KeysHaveGroups(named);
    var g := Groups(named, ks);
    assert KeyOf(y) in ks;
    var i :| 0 <= i < |ks| && ks[i] == KeyOf(y);
    GroupAt(named, ks, i);
    assert g[i] in multiset(g);
    assert g[i] in AggregateRows(rows);
  }

  /** The output keys are exactly the keys of the input rows that have a room name. */
  lemma AggregateKeys(rows: seq<Record>, k: Key)
    ensures (exists x :: x in AggregateRows(rows) && KeyOf(x) == k) <==>
            (exists y :: y in rows && y.roomName.Some? && KeyOf(y) == k)
  {
    if exists x :: x in AggregateRows(rows) && KeyOf(x) == k {
      var x :| x in AggregateRows(rows) && KeyOf(x) == k;
      AggregateFromInput(rows, x);
    }
    if exists y :: y in rows && y.roomName.Some? && KeyOf(y) == k {
      var y :| y in rows && y.roomName.Some? && KeyOf(y) == k;
      AggregateKeyKept(rows, y);
    }
  }

  /** No two output rows share a key. */
  lemma AggregateUniqueKeys(rows: seq<Record>)
    ensures var out := AggregateRows(rows);
      forall i, j :: 0 <= i < j < |out| ==> KeyOf(out[i]) != KeyOf(out[j])
  {
    var named := DropNullNames(rows);
    var ks := KeysOf(named);
    KeysHaveGroups(named);
    var g := Groups(named, ks);
    forall i, j | 0 <= i < j < |g|
      ensures KeyOf(g[i]) != KeyOf(g[j])
    {
      GroupAt(named, ks, i);
      GroupAt(named, ks, j);
    }
    SortDistinct(g);
  }

  predicate DistinctKeys(s: seq<Record>) {
    forall i, j :: 0 <= i < j < |s| ==> KeyOf(s[i]) != KeyOf(s[j])
  }

  lemma {:induction false} SortDistinct(s: seq<Record>)
    requires DistinctKeys(s)
    ensures DistinctKeys(SortRows(s))
  {
    if s != [] {
      var t := SortRows(s[1..]);
      SortDistinct(s[1..]);
      forall y | y in t
        ensures KeyOf(y) != KeyOf(s[0])
      {
        assert y in multiset(s[1..]);
        var j :| 0 <= j < |s[1..]| && s[1..][j] == y;
        assert s[j + 1] == y;
      }
      InsertDistinct(s[0], t);
    }
  }

  lemma {:induction false} InsertDistinct(x: Record, s: seq<Record>)
    requires Sorted(s) && DistinctKeys(s) && forall y :: y in s ==> KeyOf(y) != KeyOf(x)
    ensures DistinctKeys(Insert(x, s))
  {
    if s != [] && !RowLe(x, s[0]) {
      var t := Insert(x, s[1..]);
      assert forall y :: y in s[1..] ==> y in s;
      InsertDistinct(x, s[1..]);
      forall y | y in t
        ensures KeyOf(y) != KeyOf(s[0])
      {
        assert y in multiset(t);
        if y != x {
          var j :| 0 <= j < |s[1..]| && s[1..][j] == y;
          assert s[j + 1] == y;
        }
      }
      assert Insert(x, s) == [s[0]] + t;
    }
  }

  // ---------------------------------------------------------------------
  // Aggregating twice

  /**
   * The output is already aggregated: it has room names, distinct keys and
   * the final order, so a second pass returns it unchanged.
   */
  lemma AggregateIdempotent(rows: seq<Record>)
    ensures AggregateRows(AggregateRows(rows)) == AggregateRows(rows)
  {
    var out := AggregateRows(rows);
    forall x | x in out
      ensures x.roomName.Some?
    {
      AggregateFromInput(rows, x);
    }
    AggregateUniqueKeys(rows);
    DropNullNamesAll(out);
    KeysHaveGroups(out);
    GroupsOfDistinct(out);
    SortSorted(out);
  }

  /** Dropping rows without a room name changes nothing when every row has one. */
  lemma {:induction false} DropNullNamesAll(s: seq<Record>)
    requires forall x :: x in s ==> x.roomName.Some?
    ensures DropNullNames(s) == s
  {
    if s != [] {
      assert forall x :: x in s[1..] ==> x in s;
      DropNullNamesAll(s[1..]);
      assert s == [s[0]] + s[1..];
    }
  }

  /** With distinct keys, the keys in order of first appearance are the keys of the rows, one by one. */
  lemma {:induction false} KeysOfDistinct(s: seq<Record>)
    requires DistinctKeys(s)
    ensures |KeysOf(s)| == |s|
    ensures forall i :: 0 <= i < |s| ==> KeysOf(s)[i] == KeyOf(s[i])
  {
    if s != [] {
      var init := s[..|s| - 1];
      var last := s[|s| - 1];
      assert forall i :: 0 <= i < |init| ==> init[i] == s[i];
      KeysOfDistinct(init);
      forall x | x in init
        ensures KeyOf(x) != KeyOf(last)
      {
        var i :| 0 <= i < |init| && init[i] == x;
        DistinctKeyIndex(s, i, |s| - 1);
      }
    }
  }

  /** With distinct keys, a key names one position only. */
  lemma DistinctKeyIndex(s: seq<Record>, i: nat, j: nat)
    requires DistinctKeys(s) && i < |s| && j < |s|
    ensures KeyOf(s[i]) == KeyOf(s[j]) ==> i == j
  {
  }

  /** With distinct keys, every row is its own group, so grouping returns the rows themselves. */
  lemma GroupsOfDistinct(s: seq<Record>)
    requires DistinctKeys(s)
    requires forall k :: k in KeysOf(s) ==> WithKey(s, k) != []
    ensures Groups(s, KeysOf(s)) == s
  {
    KeysOfDistinct(s);
    var g := Groups(s, KeysOf(s));
    forall i | 0 <= i < |s|
      ensures g[i] == s[i]
    {
      GroupAt(s, KeysOf(s), i);
      var j :| 0 <= j < |s| && s[j] == g[i];
      DistinctKeyIndex(s, i, j);
    }
  }

  /** Sorting an already sorted sequence leaves it as it is: each row goes in front. */
  lemma {:induction false} SortSorted(s: seq<Record>)
    requires Sorted(s)
    ensures SortRows(s) == s
  {
    if s != [] {
      var rest := s[1..];
      assert forall i, j :: 0 <= i < j < |rest| ==> rest[i] == s[i + 1] && rest[j] == s[j + 1];
      SortSorted(rest);
      if rest != [] {
        assert RowLe(s[0], rest[0]);
      }
      assert s == [s[0]] + rest;
    }
  }
}
