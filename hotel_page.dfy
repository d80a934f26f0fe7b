/**
 * Row assembly of `parse_hotel_page`, over an abstract page: the HTML tree
 * search is replaced by what it yields, an optional heading text and the
 * booking tables, each a sequence of rows that carry an optional room-name
 * text, an optional serialised price element and the candidate texts in
 * which a room area is searched.
 *
 * The source displays `room_price` before assigning it (app.py:96), which
 * raises `UnboundLocalError` on the first row of any page that has one.
 * `PageAsWritten` models that behaviour; the rest of the model assembles
 * rows as lines 92-113 describe, without that call.
 */
module HotelPage {
  import opened Common
  import opened Price
  import opened RoomArea

  /** One booking-table row with a `data-block-id`. */
  datatype Row = Row(name: Option<string>, priceElement: Option<string>, candidates: seq<string>)

  /** The page: the `hp__hotel-name` heading text, if present, and the `hprt-table` tables. */
  datatype Page = Page(heading: Option<string>, tables: seq<seq<Row>>)

  /**
   * One entry of `data`. As in the source, `roomArea` receives the unit
   * and `areaUnit` receives the numeric value (app.py:102, 110-111).
   */
  datatype Record = Record(
    hotelName: string,
    checkIn: string,
    checkOut: string,
    roomName: Option<string>,
    roomPrice: Option<string>,
    roomArea: string,
    areaUnit: AreaValue,
    url: string)

  /** The display name: the heading text when the heading exists, otherwise the hotel's URL name. */
  function DisplayName(page: Page, hotelName: string): (r: string) {
    if page.heading.Some? then page.heading.value else hotelName
  }

  /** The record a row contributes, if any. */
  function RowRecord(display: string, checkIn: string, checkOut: string, url: string, row: Row): (r: Option<Record>) {
    match FirstArea(row.candidates)
    case None => None
    case Some(a) =>
      Some(Record(display, checkIn, checkOut, row.name, CleanPriceField(row.priceElement), a.unit, a.value, url))
  }

  /** The records of a sequence of rows, in row order. */
  function RowsRecords(display: string, checkIn: string, checkOut: string, url: string, rows: seq<Row>): (r: seq<Record>)
  {
    if rows == [] then []
    else
      var last := RowRecord(display, checkIn, checkOut, url, rows[|rows| - 1]);
      RowsRecords(display, checkIn, checkOut, url, rows[..|rows| - 1]) + (if last.Some? then [last.value] else [])
  }

  /** The records of a sequence of tables, in table order. */
  function TablesRecords(display: string, checkIn: string, checkOut: string, url: string, tables: seq<seq<Row>>): (r: seq<Record>)
  {
    if tables == [] then []
    else
      TablesRecords(display, checkIn, checkOut, url, tables[..|tables| - 1])
        + RowsRecords(display, checkIn, checkOut, url, tables[|tables| - 1])
  }

  /** The rows of all tables, in document order. */
  function AllRows(tables: seq<seq<Row>>): (r: seq<Row>) {
    if tables == [] then [] else AllRows(tables[..|tables| - 1]) + tables[|tables| - 1]
  }

  /** `parse_hotel_page` as a value. */
  function PageRecords(page: Page, hotelName: string, checkIn: string, checkOut: string, url: string): (r: seq<Record>) {
    TablesRecords(DisplayName(page, hotelName), checkIn, checkOut, url, page.tables)
  }

  /** The nested loops of `parse_hotel_page`: one record per row in which an area is found. */
  method ParseHotelPage(page: Page, hotelName: string, checkIn: string, checkOut: string, url: string)
    returns (data: seq<Record>)
    ensures data == PageRecords(page, hotelName, checkIn, checkOut, url)
  {
    var display := if page.heading.Some? then page.heading.value else hotelName;
    data := [];
    for ti := 0 to |page.tables|
      invariant data == TablesRecords(display, checkIn, checkOut, url, page.tables[..ti])
    {
      var table := page.tables[ti];
      assert page.tables[..ti + 1][..ti] == page.tables[..ti];
      for ri := 0 to |table|
        invariant data == TablesRecords(display, checkIn, checkOut, url, page.tables[..ti])
          + RowsRecords(display, checkIn, checkOut, url, table[..ri])
      {
        var row := table[ri];
        var roomName := row.name;
        var roomPrice := CleanPriceField(row.priceElement);
        assert table[..ri + 1][..ri] == table[..ri];
        var found := ExtractRoomArea(row.candidates);
        if found.Some? {
          // the recogniser runs a second time for the unpacking, as in the source
          var again := ExtractRoomArea(row.candidates);
          var areaUnit, roomArea := again.value.value, again.value.unit;
          data := data + [Record(display, checkIn, checkOut, roomName, roomPrice, roomArea, areaUnit, url)];
        }
      }
      assert table[..|table|] == table;
    }
    assert page.tables[..|page.tables|] == page.tables;
  }

  // ---------------------------------------------------------------------
  // Properties

  /**
   * A row yields a record exactly when an area is found in it. The record
   * carries the display name, the dates and the URL, the row's name and
   * cleaned price as they are (absent ones included), the area's unit in
   * `roomArea` and its numeric value in `areaUnit`.
   */
  lemma RowRecordFields(display: string, checkIn: string, checkOut: string, url: string, row: Row)
    ensures RowRecord(display, checkIn, checkOut, url, row).Some? <==> FirstArea(row.candidates).Some?
    ensures RowRecord(display, checkIn, checkOut, url, row).Some? ==>
      var r := RowRecord(display, checkIn, checkOut, url, row).value;
      var a := FirstArea(row.candidates).value;
      && r.hotelName == display && r.checkIn == checkIn && r.checkOut == checkOut && r.url == url
      && r.roomName == row.name
      && r.roomPrice == CleanPriceField(row.priceElement)
      && (r.roomPrice.Some? <==> row.priceElement.Some?)
      && r.roomArea == a.unit && r.areaUnit == a.value
      && IsReportedUnit(r.roomArea) && IsNumberText(r.areaUnit.text)
  {
    if FirstArea(row.candidates).Some? {
      FirstAreaIsFirst(row.candidates);
      var j :| 0 <= j < |row.candidates| && FirstArea(row.candidates) == AreaOf(row.candidates[j]);
      AreaOfShape(row.candidates[j]);
    }
  }

  lemma {:induction false} RowsRecordsAppend(display: string, checkIn: string, checkOut: string, url: string,
                                            a: seq<Row>, b: seq<Row>)
    ensures RowsRecords(display, checkIn, checkOut, url, a + b)
      == RowsRecords(display, checkIn, checkOut, url, a) + RowsRecords(display, checkIn, checkOut, url, b)
    decreases |b|
  {
    if b == [] {
      assert a + b == a;
    } else {
      assert (a + b)[..|a + b| - 1] == a + b[..|b| - 1];
      assert (a + b)[|a + b| - 1] == b[|b| - 1];
      RowsRecordsAppend(display, checkIn, checkOut, url, a, b[..|b| - 1]);
    }
  }

  /** Table by table is the same as row by row over the concatenated tables. */
  lemma {:induction false} TablesRecordsFlatten(display: string, checkIn: string, checkOut: string, url: string,
                                               tables: seq<seq<Row>>)
    ensures TablesRecords(display, checkIn, checkOut, url, tables)
      == RowsRecords(display, checkIn, checkOut, url, AllRows(tables))
  {
    if tables != [] {
      TablesRecordsFlatten(display, checkIn, checkOut, url, tables[..|tables| - 1]);
      RowsRecordsAppend(display, checkIn, checkOut, url, AllRows(tables[..|tables| - 1]), tables[|tables| - 1]);
    }
  }

  /** A record is in the output of a row sequence exactly when some row yields it. */
  lemma {:induction false} RowsRecordsMembers(display: string, checkIn: string, checkOut: string, url: string,
                                             rows: seq<Row>, r: Record)
    ensures r in RowsRecords(display, checkIn, checkOut, url, rows) <==>
      exists j :: 0 <= j < |rows| && RowRecord(display, checkIn, checkOut, url, rows[j]) == Some(r)
  {
    if rows != [] {
      var init := rows[..|rows| - 1];
      RowsRecordsMembers(display, checkIn, checkOut, url, init, r);
      if exists j :: 0 <= j < |rows| && RowRecord(display, checkIn, checkOut, url, rows[j]) == Some(r) {
        var j :| 0 <= j < |rows| && RowRecord(display, checkIn, checkOut, url, rows[j]) == Some(r);
        if j < |rows| - 1 {
          assert init[j] == rows[j];
        }
      }
      if r in RowsRecords(display, checkIn, checkOut, url, init) {
        var j :| 0 <= j < |init| && RowRecord(display, checkIn, checkOut, url, init[j]) == Some(r);
        assert rows[j] == init[j];
      }
    }
  }

  /** There is at most one record per row, and one per row exactly when every row has an area. */
  lemma {:induction false} RowsRecordsCount(display: string, checkIn: string, checkOut: string, url: string,
                                           rows: seq<Row>)
    ensures |RowsRecords(display, checkIn, checkOut, url, rows)| <= |rows|
    ensures |RowsRecords(display, checkIn, checkOut, url, rows)| == |rows| <==>
      forall j :: 0 <= j < |rows| ==> FirstArea(rows[j].candidates).Some?
  {
    if rows != [] {
      var init := rows[..|rows| - 1];
      RowsRecordsCount(display, checkIn, checkOut, url, init);
      RowsRecordsLast(display, checkIn, checkOut, url, rows);
      AllHaveAreaSplit(rows, init);
    }
  }

  /** The last row adds one record exactly when it has an area. */
  lemma RowsRecordsLast(display: string, checkIn: string, checkOut: string, url: string, rows: seq<Row>)
    requires rows != []
    ensures |RowsRecords(display, checkIn, checkOut, url, rows)|
      == |RowsRecords(display, checkIn, checkOut, url, rows[..|rows| - 1])|
         + (if FirstArea(rows[|rows| - 1].candidates).Some? then 1 else 0)
  {
  }

  /** Every row has an area exactly when every row of `init`, all rows but the last, does and the last does. */
  lemma AllHaveAreaSplit(rows: seq<Row>, init: seq<Row>)
    requires rows != [] && init == rows[..|rows| - 1]
    ensures (forall j :: 0 <= j < |rows| ==> FirstArea(rows[j].candidates).Some?) <==>
      (forall j :: 0 <= j < |init| ==> FirstArea(init[j].candidates).Some?)
      && FirstArea(rows[|rows| - 1].candidates).Some?
  {
    assert forall j :: 0 <= j < |init| ==> init[j] == rows[j];
  }

  /**
   * The page's records are, in document order, the records of its rows;
   * a record is emitted exactly when its row has an area.
   */
  lemma PageRecordsMembers(page: Page, hotelName: string, checkIn: string, checkOut: string, url: string, r: Record)
    ensures var rows := AllRows(page.tables);
      r in PageRecords(page, hotelName, checkIn, checkOut, url) <==>
      exists j :: 0 <= j < |rows| && RowRecord(DisplayName(page, hotelName), checkIn, checkOut, url, rows[j]) == Some(r)
  {
    var display := DisplayName(page, hotelName);
    TablesRecordsFlatten(display, checkIn, checkOut, url, page.tables);
    RowsRecordsMembers(display, checkIn, checkOut, url, AllRows(page.tables), r);
  }

  /** Every record of a page names the page's hotel, the stay's dates and the URL, and holds a found area. */
  lemma PageRecordsShape(page: Page, hotelName: string, checkIn: string, checkOut: string, url: string, r: Record)
    requires r in PageRecords(page, hotelName, checkIn, checkOut, url)
    ensures r.hotelName == if page.heading.Some? then page.heading.value else hotelName
    ensures r.checkIn == checkIn && r.checkOut == checkOut && r.url == url
    ensures IsReportedUnit(r.roomArea) && IsNumberText(r.areaUnit.text)
  {
    PageRecordsMembers(page, hotelName, checkIn, checkOut, url, r);
    var rows := AllRows(page.tables);
    var j :| 0 <= j < |rows| && RowRecord(DisplayName(page, hotelName), checkIn, checkOut, url, rows[j]) == Some(r);
    RowRecordFields(DisplayName(page, hotelName), checkIn, checkOut, url, rows[j]);
  }

  /**
   * Every row with an area is represented by a record carrying its name
   * and cleaned price, absent (`None`) ones included.
   */
  lemma RowWithAreaKept(page: Page, hotelName: string, checkIn: string, checkOut: string, url: string, j: nat)
    requires j < |AllRows(page.tables)| && FirstArea(AllRows(page.tables)[j].candidates).Some?
    ensures var row := AllRows(page.tables)[j];
      exists r :: r in PageRecords(page, hotelName, checkIn, checkOut, url) &&
        r.roomName == row.name && r.roomPrice == CleanPriceField(row.priceElement)
  {
    var rows := AllRows(page.tables);
    var display := DisplayName(page, hotelName);
    var r := RowRecord(display, checkIn, checkOut, url, rows[j]).value;
    PageRecordsMembers(page, hotelName, checkIn, checkOut, url, r);
  }

  // ---------------------------------------------------------------------
  // The loop as written

  /**
   * The row loop with the display of app.py:96 kept: `priceBound` says
   * whether an earlier row has bound `room_price`; reading it unbound
   * raises `UnboundLocalError`, modelled as `None`.
   */
  function RowsAsWritten(display: string, checkIn: string, checkOut: string, url: string,
                         rows: seq<Row>, priceBound: bool, acc: seq<Record>): (r: Option<seq<Record>>)
    ensures r.None? <==> rows != [] && !priceBound
    decreases |rows|
  {
    if rows == [] then Some(acc)
    else if !priceBound then None
    else
      var rec := RowRecord(display, checkIn, checkOut, url, rows[0]);
      RowsAsWritten(display, checkIn, checkOut, url, rows[1..], true, acc + (if rec.Some? then [rec.value] else []))
  }

  /** `parse_hotel_page` as written: `None` where it raises. */
  function PageAsWritten(page: Page, hotelName: string, checkIn: string, checkOut: string, url: string): (r: Option<seq<Record>>)
    ensures r.None? <==> AllRows(page.tables) != []
  {
    RowsAsWritten(DisplayName(page, hotelName), checkIn, checkOut, url, AllRows(page.tables), false, [])
  }

  /**
   * As written, `parse_hotel_page` raises on every page that has a booking
   * row, and returns the (empty) intended records only on pages without one.
   */
  lemma AsWrittenRaises(page: Page, hotelName: string, checkIn: string, checkOut: string, url: string)
    ensures PageAsWritten(page, hotelName, checkIn, checkOut, url).None? <==> AllRows(page.tables) != []
    ensures PageAsWritten(page, hotelName, checkIn, checkOut, url).Some? ==>
      PageAsWritten(page, hotelName, checkIn, checkOut, url).value == PageRecords(page, hotelName, checkIn, checkOut, url) == []
  {
    TablesRecordsFlatten(DisplayName(page, hotelName), checkIn, checkOut, url, page.tables);
  }

  /** A page with a single row that has an area. */
  lemma SingleRowPage(row: Row, hotelName: string, checkIn: string, checkOut: string, url: string)
    requires FirstArea(row.candidates).Some?
    ensures PageAsWritten(Page(None, [[row]]), hotelName, checkIn, checkOut, url).None?
    ensures |PageRecords(Page(None, [[row]]), hotelName, checkIn, checkOut, url)| == 1
  {
    var tables := [[row]];
    assert tables[..0] == [];
    assert [row][..0] == [];
    assert AllRows(tables) == [row];
    var page := Page(None, [[row]]);
    assert DisplayName(page, hotelName) == hotelName;
    assert RowsRecords(hotelName, checkIn, checkOut, url, [row]) == [RowRecord(hotelName, checkIn, checkOut, url, row).value];
    assert TablesRecords(hotelName, checkIn, checkOut, url, tables)
      == TablesRecords(hotelName, checkIn, checkOut, url, tables[..0]) + RowsRecords(hotelName, checkIn, checkOut, url, [row]);
  }

  /**
   * A page whose one row shows "350 sq ft": the intended assembly yields
   * one record, the source as written raises.
   */
  lemma UnboundPriceExample(hotelName: string, checkIn: string, checkOut: string, url: string)
    ensures var page := Page(None, [[Row(Some("Deluxe"), None, ["350 sq ft"])]]);
      && PageAsWritten(page, hotelName, checkIn, checkOut, url).None?
      && |PageRecords(page, hotelName, checkIn, checkOut, url)| == 1
  {
    var texts := ["350 sq ft"];
    SquareFeetExample();
    assert FirstArea(texts) == AreaOf(texts[0]);
    SingleRowPage(Row(Some("Deluxe"), None, texts), hotelName, checkIn, checkOut, url);
  }
}
