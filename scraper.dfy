/**
 * The table extractor of the badminton rankings scraper.
 *
 * The page's `td.el-table__cell` elements arrive as a flat, document-ordered
 * sequence. They are cut into rows of eight cells, an incomplete last row is
 * dropped, seven fields are read from fixed column offsets, and a row is kept
 * only when both its rank and its player name are non-empty.
 *
 * Each cell is reduced to the nested lookups the extractor performs on it, each
 * holding the already-stripped text of the element found, or `None` when the
 * lookup found nothing.
 */
module Scraper {
  import opened Wrappers

  /** Number of data cells in one table row. */
  const ColumnsPerRow: nat := 8

  /** An `a.link-type` element: its stripped text, descendants included, and the stripped text of the first `span` inside it. */
  datatype Link = Link(text: string, span: Option<string>)

  /** A `td.el-table__cell` element, seen through the lookups made on it. */
  datatype Cell = Cell(
    divCell: Option<string>,          // its div.cell
    rankDifference: Option<string>,   // its span.rank-difference
    linkType: Option<Link>            // its a.link-type
  )

  /** One extracted row; the fields are the columns of the CSV written later. */
  datatype PlayerRecord = PlayerRecord(
    rank: string,
    playerName: string,
    country: string,
    points: string,
    tournaments: string,
    lastUpdate: string,
    rankChange: string
  )

  /** The text of a found element, or the empty string when it is missing. */
  function TextOrEmpty(element: Option<string>): (text: string)
    ensures element.Some? ==> text == element.value
    ensures element.None? ==> text == ""
  {
    match element
    case Some(found) => found
    case None => ""
  }

  /** The text of the cell's `div.cell`, or `""` when it has none. */
  function DivText(c: Cell): (text: string)
    ensures c.divCell.Some? ==> text == c.divCell.value
    ensures c.divCell.None? ==> text == ""
  {
    TextOrEmpty(c.divCell)
  }

  /** The text of the cell's `span.rank-difference`, or `""` when it has none. */
  function RankDifferenceText(c: Cell): (text: string)
    ensures c.rankDifference.Some? ==> text == c.rankDifference.value
    ensures c.rankDifference.None? ==> text == ""
  {
    TextOrEmpty(c.rankDifference)
  }

  /** The stripped text of the whole `a.link-type`, descendants included, or `""` when it is missing. */
  function LinkText(c: Cell): (text: string)
    ensures c.linkType.Some? ==> text == c.linkType.value.text
    ensures c.linkType.None? ==> text == ""
  {
    match c.linkType
    case Some(link) => link.text
    case None => ""
  }

  /** The player name: empty when the link is missing or has no inner `span`. */
  function LinkSpanText(c: Cell): (text: string)
    ensures c.linkType.Some? && c.linkType.value.span.Some? ==> text == c.linkType.value.span.value
    ensures c.linkType.None? || c.linkType.value.span.None? ==> text == ""
  {
    match c.linkType
    case Some(link) => TextOrEmpty(link.span)
    case None => ""
  }

  /** The record read from the fixed column offsets 1 to 7 of one complete row. */
  function RowRecord(row: seq<Cell>): (record: PlayerRecord)
    requires |row| == ColumnsPerRow
    // each field is the text of the element looked up at its offset, or empty when that element is missing
    ensures row[1].divCell.Some? ==> record.rank == row[1].divCell.value
    ensures row[1].divCell.None? ==> record.rank == ""
    ensures row[2].rankDifference.Some? ==> record.rankChange == row[2].rankDifference.value
    ensures row[2].rankDifference.None? ==> record.rankChange == ""
    ensures row[3].linkType.Some? ==> record.country == row[3].linkType.value.text
    ensures row[3].linkType.None? ==> record.country == ""
    ensures row[4].linkType.Some? && row[4].linkType.value.span.Some? ==>
      record.playerName == row[4].linkType.value.span.value
    ensures row[4].linkType.None? || row[4].linkType.value.span.None? ==> record.playerName == ""
    ensures row[5].divCell.Some? ==> record.points == row[5].divCell.value
    ensures row[5].divCell.None? ==> record.points == ""
    ensures row[6].divCell.Some? ==> record.tournaments == row[6].divCell.value
    ensures row[6].divCell.None? ==> record.tournaments == ""
    ensures row[7].divCell.Some? ==> record.lastUpdate == row[7].divCell.value
    ensures row[7].divCell.None? ==> record.lastUpdate == ""
  {
    PlayerRecord(
      rank := DivText(row[1]),
      playerName := LinkSpanText(row[4]),
      country := LinkText(row[3]),
      points := DivText(row[5]),
      tournaments := DivText(row[6]),
      lastUpdate := DivText(row[7]),
      rankChange := RankDifferenceText(row[2]))
  }

  /** The condition under which a row is emitted. */
  predicate Qualifies(p: PlayerRecord) {
    p.rank != "" && p.playerName != ""
  }

  /**
   * The record of every complete row, in row order, qualifying or not: the cells
   * are cut into consecutive rows of eight and a shorter last row is dropped.
   */
  function RowRecords(cells: seq<Cell>): (records: seq<PlayerRecord>)
    ensures |records| == |cells| / ColumnsPerRow
    decreases |cells|
  {
    if |cells| < ColumnsPerRow then []
    else [RowRecord(cells[..ColumnsPerRow])] + RowRecords(cells[ColumnsPerRow..])
  }

  /** The qualifying records of `records`, in their original order. */
  function KeepQualifying(records: seq<PlayerRecord>): (kept: seq<PlayerRecord>)
    ensures |kept| <= |records|
    ensures forall j :: 0 <= j < |kept| ==> Qualifies(kept[j])
  {
    if records == [] then []
    else
      var last := records[|records| - 1];
      KeepQualifying(records[..|records| - 1]) + (if Qualifies(last) then [last] else [])
  }

  /** What the extractor returns for `cells`: the in-order filter of the row records. */
  function ExtractPlayers(cells: seq<Cell>): (players: seq<PlayerRecord>)
    ensures |players| <= |cells| / ColumnsPerRow
    ensures forall j :: 0 <= j < |players| ==> players[j].rank != "" && players[j].playerName != ""
  {
    KeepQualifying(RowRecords(cells))
  }

  /** Row `k` is read from cells `8k` to `8k + 7`, whatever follows them. */
  lemma {:induction false} RowRecordsAt(cells: seq<Cell>, k: nat)
    requires k < |cells| / ColumnsPerRow
    ensures ColumnsPerRow * k + ColumnsPerRow <= |cells|
    ensures RowRecords(cells)[k] == RowRecord(cells[ColumnsPerRow * k .. ColumnsPerRow * k + ColumnsPerRow])
    decreases k
  {
    if k > 0 {
      var rest := cells[ColumnsPerRow..];
      var lo := ColumnsPerRow * k - ColumnsPerRow;
      RowRecordsAt(rest, k - 1);
      assert rest[lo .. lo + ColumnsPerRow] == cells[ColumnsPerRow * k .. ColumnsPerRow * k + ColumnsPerRow];
    }
  }

  /** Cutting at a row boundary cuts the row records at the same place. */
  lemma {:induction false} RowRecordsAppend(a: seq<Cell>, b: seq<Cell>)
    requires |a| % ColumnsPerRow == 0
    ensures RowRecords(a + b) == RowRecords(a) + RowRecords(b)
    decreases |a|
  {
    if a == [] {
      assert a + b == b;
    } else {
      var ab := a + b;
      assert ab[..ColumnsPerRow] == a[..ColumnsPerRow];
      assert ab[ColumnsPerRow..] == a[ColumnsPerRow..] + b;
      RowRecordsAppend(a[ColumnsPerRow..], b);
    }
  }

  /** A single complete row yields its own record; a short one yields none. */
  lemma RowRecordsOfOneRow(row: seq<Cell>)
    requires |row| <= ColumnsPerRow
    ensures RowRecords(row) == if |row| == ColumnsPerRow then [RowRecord(row)] else []
  {
    if |row| == ColumnsPerRow {
      assert row[..ColumnsPerRow] == row;
      assert row[ColumnsPerRow..] == [];
    }
  }

  /** Extracting from at most one row's worth of cells: its record if it is complete and qualifies. */
  lemma ExtractPlayersOfOneRow(row: seq<Cell>)
    requires |row| <= ColumnsPerRow
    ensures ExtractPlayers(row)
         == if |row| == ColumnsPerRow && Qualifies(RowRecord(row)) then [RowRecord(row)] else []
  {
    RowRecordsOfOneRow(row);
    if |row| == ColumnsPerRow {
      var records := [RowRecord(row)];
      assert records[..0] == [];
    }
  }

  /** The end of the slice `cells[i:i+8]`, which stops short at the end of the cells. */
  function RowEnd(cells: seq<Cell>, i: nat): (end: nat)
    requires i <= |cells|
    ensures i <= end <= |cells|
    ensures end - i == ColumnsPerRow || end == |cells| < i + ColumnsPerRow
  {
    if i + ColumnsPerRow <= |cells| then i + ColumnsPerRow else |cells|
  }

  /**
   * One turn of the extractor's loop: consuming the slice that starts at row
   * boundary `i` appends the record of that slice when it is a whole, qualifying
   * row, and nothing otherwise.
   */
  lemma ExtractPlayersStep(cells: seq<Cell>, i: nat)
    requires i % ColumnsPerRow == 0 && i < |cells|
    ensures var end := RowEnd(cells, i);
      ExtractPlayers(cells[..end]) == ExtractPlayers(cells[..i]) +
        if end - i == ColumnsPerRow && Qualifies(RowRecord(cells[i..end])) then [RowRecord(cells[i..end])] else []
  {
    var end := RowEnd(cells, i);
    var prefix := cells[..end];
    assert prefix == cells[..i] + cells[i..end];
    RowRecordsAppend(cells[..i], cells[i..end]);
    RowRecordsOfOneRow(cells[i..end]);
    if end - i == ColumnsPerRow {
      var r := RowRecords(prefix);
      assert r[..|r| - 1] == RowRecords(cells[..i]);
    } else {
      assert RowRecords(prefix) == RowRecords(cells[..i]);
    }
  }

  /**
   * The loop of the source: step `i` over 0, 8, 16, ... below `|cells|`, take the
   * slice `cells[i:i+8]`, skip it when it is short, read the seven fields and
   * append the record when rank and player name are both non-empty.
   */
  method ExtractPlayerData(cells: seq<Cell>) returns (players: seq<PlayerRecord>)
    ensures players == ExtractPlayers(cells)
    ensures |players| <= |cells| / ColumnsPerRow
    ensures forall j :: 0 <= j < |players| ==> players[j].rank != "" && players[j].playerName != ""
    ensures cells == [] ==> players == []
  {
    players := [];
    var i := 0;
    while i < |cells|
      invariant i % ColumnsPerRow == 0
      invariant players == ExtractPlayers(cells[..if i <= |cells| then i else |cells|])
      decreases |cells| - i
    {
      ExtractPlayersStep(cells, i);
      assert (i + ColumnsPerRow) % ColumnsPerRow == 0;
      var rowCells := cells[i..RowEnd(cells, i)];
      if |rowCells| < ColumnsPerRow {
        i := i + ColumnsPerRow;
        continue;
      }
      var rank := DivText(rowCells[1]);
      var rankChange := RankDifferenceText(rowCells[2]);
      var country := LinkText(rowCells[3]);
      var playerName := LinkSpanText(rowCells[4]);
      var points := DivText(rowCells[5]);
      var tournaments := DivText(rowCells[6]);
      var lastUpdate := DivText(rowCells[7]);
      if rank != "" && playerName != "" {
        players := players + [PlayerRecord(rank, playerName, country, points, tournaments, lastUpdate, rankChange)];
      }
      i := i + ColumnsPerRow;
    }
    assert cells[..|cells|] == cells;
  }
}
