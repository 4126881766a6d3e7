/**
 * Properties of the table extractor: bounds, order, which cell feeds which
 * field, what makes a row disappear, and what never matters.
 */
module ScraperProperties {
  import opened Wrappers
  import opened Scraper

  /** Filtering distributes over concatenation. */
  lemma {:induction false} KeepQualifyingAppend(r1: seq<PlayerRecord>, r2: seq<PlayerRecord>)
    ensures KeepQualifying(r1 + r2) == KeepQualifying(r1) + KeepQualifying(r2)
    decreases |r2|
  {
    if r2 == [] {
      assert r1 + r2 == r1;
    } else {
      var r := r1 + r2;
      assert r[..|r| - 1] == r1 + r2[..|r2| - 1];
      assert r[|r| - 1] == r2[|r2| - 1];
      KeepQualifyingAppend(r1, r2[..|r2| - 1]);
    }
  }

  /** Extraction splits at any row boundary: rows are extracted independently. */
  lemma ExtractPlayersAppend(a: seq<Cell>, b: seq<Cell>)
    requires |a| % ColumnsPerRow == 0
    ensures ExtractPlayers(a + b) == ExtractPlayers(a) + ExtractPlayers(b)
  {
    RowRecordsAppend(a, b);
    KeepQualifyingAppend(RowRecords(a), RowRecords(b));
  }

  /** A trailing group of fewer than eight cells never contributes, whatever it holds. */
  lemma TrailingGroupIgnored(cells: seq<Cell>, tail: seq<Cell>)
    requires |cells| % ColumnsPerRow == 0 && |tail| < ColumnsPerRow
    ensures ExtractPlayers(cells + tail) == ExtractPlayers(cells)
  {
    ExtractPlayersAppend(cells, tail);
    RowRecordsOfOneRow(tail);
  }

  /** Only the complete rows count: the cells past the last multiple of eight are ignored. */
  lemma ExtractPlayersCompleteRows(cells: seq<Cell>)
    ensures ExtractPlayers(cells) == ExtractPlayers(cells[..|cells| / ColumnsPerRow * ColumnsPerRow])
  {
    var full := |cells| / ColumnsPerRow * ColumnsPerRow;
    assert cells == cells[..full] + cells[full..];
    TrailingGroupIgnored(cells[..full], cells[full..]);
  }

  /** Two complete rows that differ only in their first cell give the same record. */
  lemma RowRecordIgnoresFirstCell(row1: seq<Cell>, row2: seq<Cell>)
    requires |row1| == ColumnsPerRow && |row2| == ColumnsPerRow
    requires forall i :: 1 <= i < ColumnsPerRow ==> row1[i] == row2[i]
    ensures RowRecord(row1) == RowRecord(row2)
  {
  }

  /** The cell at offset 0 of each row never affects the output. */
  lemma {:induction false} OffsetZeroIgnored(a: seq<Cell>, b: seq<Cell>)
    requires |a| == |b|
    requires forall i :: 0 <= i < |a| && i % ColumnsPerRow != 0 ==> a[i] == b[i]
    ensures ExtractPlayers(a) == ExtractPlayers(b)
  {
    RowRecordsIgnoreOffsetZero(a, b);
  }

  /** Cells that agree everywhere except at offset 0 of each row give the same row records. */
  lemma {:induction false} RowRecordsIgnoreOffsetZero(a: seq<Cell>, b: seq<Cell>)
    requires |a| == |b|
    requires forall i :: 0 <= i < |a| && i % ColumnsPerRow != 0 ==> a[i] == b[i]
    ensures RowRecords(a) == RowRecords(b)
    decreases |a|
  {
    if |a| >= ColumnsPerRow {
      var a', b' := a[ColumnsPerRow..], b[ColumnsPerRow..];
      forall i | 0 <= i < |a'| && i % ColumnsPerRow != 0 ensures a'[i] == b'[i] {
        assert (i + ColumnsPerRow) % ColumnsPerRow == i % ColumnsPerRow;
        assert a[i + ColumnsPerRow] == b[i + ColumnsPerRow];
      }
      RowRecordsIgnoreOffsetZero(a', b');
      RowRecordIgnoresFirstCell(a[..ColumnsPerRow], b[..ColumnsPerRow]);
    }
  }

  /**
   * An independent description of the filter: the positions of the qualifying
   * records, in increasing order, exactly those positions.
   */
  function QualifyingIndices(records: seq<PlayerRecord>): (idx: seq<nat>)
    ensures |idx| <= |records|
    ensures forall j :: 0 <= j < |idx| ==> idx[j] < |records|
    ensures forall j, j' :: 0 <= j < j' < |idx| ==> idx[j] < idx[j']
    ensures forall k :: k in idx <==> 0 <= k < |records| && Qualifies(records[k])
  {
    if records == [] then []
    else
      var n := |records| - 1;
      var front := QualifyingIndices(records[..n]);
      assert forall k :: 0 <= k < n ==> records[..n][k] == records[k];
      front + (if Qualifies(records[n]) then [n] else [])
  }

  /** The filter keeps exactly the records at the qualifying positions, in order. */
  lemma {:induction false} KeepQualifyingAtIndices(records: seq<PlayerRecord>)
    ensures |KeepQualifying(records)| == |QualifyingIndices(records)|
    ensures forall j :: 0 <= j < |QualifyingIndices(records)| ==>
      KeepQualifying(records)[j] == records[QualifyingIndices(records)[j]]
    decreases |records|
  {
    if records != [] {
      var n := |records| - 1;
      KeepQualifyingAtIndices(records[..n]);
      var idx, front := QualifyingIndices(records), QualifyingIndices(records[..n]);
      var kept, keptFront := KeepQualifying(records), KeepQualifying(records[..n]);
      forall j | 0 <= j < |idx| ensures kept[j] == records[idx[j]] {
        if j < |front| {
          assert kept[j] == keptFront[j];
          assert idx[j] == front[j];
        }
      }
    }
  }

  /** The qualifying rows are exactly the complete rows with a non-empty rank and player name. */
  lemma QualifyingRowsByOffsets(cells: seq<Cell>, k: nat)
    requires k < |cells| / ColumnsPerRow
    ensures ColumnsPerRow * k + ColumnsPerRow <= |cells|
    ensures k in QualifyingIndices(RowRecords(cells)) <==>
      DivText(cells[ColumnsPerRow * k + 1]) != "" && LinkSpanText(cells[ColumnsPerRow * k + 4]) != ""
  {
    RowRecordsAt(cells, k);
  }

  /**
   * The output, row by row: `rows` lists the complete rows whose rank and player
   * name are non-empty, in document order, one output record per listed row.
   */
  lemma ExtractPlayersRows(cells: seq<Cell>)
    ensures var rows := QualifyingIndices(RowRecords(cells));
      && |ExtractPlayers(cells)| == |rows|
      && (forall j :: 0 <= j < |rows| ==> rows[j] < |cells| / ColumnsPerRow)
      && (forall j, j' :: 0 <= j < j' < |rows| ==> rows[j] < rows[j'])
      && (forall k :: 0 <= k < |cells| / ColumnsPerRow ==>
            (k in rows <==>
               DivText(cells[ColumnsPerRow * k + 1]) != "" &&
               LinkSpanText(cells[ColumnsPerRow * k + 4]) != ""))
  {
    KeepQualifyingAtIndices(RowRecords(cells));
    forall k | 0 <= k < |cells| / ColumnsPerRow
      ensures k in QualifyingIndices(RowRecords(cells)) <==>
        DivText(cells[ColumnsPerRow * k + 1]) != "" && LinkSpanText(cells[ColumnsPerRow * k + 4]) != ""
    {
      QualifyingRowsByOffsets(cells, k);
    }
  }

  /**
   * Record `j` of the output is read from row `rows[j]`, each field from its
   * fixed offset in that row, where `rows` lists the qualifying rows in order.
   */
  lemma ExtractPlayersByOffsets(cells: seq<Cell>, j: nat)
    requires j < |ExtractPlayers(cells)|
    ensures var rows := QualifyingIndices(RowRecords(cells));
      && j < |rows|
      && var at := ColumnsPerRow * rows[j];
      && at + ColumnsPerRow <= |cells|
      && ExtractPlayers(cells)[j] == PlayerRecord(
           rank := DivText(cells[at + 1]),
           playerName := LinkSpanText(cells[at + 4]),
           country := LinkText(cells[at + 3]),
           points := DivText(cells[at + 5]),
           tournaments := DivText(cells[at + 6]),
           lastUpdate := DivText(cells[at + 7]),
           rankChange := RankDifferenceText(cells[at + 2]))
  {
    var records := RowRecords(cells);
    var rows := QualifyingIndices(records);
    KeepQualifyingAtIndices(records);
    RowRecordsAt(cells, rows[j]);
    var at := ColumnsPerRow * rows[j];
    var row := cells[at .. at + ColumnsPerRow];
    assert ExtractPlayers(cells)[j] == RowRecord(row);
    assert row[1] == cells[at + 1] && row[2] == cells[at + 2] && row[3] == cells[at + 3];
    assert row[4] == cells[at + 4] && row[5] == cells[at + 5] && row[6] == cells[at + 6];
    assert row[7] == cells[at + 7];
  }

  /**
   * Row `k` contributes its own record, at the position just after the records of
   * the rows before it, when its rank and player name are non-empty, and nothing
   * otherwise; the rows after it are extracted as if it were absent.
   */
  lemma ExtractPlayersAtRow(cells: seq<Cell>, k: nat)
    requires k < |cells| / ColumnsPerRow
    ensures ColumnsPerRow * k + ColumnsPerRow <= |cells|
    ensures var record := RowRecord(cells[ColumnsPerRow * k .. ColumnsPerRow * k + ColumnsPerRow]);
      ExtractPlayers(cells)
        == ExtractPlayers(cells[..ColumnsPerRow * k])
         + (if Qualifies(record) then [record] else [])
         + ExtractPlayers(cells[ColumnsPerRow * k + ColumnsPerRow..])
  {
    var lo := ColumnsPerRow * k;
    var hi := lo + ColumnsPerRow;
    assert hi <= |cells|;
    assert lo % ColumnsPerRow == 0;
    var before, row, after := cells[..lo], cells[lo..hi], cells[hi..];
    assert cells == before + row + after;
    ExtractPlayersAroundRow(before, row, after);
  }

  /** A complete row placed after whole rows contributes its record, when it qualifies, between what comes before and after it. */
  lemma ExtractPlayersAroundRow(before: seq<Cell>, row: seq<Cell>, after: seq<Cell>)
    requires |before| % ColumnsPerRow == 0 && |row| == ColumnsPerRow
    ensures ExtractPlayers(before + row + after)
         == ExtractPlayers(before)
          + (if Qualifies(RowRecord(row)) then [RowRecord(row)] else [])
          + ExtractPlayers(after)
  {
    var upTo := before + row;
    assert |upTo| % ColumnsPerRow == 0;
    ExtractPlayersAppend(upTo, after);
    ExtractPlayersAppend(before, row);
    ExtractPlayersOfOneRow(row);
  }

  /**
   * A complete row with an empty rank or an empty player name is skipped as a
   * whole, and the extraction carries on with the rows after it.
   */
  lemma UnqualifiedRowDropped(cells: seq<Cell>, k: nat)
    requires k < |cells| / ColumnsPerRow
    requires DivText(cells[ColumnsPerRow * k + 1]) == "" || LinkSpanText(cells[ColumnsPerRow * k + 4]) == ""
    ensures ColumnsPerRow * k + ColumnsPerRow <= |cells|
    ensures ExtractPlayers(cells)
         == ExtractPlayers(cells[..ColumnsPerRow * k]) + ExtractPlayers(cells[ColumnsPerRow * k + ColumnsPerRow..])
  {
    ExtractPlayersAtRow(cells, k);
    var row := cells[ColumnsPerRow * k .. ColumnsPerRow * k + ColumnsPerRow];
    assert row[1] == cells[ColumnsPerRow * k + 1] && row[4] == cells[ColumnsPerRow * k + 4];
    assert !Qualifies(RowRecord(row));
  }

  /**
   * A row whose player link is missing, or has no inner span, is dropped even
   * when its rank is present.
   */
  lemma MissingPlayerNameDropsRow(cells: seq<Cell>, k: nat)
    requires k < |cells| / ColumnsPerRow
    requires cells[ColumnsPerRow * k + 4].linkType.None? || cells[ColumnsPerRow * k + 4].linkType.value.span.None?
    ensures ColumnsPerRow * k + ColumnsPerRow <= |cells|
    ensures ExtractPlayers(cells)
         == ExtractPlayers(cells[..ColumnsPerRow * k]) + ExtractPlayers(cells[ColumnsPerRow * k + ColumnsPerRow..])
  {
    UnqualifiedRowDropped(cells, k);
  }

  /** When every complete row has a rank and a player name, every complete row is emitted. */
  lemma AllRowsQualifyKeepsAll(cells: seq<Cell>)
    requires forall k :: 0 <= k < |cells| / ColumnsPerRow ==>
      DivText(cells[ColumnsPerRow * k + 1]) != "" && LinkSpanText(cells[ColumnsPerRow * k + 4]) != ""
    ensures |ExtractPlayers(cells)| == |cells| / ColumnsPerRow
  {
    ExtractPlayersRows(cells);
    var rows := QualifyingIndices(RowRecords(cells));
    var n := |cells| / ColumnsPerRow;
    assert |rows| <= n;
    if |rows| < n {
      var k := MissingIndex(rows, n);
      assert false;
    }
  }

  /** When every complete row is emitted, every complete row has a rank and a player name. */
  lemma KeepsAllMeansAllRowsQualify(cells: seq<Cell>)
    requires |ExtractPlayers(cells)| == |cells| / ColumnsPerRow
    ensures forall k :: 0 <= k < |cells| / ColumnsPerRow ==>
      DivText(cells[ColumnsPerRow * k + 1]) != "" && LinkSpanText(cells[ColumnsPerRow * k + 4]) != ""
  {
    ExtractPlayersRows(cells);
    var rows := QualifyingIndices(RowRecords(cells));
    var n := |cells| / ColumnsPerRow;
    assert |rows| == n;
    forall k | 0 <= k < n
      ensures DivText(cells[ColumnsPerRow * k + 1]) != "" && LinkSpanText(cells[ColumnsPerRow * k + 4]) != ""
    {
      AllIndicesPresent(rows, n, k);
      assert k in rows;
    }
  }

  /** Every complete row is emitted exactly when every one of them has a rank and a player name. */
  lemma ExtractPlayersKeepsAllRows(cells: seq<Cell>)
    ensures |ExtractPlayers(cells)| == |cells| / ColumnsPerRow <==>
      forall k :: 0 <= k < |cells| / ColumnsPerRow ==>
        DivText(cells[ColumnsPerRow * k + 1]) != "" && LinkSpanText(cells[ColumnsPerRow * k + 4]) != ""
  {
    if |ExtractPlayers(cells)| == |cells| / ColumnsPerRow {
      KeepsAllMeansAllRowsQualify(cells);
    }
    if forall k :: 0 <= k < |cells| / ColumnsPerRow ==>
        DivText(cells[ColumnsPerRow * k + 1]) != "" && LinkSpanText(cells[ColumnsPerRow * k + 4]) != "" {
      AllRowsQualifyKeepsAll(cells);
    }
  }

  /** A strictly increasing sequence of `n` indices below `n` holds each index below `n`. */
  lemma {:induction false} AllIndicesPresent(rows: seq<nat>, n: nat, k: nat)
    requires |rows| == n && k < n
    requires forall j :: 0 <= j < |rows| ==> rows[j] < n
    requires forall j, j' :: 0 <= j < j' < |rows| ==> rows[j] < rows[j']
    ensures k in rows
  {
    // rows[j] >= j and rows[j] <= n - |rows| + j, so rows[j] == j
    forall j | 0 <= j < |rows| ensures rows[j] == j {
      LowerBound(rows, j);
      UpperBound(rows, n, j);
    }
    assert rows[k] == k;
  }

  lemma {:induction false} LowerBound(rows: seq<nat>, j: nat)
    requires j < |rows|
    requires forall i, i' :: 0 <= i < i' < |rows| ==> rows[i] < rows[i']
    ensures rows[j] >= j
    decreases j
  {
    if j > 0 {
      LowerBound(rows, j - 1);
    }
  }

  lemma {:induction false} UpperBound(rows: seq<nat>, n: nat, j: nat)
    requires j < |rows|
    requires forall i :: 0 <= i < |rows| ==> rows[i] < n
    requires forall i, i' :: 0 <= i < i' < |rows| ==> rows[i] < rows[i']
    ensures rows[j] + |rows| - j <= n
    decreases |rows| - j
  {
    if j < |rows| - 1 {
      UpperBound(rows, n, j + 1);
    }
  }

  /** Fewer than `n` indices below `n` leave some index below `n` out. */
  lemma MissingIndex(rows: seq<nat>, n: nat) returns (k: nat)
    requires |rows| < n
    requires forall j :: 0 <= j < |rows| ==> rows[j] < n
    requires forall j, j' :: 0 <= j < j' < |rows| ==> rows[j] < rows[j']
    ensures k < n && k !in rows
  {
    k := 0;
    while k < |rows| && rows[k] == k
      invariant k <= |rows|
      invariant forall j :: 0 <= j < k ==> rows[j] == j
    {
      k := k + 1;
    }
    forall j | 0 <= j < |rows| ensures rows[j] != k {
      if j > k {
        LowerBound(rows, k);
      }
    }
  }

  /** Fifteen cells: one complete row and a partial one, which is ignored. */
  lemma OneRowAndAPartialOne(cells: seq<Cell>)
    requires |cells| == 15
    ensures |ExtractPlayers(cells)| <= 1
    ensures ExtractPlayers(cells) == ExtractPlayers(cells[..ColumnsPerRow])
  {
    assert cells == cells[..ColumnsPerRow] + cells[ColumnsPerRow..];
    TrailingGroupIgnored(cells[..ColumnsPerRow], cells[ColumnsPerRow..]);
  }

  /** A row with rank "1" and player "Jane Doe", every other lookup missing, gives exactly one record with every other field empty. */
  lemma JaneDoeRow()
    ensures var empty := Cell(None, None, None);
      var cells := [empty, Cell(Some("1"), None, None), empty, empty,
                    Cell(None, None, Some(Link("Jane Doe", Some("Jane Doe")))), empty, empty, empty];
      ExtractPlayers(cells) == [PlayerRecord("1", "Jane Doe", "", "", "", "", "")]
  {
  }
}
