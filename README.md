# Badminton rankings table extractor, in Dafny

This project models the table extractor of the badminton rankings scraper,
`extract_player_data` in `scraper/scraper.py`, and proves what it computes.

The scraper parses the rankings page and collects every `td.el-table__cell`
element in document order. The extractor then does four things:

- it cuts that flat list into consecutive rows of eight cells;
- it skips a last row that has fewer than eight;
- it reads seven fields from fixed column offsets 1 to 7, with an empty string
  for any nested element that is missing;
- it keeps a row only when both its rank and its player name are non-empty.

The HTML is abstract. A `Cell` holds the already-stripped text of each nested
lookup the extractor makes, as an `Option`:

- `divCell` is `div.cell`;
- `rankDifference` is `span.rank-difference`;
- `linkType` is `a.link-type`, a `Link` made of the stripped text of the whole
  link, descendants included, and the stripped text of an optional inner `span`.

The player name is therefore absent in two ways: no link, or a link without a
span. A `PlayerRecord` has one field per key of the dictionary the source
appends (`Rank`, `Player Name`, `Country`, `Points`, `Tournaments`,
`Last Update`, `Rank Change`).

Files:

- `wrappers.dfy`: the `Option` type.
- `scraper.dfy` (module `Scraper`): the data model and the pure specification.
  The specification is `ExtractPlayers`, which filters `RowRecords` with
  `KeepQualifying`. The file also holds the imperative `ExtractPlayerData`. It
  is a `while` loop that steps `i` by 8, takes the clamped slice
  `cells[i:i+8]`, skips a short slice and appends a qualifying record, as the
  source does. It is proved equal to `ExtractPlayers`.
- `scraper_properties.dfy` (module `ScraperProperties`): lemmas about the
  specification. They cover bounds, order, which offset feeds which field,
  which rows disappear, and what never matters (offset 0, a trailing partial
  row). `QualifyingIndices` is an independent description of the filter: the
  increasing list of qualifying positions.

## Model

| member | source | states |
|---|---|---|
| `Scraper.ExtractPlayerData` | scraper/scraper.py:43-107 | the loop over `i = 0, 8, 16, ...` returns exactly `ExtractPlayers(cells)`; at most `|cells| / 8` records, each with non-empty rank and player name; no cells give no records |
| `Scraper.ExtractPlayers` | scraper/scraper.py:53-101 | the output has at most `|cells| / 8` records (only complete rows count) and every record has a non-empty rank and player name |
| `Scraper.TextOrEmpty` | scraper/scraper.py:62 | a found element gives its text, and a missing one gives `""` |
| `Scraper.DivText` | scraper/scraper.py:61-62 | a present `div.cell` gives its text, and a cell without one gives `""` |
| `Scraper.RankDifferenceText` | scraper/scraper.py:65-66 | a present `span.rank-difference` gives its text, and a cell without one gives `""` |
| `Scraper.LinkText` | scraper/scraper.py:69-70 | a present `a.link-type` gives the whole link's text, and a cell without one gives `""` |
| `Scraper.LinkSpanText` | scraper/scraper.py:73-77 | a span inside a present link gives its text as the player name; a missing link, or a link without a `span`, gives `""` |
| `Scraper.RowRecord` | scraper/scraper.py:61-101 | each of the seven fields is the text of the element looked up at its offset (1 rank, 2 rank change, 3 country, 4 player name, 5 points, 6 tournaments, 7 last update) when that element is present, and `""` when it is missing |
| `Scraper.Qualifies` | scraper/scraper.py:92 | the `if rank and player_name` test; it has no contract of its own, and `QualifyingRowsByOffsets`, `UnqualifiedRowDropped` and `MissingPlayerNameDropsRow` prove what it means for the output |
| `Scraper.RowRecords` | scraper/scraper.py:51-57 | there is one record per complete row of eight cells: `|cells| / 8` of them |
| `Scraper.KeepQualifying` | scraper/scraper.py:91-101 | the filter never lengthens its input and keeps only records with a non-empty rank and player name |
| `Scraper.RowRecordsAt` | scraper/scraper.py:53-89 | record `k` is read from cells `8k` to `8k+7`, which all exist |
| `Scraper.RowRecordsAppend` | scraper/scraper.py:53-57 | rows are cut independently: cutting the cells at a multiple of eight cuts the records at the same place |
| `Scraper.RowRecordsOfOneRow` | scraper/scraper.py:54-57 | eight cells give one record and fewer give none |
| `Scraper.ExtractPlayersOfOneRow` | scraper/scraper.py:54-101 | at most eight cells give their record if they are a complete, qualifying row, and nothing otherwise |
| `Scraper.RowEnd` | scraper/scraper.py:54 | the slice `cells[i:i+8]` ends at `i+8` or, when fewer cells remain, at the end of the cells |
| `Scraper.ExtractPlayersStep` | scraper/scraper.py:53-101 | one loop turn from row boundary `i` appends the slice's record when the slice is a complete, qualifying row, and nothing otherwise |
| `ScraperProperties.KeepQualifyingAppend` | scraper/scraper.py:92-93 | filtering distributes over concatenation |
| `ScraperProperties.ExtractPlayersAppend` | scraper/scraper.py:53-107 | extracting from `a + b` with `|a|` a multiple of eight gives the records of `a` followed by those of `b` |
| `ScraperProperties.TrailingGroupIgnored` | scraper/scraper.py:54-57 | a trailing group of fewer than eight cells never changes the output, whatever it contains |
| `ScraperProperties.ExtractPlayersCompleteRows` | scraper/scraper.py:53-57 | the output depends only on the cells up to the last multiple of eight |
| `ScraperProperties.RowRecordIgnoresFirstCell` | scraper/scraper.py:61-89 | two rows that agree on offsets 1 to 7 give the same record |
| `ScraperProperties.RowRecordsIgnoreOffsetZero` | scraper/scraper.py:61-89 | cells that agree everywhere except at offset 0 of each row give the same row records |
| `ScraperProperties.OffsetZeroIgnored` | scraper/scraper.py:61-89 | the cell at offset 0 of each row never affects the output |
| `ScraperProperties.QualifyingIndices` | scraper/scraper.py:92-93 | the qualifying positions of a record list, strictly increasing, each in range, and a position is listed exactly when its record has a non-empty rank and player name |
| `ScraperProperties.KeepQualifyingAtIndices` | scraper/scraper.py:92-101 | the filter keeps, in order, exactly the records at the qualifying positions |
| `ScraperProperties.QualifyingRowsByOffsets` | scraper/scraper.py:61-92 | row `k` qualifies exactly when the `div.cell` text at offset 1 and the link span text at offset 4 are both non-empty |
| `ScraperProperties.ExtractPlayersRows` | scraper/scraper.py:53-101 | the output has one record per qualifying complete row, in strictly increasing row order; a complete row is listed exactly when its rank and player name are non-empty |
| `ScraperProperties.ExtractPlayersByOffsets` | scraper/scraper.py:61-101 | output record `j` comes from the `j`-th qualifying row: rank from offset 1's `div.cell`, rank change from offset 2's `span.rank-difference`, country from offset 3's link, player name from the span in offset 4's link, points, tournaments and last update from the `div.cell` of offsets 5, 6 and 7 |
| `ScraperProperties.ExtractPlayersAroundRow` | scraper/scraper.py:53-101 | a complete row placed after whole rows contributes its own record exactly when it qualifies, between the records before it and those after it |
| `ScraperProperties.ExtractPlayersAtRow` | scraper/scraper.py:53-101 | the output is the records of the rows before row `k`, then row `k`'s record if it qualifies, then the records of the rows after it |
| `ScraperProperties.UnqualifiedRowDropped` | scraper/scraper.py:91-101 | a complete row with an empty rank or an empty player name is skipped whole, and extraction carries on with the next row |
| `ScraperProperties.MissingPlayerNameDropsRow` | scraper/scraper.py:73-77 | a row whose offset-4 link is missing, or has no inner span, is dropped even when its rank is present |
| `ScraperProperties.AllRowsQualifyKeepsAll` | scraper/scraper.py:53-93 | when every complete row has a non-empty rank and player name, the output has `|cells| / 8` records |
| `ScraperProperties.KeepsAllMeansAllRowsQualify` | scraper/scraper.py:53-93 | when the output has `|cells| / 8` records, every complete row has a non-empty rank and player name |
| `ScraperProperties.ExtractPlayersKeepsAllRows` | scraper/scraper.py:53-93 | the output has exactly `|cells| / 8` records if and only if every complete row has a non-empty rank and player name |
| `ScraperProperties.OneRowAndAPartialOne` | scraper/scraper.py:53-57 | fifteen cells give at most one record, taken from the first eight cells alone |
| `ScraperProperties.JaneDoeRow` | scraper/scraper.py:61-101 | one row with rank "1" and player "Jane Doe", every other lookup missing, gives exactly one record with those two fields and every other field empty |

## Left out

- `scrape_with_selenium` (scraper/scraper.py:8-41): browser automation is I/O. The model starts from the list of cells.
- `save_to_csv` (scraper/scraper.py:109-123): writing the CSV file is I/O. The record's fields follow the CSV column names.
- The `__main__` block (scraper/scraper.py:125-145): printing and orchestration.
- BeautifulSoup's `find_all`, `find` and `get_text(strip=True)` are library calls. Each nested lookup is given as the `Option` of its stripped text. A found element is always truthy in the source, so a found element with empty text yields `""` just as a missing one does.
- The `except` branch (scraper/scraper.py:103-105): the only indexing in the row body is at offsets 1 to 7. The length check at line 56 guards it, and the lookups are total in the model, so the branch cannot be reached. Its diagnostic `print` is output only.
