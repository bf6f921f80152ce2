# Trading journal: a Dafny model of the journal component

The component is a personal trading journal. It has an entry form that shows the
trade's profit or loss (PnL) live, a list of saved entries, and an editable initial
balance. A dashboard shows net PnL, the current balance, the win rate and growth. A CSV
export writes every entry out. This project models the logic behind these:

- **TradeMath** (`trade_math.dfy`): the PnL of a trade by direction (Long or Short), the
  rounding to whole cents that `toFixed(2)` applies, and the settlement at save time.
  Settlement turns a Pending trade that has an exit price into Win, Loss or BE (break-even).
- **Decimal** (`decimal.dfy`): the text `x.toFixed(2)` produces for an exact number `x`. It
  also holds a reader for plain decimal text, and a proof that reading the fixed text back
  gives `x` rounded to cents.
- **Records** (`records.dfy`): the trade record shared by the form and the saved entries, and
  the blank form. The names of the enumerations are the strings the component stores.
- **PortfolioStats** (`portfolio_stats.dfy`): net PnL, current balance, win rate and growth,
  computed from the entry list and the initial balance.
- **Csv** (`csv.dfy`): the text of the export. It also holds `Split`/`Join`, which model
  `String.prototype.split` and `Array.prototype.join` on one separator character.
- **TradingJournal** (`trading_journal.dfy`): the component's state as a class `Journal`
  with fields `entries`, `initialBalance` and `form`. Its methods model the PnL effect,
  saving, deleting and setting the balance. The pure functions that specify them sit beside
  it, with delete written as a filter.
- **Wrappers** (`wrappers.dfy`): `Option`.

Numbers are `real`. Every numeric form field is a `NumText`: the text as typed, plus the
number `parseFloat` makes of it, or `None` when that is `NaN`. A dashboard figure is `None`
when the page would compute something that is not finite. The clock (`Date.now()`,
`new Date()`), the `confirm` dialog and the values read from `localStorage` are parameters.

Four behaviours of the code that the model keeps as written:

- Growth has no zero guard. It divides by the initial balance, so for a balance of 0 the
  model's `Growth` is `None` (JavaScript gives an infinity or `NaN`), not 0.
- The stored PnL is left alone when an input stops parsing. It is not cleared. So a Pending
  trade whose exit price is emptied is saved as Pending while still carrying the PnL of its
  earlier inputs (`ClearedExitKeepsStalePnL`). The stored PnL can therefore drift from its
  inputs.
- Settlement keeps any result other than Pending. It does not force Pending when there is no
  exit price. Break-even is stored as `BE`.
- The export quotes only the reason and the notes, and doubles no quote inside them. A comma
  in the pair shifts the columns (`PairCommaShiftsColumns`), so the export does not parse
  back to the same records.

## Model

| member | source | states |
|---|---|---|
| `TradeMath.PnL` | src/TradingJournal.jsx:52-57 | The PnL is (exit - entry) times size for Long and (entry - exit) times size for Short; a flat trade or a zero size earns nothing. `PnLSign` and `LongIsNegatedShort` constrain it further |
| `TradeMath.PnLSign` | src/TradingJournal.jsx:52-57 | For a positive size the PnL is positive exactly when the price moved the trade's way, negative exactly when it moved against it, and zero exactly when exit equals entry |
| `TradeMath.LongIsNegatedShort` | src/TradingJournal.jsx:53-57 | For the same entry, exit and size, the Long PnL is the negation of the Short PnL |
| `TradeMath.Cents` | src/TradingJournal.jsx:58 | The cent count that `toFixed(2)` rounds the magnitude to lies within half a cent of it |
| `TradeMath.Round2` | src/TradingJournal.jsx:58 | The number `toFixed(2)` denotes: the cent count with the sign of x put back, never negative for a non-negative x. `Round2Error` and `Round2Sign` bound it |
| `TradeMath.Round2Error` | src/TradingJournal.jsx:58 | The stored, rounded PnL is within half a cent of the exact PnL |
| `TradeMath.Round2Sign` | src/TradingJournal.jsx:58 | The rounded PnL is positive exactly from +0.005 up and negative exactly from -0.005 down |
| `TradeMath.Settle` | src/TradingJournal.jsx:81-86 | A result that is not Pending, or a trade without an exit price, keeps its result; a Pending trade with an exit price is always settled to something other than Pending |
| `TradeMath.SettleCases` | src/TradingJournal.jsx:81-86 | Each outcome in both directions: Win exactly for PnL > 0, Loss exactly for PnL < 0, BE for zero or a PnL that is not a number (Pending trades with an exit); otherwise the result is kept |
| `TradeMath.SettleRounded` | src/TradingJournal.jsx:58-86 | With the stored PnL being the rounded one, a trade settles as Win from half a cent of profit up, Loss from half a cent of loss down, BE in between |
| `TradeMath.SettleExamples` | src/TradingJournal.jsx:52-86 | Long 100 to 110 of size 2 stores 20 and is a Win; to 90 stores -20 and is a Loss; flat stores 0 and is BE; with no exit it stays Pending |
| `Decimal.FixedText` | src/TradingJournal.jsx:58 | The `toFixed(2)` text is an optional minus sign, a whole part of digits without leading zeros, a point and exactly two digits; the minus sign is there exactly when the number is negative ("-0.00" included) |
| `Decimal.DecimalValue` | src/TradingJournal.jsx:83-84 | `parseFloat` of the stored PnL for plain decimal text: empty text is not a number, and a negative value comes only from a leading minus sign. `FixedTextValue` shows it reads the `toFixed(2)` text back as the rounded number |
| `Decimal.FixedTextValue` | src/TradingJournal.jsx:58 | Reading the `toFixed(2)` text back gives the number rounded to cents, so the stored text and the value used for settlement and net PnL agree |
| `Records.BlankForm` | src/TradingJournal.jsx:102-120 | The reset form is dated today, Pending, Long, has empty price and size fields, and its stored PnL reads as 0 |
| `PortfolioStats.EntryPnL` | src/TradingJournal.jsx:140 | An entry's term in net PnL: an empty stored PnL counts as 0 whatever its value; the term is finite exactly when the stored PnL is empty or parses, and a non-zero term is the parsed stored PnL |
| `PortfolioStats.Add` | src/TradingJournal.jsx:140 | A sum is finite exactly when both terms are, and then it is their sum |
| `PortfolioStats.TotalPnL` | src/TradingJournal.jsx:140 | Net PnL adds the entries from first to last, an empty stored PnL counting as 0; it is finite exactly when every entry's stored PnL is a number or empty |
| `PortfolioStats.TotalPnLAppend` | src/TradingJournal.jsx:140 | Net PnL of two lists laid end to end is the sum of their net PnLs |
| `PortfolioStats.TotalPnLPrepend` | src/TradingJournal.jsx:140 | Net PnL of a list with one entry in front adds that entry's PnL |
| `PortfolioStats.CurrentBalance` | src/TradingJournal.jsx:141 | The current balance is the initial balance plus net PnL, finite exactly when both are |
| `PortfolioStats.WinCount` | src/TradingJournal.jsx:142 | The number of wins never exceeds the number of entries |
| `PortfolioStats.WinCountAppend` | src/TradingJournal.jsx:142 | The number of wins of two lists laid end to end is the sum of their counts |
| `PortfolioStats.WinCountExtremes` | src/TradingJournal.jsx:142 | The count equals the length exactly when every entry is a Win, and is 0 exactly when none is |
| `PortfolioStats.WinRate` | src/TradingJournal.jsx:142 | The win rate before rounding is 0 for no entries, and otherwise the wins as a percentage of the entries: rate times the entry count is 100 times the win count |
| `PortfolioStats.WinRateBounds` | src/TradingJournal.jsx:142 | The win rate before rounding lies in [0, 100]; it is 100 exactly when the list is non-empty and all entries are wins, and 0 exactly when no entry is a win (an empty list included) |
| `PortfolioStats.WinRatePercent` | src/TradingJournal.jsx:142 | The win rate rounded by `toFixed(0)` is the whole number nearest to the win rate, halves rounded up, and lies in 0..100 |
| `PortfolioStats.Growth` | src/TradingJournal.jsx:143 | Growth is finite only for a finite, non-zero initial balance and a finite current balance, and then growth times the initial balance is 100 times the balance change |
| `PortfolioStats.GrowthIsPercentOfNet` | src/TradingJournal.jsx:143 | Growth is finite exactly when the initial balance is a non-zero number and net PnL is finite, and then it is 100 times net PnL over the initial balance |
| `PortfolioStats.EmptyJournal` | src/TradingJournal.jsx:140-143 | With no entries, net PnL is 0, the current balance is the initial balance, the win rate is 0, and growth is 0 for a non-zero balance |
| `Csv.Join` | src/TradingJournal.jsx:130-132 | The parts laid end to end with the separator between neighbours, as `join` does; the first part is a prefix of the result. `SplitJoin`, `JoinOccurrences` and `JoinSnoc` constrain it further |
| `Csv.SplitJoin` | src/TradingJournal.jsx:129-132 | Splitting a join at its separator gives the parts back when no part contains the separator |
| `Csv.SplitCount` | src/TradingJournal.jsx:129-132 | Splitting yields one piece more than the text has separators |
| `Csv.HeaderColumns` | src/TradingJournal.jsx:128 | The header line (`Header`, the column names `Columns` joined by commas) splits at its commas into the eleven column names, Date to Notes, in order |
| `Csv.Cells` | src/TradingJournal.jsx:130 | An entry's line has eleven cells, one per column of the header; the reason and notes are wrapped in double quotes (`Quoted`), and direction, emotion and result are written by their stored names (`DirectionName`, `EmotionName`, `ResultName`) |
| `Csv.Row` | src/TradingJournal.jsx:130 | An entry's line holds the commas of its cells plus ten more, one between each pair of its eleven cells |
| `Csv.Rows` | src/TradingJournal.jsx:129-131 | There is one row per entry, in list order, and row i is entry i's line |
| `Csv.CsvText` | src/TradingJournal.jsx:128-132 | The export holds one newline per entry beyond those inside the rows: one before each row |
| `Csv.CsvStartsWithHeader` | src/TradingJournal.jsx:128-132 | The export starts with the byte-order mark followed by the header; with no entries it is exactly that |
| `Csv.CsvSnoc` | src/TradingJournal.jsx:129-132 | An entry added at the end of the list adds a newline and its row at the end of the export |
| `Csv.CsvLines` | src/TradingJournal.jsx:128-132 | When no row contains a newline, the text after the mark splits into the header followed by the rows in list order |
| `Csv.RowCells` | src/TradingJournal.jsx:130 | When no cell contains a comma, an entry's line splits at its commas into exactly its eleven cells |
| `Csv.PairCommaShiftsColumns` | src/TradingJournal.jsx:130 | A pair holding one comma (and no other comma in the row) makes the row split into twelve cells, because the pair is not quoted |
| `Csv.JoinOccurrences` | src/TradingJournal.jsx:130-132 | The separators in a join are those inside the parts plus one between each pair of neighbours |
| `TradingJournal.Fixed` | src/TradingJournal.jsx:58 | The stored PnL's text is `toFixed(2)` of the PnL, and its value is the PnL rounded to cents |
| `TradingJournal.InputsParse` | src/TradingJournal.jsx:47-51 | The guard of the PnL effect: entry price, exit price and size all parse as numbers. `Recalculated` states what the effect does on each side of it |
| `TradingJournal.Recalculated` | src/TradingJournal.jsx:46-60 | The effect changes only the stored PnL. When entry, exit and size all parse (`InputsParse`), the new text is `toFixed(2)` of the exact PnL (`FormPnL`), and its value is the rounded PnL, which the text reads back as. Otherwise the form is unchanged |
| `TradingJournal.FinalResult` | src/TradingJournal.jsx:81-86 | The saved result is Pending exactly when the form is Pending and its exit text is empty, and any result other than Pending is kept. `SettleCases` gives each outcome |
| `TradingJournal.RecalculatedIdempotent` | src/TradingJournal.jsx:46-60 | Running the effect again changes nothing |
| `TradingJournal.ClearedExitKeepsStalePnL` | src/TradingJournal.jsx:47-86 | After a PnL was computed, clearing the exit price to an unparseable text leaves that PnL stored, and re-running the effect does not remove it; when the exit text is emptied on a Pending trade, the trade is saved as Pending with that PnL still stored |
| `TradingJournal.Finalized` | src/TradingJournal.jsx:88-92 | A saved entry is the form with only its result and id replaced |
| `TradingJournal.SavedResultOfRecalculated` | src/TradingJournal.jsx:46-86 | A Pending form with an exit price whose inputs all parse is saved, after the effect, as Win, Loss or BE exactly by the half-cent thresholds of its exact PnL |
| `TradingJournal.Without` | src/TradingJournal.jsx:99 | After deleting an id, no entry carries that id, the list does not grow, and every remaining entry was there before |
| `TradingJournal.Matching` | src/TradingJournal.jsx:99 | The entries a delete removes all carry the deleted id |
| `TradingJournal.WithoutSpec` | src/TradingJournal.jsx:99 | Deleting keeps the other entries in their original relative order and as often as they occurred, and removes exactly the entries with that id |
| `TradingJournal.WithoutAbsent` | src/TradingJournal.jsx:99 | Deleting an id that no entry carries leaves the list unchanged |
| `TradingJournal.DeleteUndoesSubmit` | src/TradingJournal.jsx:88-99 | Deleting the id of the entry just saved, when no older entry shares it, restores the list from before the save |
| `TradingJournal.TotalPnLWithout` | src/TradingJournal.jsx:99-140 | Net PnL before a delete is net PnL after it plus the PnL of the deleted entries |
| `TradingJournal.SubmitStats` | src/TradingJournal.jsx:88-142 | Saving adds the form's stored PnL to net PnL, and adds one win exactly when the form is saved as Win |
| `TradingJournal.Journal.constructor` | src/TradingJournal.jsx:5-37 | On load the entries are the stored list, or none. The balance is the stored one when its text is non-empty, else 1000. The form is blank and dated today |
| `TradingJournal.Journal.RecalcPnL` | src/TradingJournal.jsx:46-60 | The form becomes its recalculated form. Entries and balance are unchanged |
| `TradingJournal.Journal.Submit` | src/TradingJournal.jsx:78-96 | Exactly one entry is prepended: the form with the settled result and the fresh id. The tail is the old list and the length grows by one. The form is reset and the balance is unchanged |
| `TradingJournal.Journal.Delete` | src/TradingJournal.jsx:98-100 | After confirmation, the entries become the old ones without that id; else nothing changes. The form and balance are unchanged |
| `TradingJournal.Journal.SaveBalance` | src/TradingJournal.jsx:122-125 | The initial balance becomes the parsed value typed, which is `None` when it is not a number. Nothing else changes |

## Left out

- Reading and writing `localStorage` (lines 5-14, 40-43) is persistence. The constructor
  takes what was read, and the save effect is not modelled. A stored entry list that is not
  valid JSON (where `JSON.parse` throws) is not modelled.
- `parseFloat` itself is not modelled. Every numeric field carries its parse result, and the
  model does not check that text and value agree. The one exception is the stored PnL,
  whose value is read from its own text by `Decimal.DecimalValue`.
- Floating point: the model computes on exact reals. Binary rounding (1.005 is stored as
  1.00 in JavaScript but yields 1.01 here) is not modelled, and neither are infinite inputs
  or `toFixed`'s exponent form for magnitudes from 1e21.
- `PortfolioStats.TotalPnL`: `NaN` and the infinities are merged into one "not finite" value
  (`None`), which `CurrentBalance` and `Growth` pass on. The dashboard texts built from these
  figures (lines 170-176, 205-206) are not modelled.
- Display formatting with `toLocaleString`, `toFixed` on the dashboard, and the `+`/`▲`
  signs (lines 171, 176, 206) is presentation. `WinRatePercent` gives the rounded number,
  not its text.
- `Date.now()` ids and `new Date()` dates are clock calls. They are the `id` and `today`
  parameters.
- The `confirm` dialog is the `confirmed` parameter of `Delete`. The Blob/URL/anchor
  download of the export is browser I/O; only the text is modelled.
- `handleInputChange` and the Long/Short buttons (lines 70-76, 239-240) are presentation
  glue that assigns form fields. The model's `form` field is assigned directly. The HTML
  `required`/`type="number"` checks done before a submit are not modelled, so `Submit`
  accepts any form.
- `TradingJournal.Journal.Submit`: hiding the form (`setShowForm`) is not modelled, nor are
  the other UI toggles (`showForm`, `isEditingBalance`, `tempBalance`) or the `emotions`
  display table.
- `Csv.Row` is the eleven cells joined by commas. That is the same text as the template on
  line 130, but the model does not restate the template literally. `Csv.Header` is likewise
  the column names joined by commas.
- Reading the export back is not claimed. Quotes inside the reason and notes are not
  doubled, and the pair, date and size cells are not quoted.
- Position sizing, history filtering and cloud sync are not part of this component, so
  nothing models them.
