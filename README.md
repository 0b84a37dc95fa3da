# NBA players notebook: a verified model of its data-handling core

`nba_players.py` is a notebook that scrapes per-game statistics of NBA players for
the seasons 1980 to 2020, stacks them into one table, and then queries it. This
project models the parts of it that compute something, and proves what they
compute:

- **Header columns** (`scrape.dfy`). The header text is split on newlines, the
  first two tokens are deleted and then the last one. The result has three names
  fewer than there are tokens. The names are the tokens from the third to the one
  before last. The step fails with `IndexError` when there are fewer than three
  tokens, or when the header element has no child.
- **Season rows** (`scrape.dfy`). Each `full_table` row gives one list holding the
  texts of its `td` cells, in order.
- **Season frame** (`scrape.dfy`). `pd.DataFrame(players, columns=...)` accepts
  the rows only when there are none or when the widest row is exactly as wide as
  the header. Every row is tagged with its season.
- **Combined frame** (`scrape.dfy`). Each season's frame is appended behind the
  rows already there. A page that fails stops the scrape with its error. Of a
  successful scrape it is proved that:
  - it holds one row per full row of all pages;
  - every row belongs to a scraped season;
  - the rows of each season are exactly, in order, those parsed from that season's page;
  - the first page's header columns stay in front, no season's column is lost and `Season` is added.
- **Top-scorer tally** (`scorers.dfy`). This is the `best_scorers` dictionary loop.
  - The keys are the distinct names, in order of first appearance.
  - Each count is the number of occurrences of its name, so it is at least one.
  - The counts add up to the number of rows.
- **Position groups** (`positions.dfy`). The first five distinct position codes
  are taken as canonical. Each group is a canonical code followed by every later
  distinct code that contains it as a substring, in order.
  - Not every code lands in a group: a code is covered exactly when it is
    canonical or contains a canonical code.
  - `UncoveredCode` exhibits a table in which the code `C` is in no group.
- **Candidate filter** (`selection.dfy`). The four successive selections (season,
  position in the group, maximum age, minimum age) keep exactly the eligible rows,
  with all their copies, in table order.

`sequences.dfy` holds the generic pieces:
- `Where` stands for boolean-mask selection.
- `Distinct` stands for both `Series.unique()` and a dictionary's insertion order.
- `IsSubsequence` states that order is kept.

`text.dfy` holds `str.split` on one character, its inverse `Join`, and the
substring test `in`. `wrappers.dfy` holds `Result`.

I/O is replaced by parameters. A season page is given by what the notebook reads
off it: the number of child nodes and the text of its `thead` element, and the
cells (tag and text) of every `full_table` row. The `Scrape` method takes one page
per season from 1980 to 2020, plus the 2020 page used for the frame's initial
columns. The page text is not parsed.

## Model

| member | source | states |
|---|---|---|
| Text.Split | nba_players.py:57 | `split('\n')` yields at least one piece, and no piece contains the separator. |
| Text.JoinSplit | nba_players.py:57 | Joining the pieces of `split('\n')` with newlines gives back the original text. |
| Text.SplitJoin | nba_players.py:57 | Splitting newline-joined pieces that contain no newline gives back exactly those pieces. |
| Scrape.HeaderColumnsTokens | nba_players.py:56-59 | The header yields names exactly when the element has a child and the text has at least three newline-separated tokens. Otherwise the error is `IndexError`. The names are the tokens from index 2 to the one before last, so there are three fewer of them, and none contains a newline. |
| Scrape.ColumnNames | nba_players.py:55-59 | Splitting, deleting the first two tokens and then the last one gives the names `HeaderColumnsTokens` describes, with the same error cases. |
| Scrape.HeaderRoundTrip | nba_players.py:56-59 | A header made of two leading lines, one line per column name and one trailing line yields exactly those column names. |
| Scrape.CollectRows | nba_players.py:82-90 | One list per full row, in page order, holding the texts of that row's `td` cells in document order. |
| Scrape.MaxWidth | nba_players.py:99 | The width pandas infers for a list of rows is at least every row's length and is reached by some row when there are rows. |
| Scrape.SeasonFrameAccepts | nba_players.py:99 | `pd.DataFrame(players, columns=names)` accepts the rows exactly when no row is wider than the header and, unless there are no rows, some row is exactly as wide. |
| Scrape.SeasonFrameRows | nba_players.py:99-100 | An accepted frame has one row per list of cells, holding those cells under the given columns and tagged with the season. A refused one fails with `ColumnMismatch` reporting the number of names passed and the width of the data. |
| Scrape.ParseSeasonRows | nba_players.py:94-100 | A parsed season carries its page's header columns. It has one row per full row of the page, holding that row's `td` texts and tagged with the season. |
| Scrape.AppendSeason | nba_players.py:101 | Appending keeps the frame's rows unchanged in front and puts the season's rows behind them in order. |
| Scrape.AppendSeasonColumns | nba_players.py:101 | Appending keeps the frame's column labels in front. The result has exactly the labels of the frame, of the season and `Season`. |
| Scrape.UnionColumnsKeeps | nba_players.py:101 | The column union of `append(sort=False)` keeps the old labels in front and holds exactly the labels of both frames. |
| Scrape.Scrape | nba_players.py:51-101 | The scraping loop returns exactly `ScrapeSpec`. This means starting from the first page's columns and appending the seasons 1980 to 2020 in order, stopping at the first error. |
| Scrape.AssembleFirstError | nba_players.py:74-101 | The scrape succeeds exactly when every season parses. Otherwise its error is that of the earliest season that failed. |
| Scrape.AssembleErrorStops | nba_players.py:74-101 | Once a season fails, no later season changes the result. |
| Scrape.AssembledRows | nba_players.py:74-101 | After n seasons the start rows come first and the row count grows by exactly the rows of each season. Every added row belongs to one of those seasons. |
| Scrape.AssembledSeasons | nba_players.py:74-101 | Starting without rows, the rows of each season in the combined frame are exactly, in order, the rows parsed for it. |
| Scrape.AssembledKeepsColumns | nba_players.py:60-101 | The initial column labels stay in front through every append. |
| Scrape.AssembledColumns | nba_players.py:94-101 | Every season parsed, every label of every season's header is in the frame, and `Season` is present once a season was added. |
| Scrape.ParsedRowCount | nba_players.py:82-100 | When the pages parse, the seasons yield together one row per full row of the pages. |
| Scrape.ParsedTagged | nba_players.py:100 | Every row parsed from page k carries season `first + k`. |
| Scrape.ScrapeRowCount | nba_players.py:74-101 | A successful scrape holds exactly one row per full row of all pages. |
| Scrape.ScrapeSeasonRange | nba_players.py:74-101 | Every row of a successful scrape belongs to one of the scraped seasons. |
| Scrape.ScrapeSeasons | nba_players.py:74-101 | In a successful scrape every page parsed. The rows of season `first + k` are exactly, in order, those parsed from page k. |
| Scrape.ScrapeKeepsHeader | nba_players.py:55-101 | A successful scrape keeps the first page's header columns in front. |
| Scrape.ScrapeSeasonColumns | nba_players.py:94-101 | A successful scrape read season k's header and holds every column named there. |
| Scrape.ScrapeColumns | nba_players.py:94-101 | A successful scrape read every season's header, holds every column named in any of them, and has the `Season` column. |
| Scorers.TallyCounts | nba_players.py:204-211 | The keys are exactly the names seen. Each count is the number of occurrences of its name, hence at least one. |
| Scorers.TallyTotal | nba_players.py:204-211 | The counts summed over the keys in insertion order equal the number of names. |
| Scorers.CountBestScorers | nba_players.py:204-211 | The loop yields the keys in order of first appearance, the keys exactly the names of the table, and each count the name's number of occurrences (at least one). The counts sum to the number of rows. |
| Sequences.DistinctMembers | nba_players.py:292 | `unique()` returns every value of the column, and each only once. |
| Sequences.DistinctFirstSeen | nba_players.py:292 | The k-th unique value first appears at a position before which exactly the first k unique values were seen: the order is order of first appearance. |
| Positions.CanonicalLater | nba_players.py:292-309 | There are min(5, number of distinct codes) canonical codes. Canonical followed by later codes is the list of distinct codes, the two share no code, and together they hold every code of the table. |
| Positions.BuildGroups | nba_players.py:305-316 | The nested loops build exactly `PositionGroups`: one group per canonical code, each the canonical code followed by the later codes containing it. |
| Positions.GroupsShape | nba_players.py:305-316 | There is one group per canonical code, in order, and each starts with its code. The rest of each group is exactly the later codes containing that code, in their order of first appearance. |
| Positions.GroupsCover | nba_players.py:305-316 | A code of the table is in some group exactly when it is canonical or contains a canonical code. |
| Positions.UncoveredCode | nba_players.py:292-316 | With first codes `PF`, `SG`, `SF`, `PG`, `C-PF` and then `C`, the code `C` is in no group. |
| Selection.CandidatesEligible | nba_players.py:341-344 | The four successive selections equal one selection of the rows of the year, in the group, aged within `[age_min, age_max]`. |
| Selection.CandidatesExact | nba_players.py:341-344 | A row is a candidate exactly when it occurs in the table and is eligible. Every eligible row keeps all its copies, and the table's order is kept. |
| Selection.TeamCandidates | nba_players.py:335-344 | With the notebook's year 2013 and ages 18 to 40, every candidate is from 2013, in the group and aged 18 to 40. |

## Left out

- HTTP requests and HTML parsing (lines 51-53, 76-80, 94): pages are inputs. When `soup.find` finds no `thead`, the notebook fails on `None`; a page here always has a header.
- The list of `full_table` rows of the 2020 page (line 53) is never used by the notebook and is not modelled.
- Scrape.Scrape: takes exactly one page per season from 1980 to 2020, matching `range(1980, 2021)`.
- pandas frames are modelled only as much as the scrape uses them.
  - Each row keeps its own column list and cell list.
  - The padding of short rows with missing values is implicit.
  - The union of column labels assumes no label repeats within one header.
- The numeric coercion pass, the sqlite store and the reload from it, the `all` score, the per-season `nlargest` choice of top scorers and all plots and diagnostic cells are not part of this model.
- Scorers.CountBestScorers: takes the first column of the top-scorer table as a list of names. Which column `iat[i, 0]` reads after the reload from sqlite is not modelled, and neither is the `print`.
- Selection.Candidates: ages are integers, because the coercion that may leave missing ages is not modelled.
- The rest of the team pick is not modelled: the loop over `L`, `nlargest(players_range, ['all'])`, the `index` column, the random choice and the final append (lines 339-348). They need the `all` score and a random source.
