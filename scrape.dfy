/** Building the combined per-game table from the season pages
    (nba_players.py lines 51-101). Fetching and HTML parsing stay outside:
    a page is given by what the notebook reads off it — the text and the number
    of child nodes of its `thead` element, and the cells of every row of class
    `full_table`. */
module Scrape {
  import opened Wrappers
  import opened Sequences
  import opened Text

  /** The seasons the scraping loop visits: `range(1980, 2021)`. */
  const FirstSeason := 1980
  const LastSeason := 2020

  /** One child cell of a table row: its tag (`th` or `td`) and its text. */
  datatype Cell = Cell(tag: string, text: string)

  /** What the notebook reads from one season page. */
  datatype Page = Page(headerChildren: nat, headerText: string, fullRows: seq<seq<Cell>>)

  /** One row of the combined frame: the column names of its season's header,
      its cell texts in that column order, and the added `Season` value.
      A row with fewer cells than columns is padded with missing values. */
  datatype PlayerRow = PlayerRow(columns: seq<string>, cells: seq<string>, season: int)

  /** The combined frame: its column labels and its rows in append order. */
  datatype Frame = Frame(columns: seq<string>, rows: seq<PlayerRow>)

  /** Exceptions the scraping cells can raise. `IndexError` comes from indexing an
      empty list or deleting from one; `ColumnMismatch` is the error pandas raises
      when the number of column names differs from the width of the data. */
  datatype ScrapeError = IndexError | ColumnMismatch(passed: nat, found: nat)

  /** Column names of a header: the newline-separated tokens of its text without
      the first two and the last one. `headChildren` is the number of child nodes
      of the element the list comprehension iterates over; with none, taking
      element `[0]` fails. */
  function HeaderColumns(headChildren: nat, text: string): Result<seq<string>, ScrapeError>
  {
    if headChildren == 0 then Err(IndexError)
    else
      var tokens := Split(text, '\n');
      if |tokens| < 3 then Err(IndexError) else Ok(tokens[2..|tokens| - 1])
  }

  /** The header yields column names exactly when the element has a child and its
      text has at least three tokens; the names are then the tokens from the third
      to the one before last, in order, so there are three fewer of them, and none
      contains a newline. */
  lemma HeaderColumnsTokens(headChildren: nat, text: string)
    ensures HeaderColumns(headChildren, text).Ok? <==> headChildren > 0 && |Split(text, '\n')| >= 3
    ensures HeaderColumns(headChildren, text).Err? ==> HeaderColumns(headChildren, text).error == IndexError
    ensures HeaderColumns(headChildren, text).Ok? ==>
      var names := HeaderColumns(headChildren, text).value;
      && |names| == |Split(text, '\n')| - 3
      && (forall i :: 0 <= i < |names| ==> names[i] == Split(text, '\n')[i + 2])
      && (forall i :: 0 <= i < |names| ==> '\n' !in names[i])
  {
    var tokens := Split(text, '\n');
    if HeaderColumns(headChildren, text).Ok? {
      var names := HeaderColumns(headChildren, text).value;
      forall i | 0 <= i < |names| ensures '\n' !in names[i] {
        assert names[i] == tokens[i + 2];
      }
    }
  }

  /** Lines 56-59 and 95-98: split the header text, delete the first two tokens,
      then delete the last one. */
  method ColumnNames(headChildren: nat, text: string) returns (r: Result<seq<string>, ScrapeError>)
    ensures r == HeaderColumns(headChildren, text)
  {
    if headChildren == 0 {
      return Err(IndexError);
    }
    ghost var tokens := Split(text, '\n');
    var names := Split(text, '\n');
    names := names[if |names| < 2 then |names| else 2..];
    if |names| == 0 {
      return Err(IndexError);
    }
    names := names[..|names| - 1];
    assert names == tokens[2..|tokens| - 1];
    return Ok(names);
  }

  /** A header laid out as two leading tokens, the column names and one trailing
      token, one per line, yields exactly those column names. */
  lemma HeaderRoundTrip(headChildren: nat, lead: seq<string>, names: seq<string>, trail: string)
    requires headChildren > 0 && |lead| == 2
    requires forall k :: 0 <= k < |lead + names + [trail]| ==> '\n' !in (lead + names + [trail])[k]
    ensures HeaderColumns(headChildren, Join(lead + names + [trail], '\n')) == Ok(names)
  {
    var tokens := lead + names + [trail];
    SplitJoin(tokens, '\n');
    assert tokens[2..|tokens| - 1] == names;
  }

  predicate IsTd(c: Cell) {
    c.tag == "td"
  }

  function Texts(cells: seq<Cell>): seq<string> {
    seq(|cells|, k requires 0 <= k < |cells| => cells[k].text)
  }

  /** The texts of a row's `td` cells, in document order (`row.find_all('td')`). */
  function TdTexts(row: seq<Cell>): seq<string> {
    Texts(Where(row, IsTd))
  }

  /** Lines 82-90: one list of cell texts per full row. */
  method CollectRows(fullRows: seq<seq<Cell>>) returns (players: seq<seq<string>>)
    ensures |players| == |fullRows|
    ensures forall i :: 0 <= i < |players| ==> players[i] == TdTexts(fullRows[i])
  {
    players := [];
    var i := 0;
    while i < |fullRows|
      invariant 0 <= i <= |fullRows|
      invariant |players| == i
      invariant forall k :: 0 <= k < i ==> players[k] == TdTexts(fullRows[k])
    {
      var player: seq<string> := [];
      var tds := Where(fullRows[i], IsTd);
      var j := 0;
      while j < |tds|
        invariant 0 <= j <= |tds|
        invariant |player| == j
        invariant forall k :: 0 <= k < j ==> player[k] == tds[k].text
      {
        player := player + [tds[j].text];
        j := j + 1;
      }
      assert player == Texts(tds);
      players := players + [player];
      i := i + 1;
    }
  }

  /** The rows collected from one page. */
  function PageRows(page: Page): seq<seq<string>> {
    seq(|page.fullRows|, i requires 0 <= i < |page.fullRows| => TdTexts(page.fullRows[i]))
  }

  /** The width pandas gives a list of rows: that of the longest row. */
  function MaxWidth(players: seq<seq<string>>): (w: nat)
    ensures forall k :: 0 <= k < |players| ==> |players[k]| <= w
    ensures players != [] ==> exists k :: 0 <= k < |players| && |players[k]| == w
  {
    if players == [] then 0
    else
      var rest := MaxWidth(players[1..]);
      if |players[0]| >= rest then |players[0]| else rest
  }

  /** Lines 99-100: `pd.DataFrame(players, columns=names)` tagged with the season.
      pandas accepts the rows when there are none, or when the longest row is exactly
      as wide as the header; every row is then one player row of that season. */
  function SeasonFrame(players: seq<seq<string>>, columns: seq<string>, season: int): Result<seq<PlayerRow>, ScrapeError>
  {
    if players != [] && MaxWidth(players) != |columns| then Err(ColumnMismatch(|columns|, MaxWidth(players)))
    else Ok(seq(|players|, i requires 0 <= i < |players| => PlayerRow(columns, players[i], season)))
  }

  /** An accepted frame has one player row per list of cells, holding those cells
      under the given columns and tagged with the season; a refused one reports
      how many names were passed against the width of the data. */
  lemma SeasonFrameRows(players: seq<seq<string>>, columns: seq<string>, season: int)
    ensures SeasonFrame(players, columns, season).Ok? ==>
      var rows := SeasonFrame(players, columns, season).value;
      && |rows| == |players|
      && forall i :: 0 <= i < |rows| ==>
           rows[i].season == season && rows[i].cells == players[i] && rows[i].columns == columns
    ensures SeasonFrame(players, columns, season).Err? ==>
      SeasonFrame(players, columns, season).error == ColumnMismatch(|columns|, MaxWidth(players))
  {
  }

  /** pandas accepts the rows exactly when no row is wider than the header and,
      unless there are no rows, some row is exactly as wide. */
  lemma SeasonFrameAccepts(players: seq<seq<string>>, columns: seq<string>, season: int)
    ensures SeasonFrame(players, columns, season).Ok? <==>
      (forall k :: 0 <= k < |players| ==> |players[k]| <= |columns|) &&
      (players != [] ==> exists k :: 0 <= k < |players| && |players[k]| == |columns|)
  {
  }

  /** One season's table: the column names of its header and its player rows. */
  datatype SeasonTable = SeasonTable(columns: seq<string>, rows: seq<PlayerRow>)

  /** Lines 82-100 for one page: the header columns first, then the frame of its rows. */
  function ParseSeason(headChildren: nat, page: Page, season: int): Result<SeasonTable, ScrapeError>
  {
    var columns := HeaderColumns(headChildren, page.headerText);
    if columns.Err? then Err(columns.error)
    else
      var rows := SeasonFrame(PageRows(page), columns.value, season);
      if rows.Err? then Err(rows.error) else Ok(SeasonTable(columns.value, rows.value))
  }

  /** A parsed season carries the column names of its page's header. */
  lemma ParseSeasonColumns(headChildren: nat, page: Page, season: int)
    requires ParseSeason(headChildren, page, season).Ok?
    ensures HeaderColumns(headChildren, page.headerText).Ok?
    ensures ParseSeason(headChildren, page, season).value.columns == HeaderColumns(headChildren, page.headerText).value
  {
  }

  /** A parsed season has one row per full row of the page, holding that row's `td`
      texts under the page's header columns, and every row carries the season. */
  lemma ParseSeasonRows(headChildren: nat, page: Page, season: int)
    requires ParseSeason(headChildren, page, season).Ok?
    ensures HeaderColumns(headChildren, page.headerText).Ok?
    ensures ParseSeason(headChildren, page, season).value.columns == HeaderColumns(headChildren, page.headerText).value
    ensures |ParseSeason(headChildren, page, season).value.rows| == |page.fullRows|
    ensures forall i :: 0 <= i < |page.fullRows| ==>
      var row := ParseSeason(headChildren, page, season).value.rows[i];
      row.season == season && row.cells == TdTexts(page.fullRows[i])
  {
    SeasonFrameRows(PageRows(page), HeaderColumns(headChildren, page.headerText).value, season);
  }

  function NotIn(a: seq<string>): string -> bool {
    (c: string) => c !in a
  }

  /** Column labels after `append(..., sort=False)`: the existing labels, then the
      new labels not yet present, in their order. */
  function UnionColumns(a: seq<string>, b: seq<string>): seq<string>
  {
    a + Where(b, NotIn(a))
  }

  /** The union keeps `a` in front and holds exactly the labels of `a` and `b`. */
  lemma UnionColumnsKeeps(a: seq<string>, b: seq<string>)
    ensures a <= UnionColumns(a, b)
    ensures forall c :: c in UnionColumns(a, b) <==> c in a || c in b
  {
    WhereMembers(b, NotIn(a));
  }

  /** Line 101: `df.append(df2, ignore_index=True, sort=False)` with `df2` carrying
      the added `Season` column. The rows already in the frame stay, in front and
      unchanged, and the season's rows follow in order. */
  function AppendSeason(frame: Frame, table: SeasonTable): (r: Frame)
    ensures |r.rows| == |frame.rows| + |table.rows|
    ensures r.rows[..|frame.rows|] == frame.rows && r.rows[|frame.rows|..] == table.rows
  {
    Frame(UnionColumns(frame.columns, table.columns + ["Season"]), frame.rows + table.rows)
  }

  /** Appending keeps the frame's column labels in front, loses none of the
      season's labels, adds `Season`, and invents no other label. */
  lemma AppendSeasonColumns(frame: Frame, table: SeasonTable)
    ensures frame.columns <= AppendSeason(frame, table).columns
    ensures forall c :: c in AppendSeason(frame, table).columns <==>
      c in frame.columns || c in table.columns || c == "Season"
  {
    UnionColumnsKeeps(frame.columns, table.columns + ["Season"]);
  }

  /** Appending the parsed seasons `parsed[0..n]` one after the other to `start`;
      the first season that failed to parse stops it with its error. */
  function Assemble(start: Frame, parsed: seq<Result<SeasonTable, ScrapeError>>, n: nat): Result<Frame, ScrapeError>
    requires n <= |parsed|
  {
    if n == 0 then Ok(start)
    else
      var prev := Assemble(start, parsed, n - 1);
      if prev.Err? then prev
      else if parsed[n - 1].Err? then Err(parsed[n - 1].error)
      else Ok(AppendSeason(prev.value, parsed[n - 1].value))
  }

  /** The parse of every page, `pages[k]` being season `first + k`. */
  function Parsed(headChildren: nat, pages: seq<Page>, first: int): seq<Result<SeasonTable, ScrapeError>>
  {
    seq(|pages|, k requires 0 <= k < |pages| => ParseSeason(headChildren, pages[k], first + k))
  }

  /** The whole scrape: the frame with the first page's header columns and no rows
      (line 60), then every page in season order. Line 95 reads each season's header
      text but iterates over the first page's header element, so the child count is
      that of `framePage` throughout. */
  function ScrapeSpec(framePage: Page, pages: seq<Page>, first: int): Result<Frame, ScrapeError>
  {
    var header := HeaderColumns(framePage.headerChildren, framePage.headerText);
    if header.Err? then Err(header.error)
    else Assemble(Frame(header.value, []), Parsed(framePage.headerChildren, pages, first), |pages|)
  }

  /** A successful scrape started from the first page's header columns and
      assembled the parsed pages. */
  lemma ScrapeAssembles(framePage: Page, pages: seq<Page>, first: int)
    requires ScrapeSpec(framePage, pages, first).Ok?
    ensures HeaderColumns(framePage.headerChildren, framePage.headerText).Ok?
    ensures ScrapeSpec(framePage, pages, first) ==
      Assemble(Frame(HeaderColumns(framePage.headerChildren, framePage.headerText).value, []),
               Parsed(framePage.headerChildren, pages, first), |pages|)
  {
  }

  /** Element k of the parsed pages is the parse of page k as season `first + k`. */
  lemma ParsedAt(headChildren: nat, pages: seq<Page>, first: int, k: nat)
    requires k < |pages|
    ensures |Parsed(headChildren, pages, first)| == |pages|
    ensures Parsed(headChildren, pages, first)[k] == ParseSeason(headChildren, pages[k], first + k)
  {
  }

  /** Assembling succeeds exactly when every season parsed; otherwise its error is
      that of the earliest season that failed. */
  lemma {:induction false} AssembleFirstError(start: Frame, parsed: seq<Result<SeasonTable, ScrapeError>>, n: nat)
    requires n <= |parsed|
    ensures Assemble(start, parsed, n).Ok? <==> forall k :: 0 <= k < n ==> parsed[k].Ok?
    ensures Assemble(start, parsed, n).Err? ==>
      exists j :: (0 <= j < n && parsed[j].Err? && (forall k :: 0 <= k < j ==> parsed[k].Ok?) &&
                   Assemble(start, parsed, n).error == parsed[j].error)
  {
    if n > 0 {
      AssembleFirstError(start, parsed, n - 1);
    }
  }

  /** An error after k seasons is the error of every longer run. */
  lemma {:induction false} AssembleErrorStops(start: Frame, parsed: seq<Result<SeasonTable, ScrapeError>>, k: nat, n: nat)
    requires k <= n <= |parsed|
    requires Assemble(start, parsed, k).Err?
    ensures Assemble(start, parsed, n) == Assemble(start, parsed, k)
    decreases n
  {
    if k < n {
      AssembleErrorStops(start, parsed, k, n - 1);
    }
  }

  /** Lines 49-101: build the frame from the 2020 page's header, then append the
      table of every season from 1980 to 2020. */
  method Scrape(framePage: Page, pages: seq<Page>) returns (r: Result<Frame, ScrapeError>)
    requires |pages| == LastSeason - FirstSeason + 1
    ensures r == ScrapeSpec(framePage, pages, FirstSeason)
  {
    var header := ColumnNames(framePage.headerChildren, framePage.headerText);
    if header.Err? {
      return Err(header.error);
    }
    var frame := Frame(header.value, []);
    ghost var parsed := Parsed(framePage.headerChildren, pages, FirstSeason);
    var k := 0;
    while k < |pages|
      invariant 0 <= k <= |pages|
      invariant Assemble(Frame(header.value, []), parsed, k) == Ok(frame)
    {
      var season := FirstSeason + k;
      var page := pages[k];
      ParsedAt(framePage.headerChildren, pages, FirstSeason, k);
      var players := CollectRows(page.fullRows);
      assert players == PageRows(page);
      var names := ColumnNames(framePage.headerChildren, page.headerText);
      if names.Err? {
        AssembleErrorStops(Frame(header.value, []), parsed, k + 1, |pages|);
        return Err(names.error);
      }
      var rows := SeasonFrame(players, names.value, season);
      if rows.Err? {
        AssembleErrorStops(Frame(header.value, []), parsed, k + 1, |pages|);
        return Err(rows.error);
      }
      assert parsed[k] == Ok(SeasonTable(names.value, rows.value));
      frame := AppendSeason(frame, SeasonTable(names.value, rows.value));
      k := k + 1;
    }
    return Ok(frame);
  }

  function InSeason(season: int): PlayerRow -> bool {
    (row: PlayerRow) => row.season == season
  }

  /** Every parsed season among the first n carries its own season on every row. */
  ghost predicate Tagged(parsed: seq<Result<SeasonTable, ScrapeError>>, first: int, n: nat)
    requires n <= |parsed|
  {
    forall k, i :: 0 <= k < n && parsed[k].Ok? && 0 <= i < |parsed[k].value.rows| ==>
      parsed[k].value.rows[i].season == first + k
  }

  /** Number of rows over the seasons among the first n that parsed. */
  function ParsedRowTotal(parsed: seq<Result<SeasonTable, ScrapeError>>, n: nat): nat
    requires n <= |parsed|
  {
    if n == 0 then 0
    else ParsedRowTotal(parsed, n - 1) + if parsed[n - 1].Ok? then |parsed[n - 1].value.rows| else 0
  }

  /** After n seasons the start's rows come first, followed by the rows of every
      season in order, each belonging to one of those seasons. */
  lemma {:induction false} AssembledRows(start: Frame, parsed: seq<Result<SeasonTable, ScrapeError>>, first: int, n: nat)
    requires n <= |parsed| && Tagged(parsed, first, n)
    requires Assemble(start, parsed, n).Ok?
    ensures |Assemble(start, parsed, n).value.rows| == |start.rows| + ParsedRowTotal(parsed, n)
    ensures Assemble(start, parsed, n).value.rows[..|start.rows|] == start.rows
    ensures forall i :: |start.rows| <= i < |Assemble(start, parsed, n).value.rows| ==>
      first <= Assemble(start, parsed, n).value.rows[i].season < first + n
    decreases n
  {
    if n > 0 {
      AssembledRows(start, parsed, first, n - 1);
      var prev := Assemble(start, parsed, n - 1).value.rows;
      var table := parsed[n - 1].value.rows;
      var rows := Assemble(start, parsed, n).value.rows;
      assert rows == prev + table;
      forall i | |start.rows| <= i < |rows| ensures first <= rows[i].season < first + n {
        if i < |prev| {
          assert rows[i] == prev[i];
        } else {
          assert rows[i] == table[i - |prev|];
        }
      }
      assert prev[..|start.rows|] == start.rows;
    }
  }

  /** After n seasons, starting from a frame without rows, the rows of season
      `first + k` are exactly, in order, the rows parsed for that season. */
  lemma {:induction false} AssembledSeasons(start: Frame, parsed: seq<Result<SeasonTable, ScrapeError>>, first: int, n: nat)
    requires n <= |parsed| && Tagged(parsed, first, n) && start.rows == []
    requires Assemble(start, parsed, n).Ok?
    ensures forall k :: 0 <= k < n ==>
      parsed[k].Ok? && parsed[k].value.rows == Where(Assemble(start, parsed, n).value.rows, InSeason(first + k))
    decreases n
  {
    if n > 0 {
      AssembledSeasons(start, parsed, first, n - 1);
      AssembledRows(start, parsed, first, n - 1);
      var prev := Assemble(start, parsed, n - 1).value.rows;
      var table := parsed[n - 1].value.rows;
      var rows := Assemble(start, parsed, n).value.rows;
      assert rows == prev + table;
      forall k | 0 <= k < n
        ensures parsed[k].Ok? && parsed[k].value.rows == Where(rows, InSeason(first + k))
      {
        var p := InSeason(first + k);
        WhereAppend(prev, table, p);
        if k < n - 1 {
          assert forall i :: 0 <= i < |table| ==> !p(table[i]);
          WhereNone(table, p);
        } else {
          assert forall i :: 0 <= i < |prev| ==> !p(prev[i]);
          WhereNone(prev, p);
          assert forall i :: 0 <= i < |table| ==> p(table[i]);
          WhereAll(table, p);
        }
      }
    }
  }

  /** After n seasons the frame keeps the start's columns in front. */
  lemma {:induction false} AssembledKeepsColumns(start: Frame, parsed: seq<Result<SeasonTable, ScrapeError>>, n: nat)
    requires n <= |parsed|
    requires Assemble(start, parsed, n).Ok?
    ensures start.columns <= Assemble(start, parsed, n).value.columns
    decreases n
  {
    if n > 0 {
      var prev := Assemble(start, parsed, n - 1).value;
      AssembledKeepsColumns(start, parsed, n - 1);
      var r := AppendSeason(prev, parsed[n - 1].value);
      assert Assemble(start, parsed, n) == Ok(r);
      AppendSeasonColumns(prev, parsed[n - 1].value);
      assert start.columns <= prev.columns <= r.columns;
    }
  }

  /** After n seasons the frame holds every column of every parsed season's header,
      and the `Season` column once a season was added. */
  lemma {:induction false} AssembledColumns(start: Frame, parsed: seq<Result<SeasonTable, ScrapeError>>, n: nat)
    requires n <= |parsed|
    requires Assemble(start, parsed, n).Ok?
    ensures forall k :: 0 <= k < n ==> parsed[k].Ok?
    ensures forall k, c :: 0 <= k < n && c in parsed[k].value.columns ==> c in Assemble(start, parsed, n).value.columns
    ensures n > 0 ==> "Season" in Assemble(start, parsed, n).value.columns
    decreases n
  {
    if n > 0 {
      var prev := Assemble(start, parsed, n - 1).value;
      AssembledColumns(start, parsed, n - 1);
      var r := AppendSeason(prev, parsed[n - 1].value);
      assert Assemble(start, parsed, n) == Ok(r);
      AppendSeasonColumns(prev, parsed[n - 1].value);
      forall k, c | 0 <= k < n && c in parsed[k].value.columns ensures c in r.columns {
        if k < n - 1 {
          assert c in prev.columns;
        }
      }
    }
  }

  /** Number of full rows on the first n pages. */
  function RowTotal(pages: seq<Page>, n: nat): nat
    requires n <= |pages|
  {
    if n == 0 then 0 else RowTotal(pages, n - 1) + |pages[n - 1].fullRows|
  }

  /** When the first n pages all parse, they yield one row per full row. */
  lemma {:induction false} ParsedRowCount(headChildren: nat, pages: seq<Page>, first: int, n: nat)
    requires n <= |pages|
    requires forall k :: 0 <= k < n ==> Parsed(headChildren, pages, first)[k].Ok?
    ensures ParsedRowTotal(Parsed(headChildren, pages, first), n) == RowTotal(pages, n)
    decreases n
  {
    if n > 0 {
      ParsedRowCount(headChildren, pages, first, n - 1);
      ParsedAt(headChildren, pages, first, n - 1);
      ParseSeasonRows(headChildren, pages[n - 1], first + n - 1);
    }
  }

  /** The parse of every page tags its rows with the page's season. */
  lemma ParsedTagged(headChildren: nat, pages: seq<Page>, first: int)
    ensures Tagged(Parsed(headChildren, pages, first), first, |pages|)
  {
    var parsed := Parsed(headChildren, pages, first);
    forall k, i | 0 <= k < |pages| && parsed[k].Ok? && 0 <= i < |parsed[k].value.rows|
      ensures parsed[k].value.rows[i].season == first + k
    {
      ParsedAt(headChildren, pages, first, k);
      ParseSeasonRows(headChildren, pages[k], first + k);
    }
  }

  /** A successful scrape holds exactly one row per full row of the pages. */
  lemma ScrapeRowCount(framePage: Page, pages: seq<Page>, first: int)
    requires ScrapeSpec(framePage, pages, first).Ok?
    ensures |ScrapeSpec(framePage, pages, first).value.rows| == RowTotal(pages, |pages|)
  {
    ScrapeAssembles(framePage, pages, first);
    var start := Frame(HeaderColumns(framePage.headerChildren, framePage.headerText).value, []);
    var parsed := Parsed(framePage.headerChildren, pages, first);
    ParsedTagged(framePage.headerChildren, pages, first);
    AssembleFirstError(start, parsed, |pages|);
    AssembledRows(start, parsed, first, |pages|);
    ParsedRowCount(framePage.headerChildren, pages, first, |pages|);
  }

  /** Every row of a successful scrape belongs to one of the scraped seasons. */
  lemma ScrapeSeasonRange(framePage: Page, pages: seq<Page>, first: int)
    requires ScrapeSpec(framePage, pages, first).Ok?
    ensures forall i :: 0 <= i < |ScrapeSpec(framePage, pages, first).value.rows| ==>
      first <= ScrapeSpec(framePage, pages, first).value.rows[i].season < first + |pages|
  {
    ScrapeAssembles(framePage, pages, first);
    var start := Frame(HeaderColumns(framePage.headerChildren, framePage.headerText).value, []);
    var parsed := Parsed(framePage.headerChildren, pages, first);
    ParsedTagged(framePage.headerChildren, pages, first);
    AssembledRows(start, parsed, first, |pages|);
  }

  /** In a successful scrape every season parsed, and the rows of season
      `first + k` are exactly, in order, the rows parsed from `pages[k]`. */
  lemma ScrapeSeasons(framePage: Page, pages: seq<Page>, first: int)
    requires ScrapeSpec(framePage, pages, first).Ok?
    ensures forall k :: 0 <= k < |pages| ==>
      ParseSeason(framePage.headerChildren, pages[k], first + k).Ok? &&
      ParseSeason(framePage.headerChildren, pages[k], first + k).value.rows
        == Where(ScrapeSpec(framePage, pages, first).value.rows, InSeason(first + k))
  {
    ScrapeAssembles(framePage, pages, first);
    var start := Frame(HeaderColumns(framePage.headerChildren, framePage.headerText).value, []);
    var parsed := Parsed(framePage.headerChildren, pages, first);
    ParsedTagged(framePage.headerChildren, pages, first);
    AssembledSeasons(start, parsed, first, |pages|);
    forall k | 0 <= k < |pages|
      ensures ParseSeason(framePage.headerChildren, pages[k], first + k) == parsed[k]
    {
      ParsedAt(framePage.headerChildren, pages, first, k);
    }
  }

  /** A successful scrape keeps the first page's header columns in front. */
  lemma ScrapeKeepsHeader(framePage: Page, pages: seq<Page>, first: int)
    requires ScrapeSpec(framePage, pages, first).Ok?
    ensures HeaderColumns(framePage.headerChildren, framePage.headerText).Ok?
    ensures HeaderColumns(framePage.headerChildren, framePage.headerText).value
      <= ScrapeSpec(framePage, pages, first).value.columns
  {
    ScrapeAssembles(framePage, pages, first);
    var start := Frame(HeaderColumns(framePage.headerChildren, framePage.headerText).value, []);
    var parsed := Parsed(framePage.headerChildren, pages, first);
    AssembledKeepsColumns(start, parsed, |pages|);
  }

  /** A successful scrape read the header of season `first + k` and holds every
      column named there. */
  lemma ScrapeSeasonColumns(framePage: Page, pages: seq<Page>, first: int, k: nat)
    requires ScrapeSpec(framePage, pages, first).Ok? && k < |pages|
    ensures HeaderColumns(framePage.headerChildren, pages[k].headerText).Ok?
    ensures forall c :: c in HeaderColumns(framePage.headerChildren, pages[k].headerText).value ==>
      c in ScrapeSpec(framePage, pages, first).value.columns
  {
    ScrapeAssembles(framePage, pages, first);
    var start := Frame(HeaderColumns(framePage.headerChildren, framePage.headerText).value, []);
    var parsed := Parsed(framePage.headerChildren, pages, first);
    AssembledColumns(start, parsed, |pages|);
    ParsedAt(framePage.headerChildren, pages, first, k);
    ParseSeasonColumns(framePage.headerChildren, pages[k], first + k);
  }

  /** A successful scrape read every season's header, holds every column named
      there, and has the `Season` column. */
  lemma ScrapeColumns(framePage: Page, pages: seq<Page>, first: int)
    requires ScrapeSpec(framePage, pages, first).Ok?
    ensures forall k :: 0 <= k < |pages| ==> HeaderColumns(framePage.headerChildren, pages[k].headerText).Ok?
    ensures forall k, c ::
      0 <= k < |pages| && c in HeaderColumns(framePage.headerChildren, pages[k].headerText).value ==>
      c in ScrapeSpec(framePage, pages, first).value.columns
    ensures pages != [] ==> "Season" in ScrapeSpec(framePage, pages, first).value.columns
  {
    forall k | 0 <= k < |pages|
      ensures HeaderColumns(framePage.headerChildren, pages[k].headerText).Ok?
      ensures forall c :: c in HeaderColumns(framePage.headerChildren, pages[k].headerText).value ==>
        c in ScrapeSpec(framePage, pages, first).value.columns
    {
      ScrapeSeasonColumns(framePage, pages, first, k);
    }
    ScrapeAssembles(framePage, pages, first);
    var start := Frame(HeaderColumns(framePage.headerChildren, framePage.headerText).value, []);
    var parsed := Parsed(framePage.headerChildren, pages, first);
    AssembledColumns(start, parsed, |pages|);
  }
}
