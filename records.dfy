/**
 * Construction of one schedule record from one game entry of a saved
 * page. The HTML selectors are not modelled: a game entry is given by the
 * stripped texts its selectors found, and each record field takes the slot
 * it is built from, or a fixed placeholder when the slot is missing.
 */
module Records {
  import opened Wrappers
  import opened Text
  import opened PitDate
  import opened Snapshots

  /**
   * One game entry of a page: the small label spans (date, time), the team
   * names (away, home), the score spans (away, home) and the location text.
   */
  datatype GameEntry = GameEntry(spans: seq<string>, teams: seq<string>, scores: seq<string>, location: Option<string>)

  /** One file of the snapshot folder: its name and the game entries of its page, in page order. */
  datatype PageFile = PageFile(name: string, games: seq<GameEntry>)

  /** The ten fields of a row of the compiled schedule. */
  datatype GameRecord = GameRecord(
    date: string, time: string,
    league: string, division: string, gameType: string,
    awayTeam: string, awayScore: string,
    homeTeam: string, homeScore: string,
    location: string)

  /** The placeholder for a missing date, time, team or location; a missing score is empty instead. */
  const Missing: string := "N/A"

  /** `xs[i]` when the selector found more than `i` elements, the placeholder otherwise. */
  function SlotOr(xs: seq<string>, i: nat, placeholder: string): string {
    if i < |xs| then xs[i] else placeholder
  }

  /** The record the parser appends for one game entry of a page decoded as `key`. */
  function BuildRecord(game: GameEntry, key: FileKey): GameRecord {
    GameRecord(
      FormatPitDate(SlotOr(game.spans, 0, Missing), DefaultYear),
      SlotOr(game.spans, 1, Missing),
      key.league, key.division, key.gameType,
      SlotOr(game.teams, 0, Missing),
      SlotOr(game.scores, 0, ""),
      SlotOr(game.teams, 1, Missing),
      SlotOr(game.scores, 1, ""),
      match game.location case Some(text) => text case None => Missing)
  }

  /** The header of the compiled file: the order in which a record's keys are inserted. */
  const FieldOrder: seq<string> :=
    ["Date", "Time", "League", "Division", "Type", "Away_Team", "Away_Score", "Home_Team", "Home_Score", "Location"]

  /** The record as the dictionary the parser builds, its entries in insertion order. */
  function AsDict(r: GameRecord): seq<(string, string)> {
    [("Date", r.date), ("Time", r.time), ("League", r.league), ("Division", r.division),
     ("Type", r.gameType), ("Away_Team", r.awayTeam), ("Away_Score", r.awayScore),
     ("Home_Team", r.homeTeam), ("Home_Score", r.homeScore), ("Location", r.location)]
  }

  /** `d.keys()`, in insertion order. */
  function Keys(d: seq<(string, string)>): seq<string> {
    seq(|d|, i requires 0 <= i < |d| => d[i].0)
  }

  /** Every record has the same ten keys in the same order, so any record gives the header. */
  lemma KeysOfRecord(r: GameRecord)
    ensures Keys(AsDict(r)) == FieldOrder
    ensures |FieldOrder| == 10
  {
  }

  /** The placeholder date is not a date and comes back unchanged. */
  lemma MissingDateUnchanged(rawDate: string)
    requires rawDate == Missing
    ensures FormatPitDate(rawDate, DefaultYear) == Missing
  {
    assert forall i :: 0 <= i < |rawDate| ==> !IsSpace(rawDate[i]);
    TokensOfWord(rawDate);
    FormatPitDateSingleToken(rawDate, DefaultYear);
  }

  /**
   * Missing slots degrade to placeholders and never to a failure: "N/A" for
   * the date, the time, each team and the location, "" for each score.
   */
  lemma BuildRecordPlaceholders(game: GameEntry, key: FileKey)
    ensures var r := BuildRecord(game, key);
      && (|game.spans| == 0 ==> r.date == Missing)
      && (|game.spans| <= 1 ==> r.time == Missing)
      && (|game.teams| == 0 ==> r.awayTeam == Missing)
      && (|game.teams| <= 1 ==> r.homeTeam == Missing)
      && (|game.scores| == 0 ==> r.awayScore == "")
      && (|game.scores| <= 1 ==> r.homeScore == "")
      && (game.location.None? ==> r.location == Missing)
  {
    if |game.spans| == 0 {
      MissingDateUnchanged(SlotOr(game.spans, 0, Missing));
    }
  }

  /**
   * Present slots are used as found, positionally: the first team and score
   * are the away side's, the second the home side's; the first span is the
   * date, as an ISO date when it parses and unchanged otherwise, the second
   * the time. The league, division and type come from the file name.
   */
  lemma BuildRecordSlots(game: GameEntry, key: FileKey)
    ensures var r := BuildRecord(game, key);
      && (|game.spans| > 0 ==>
            r.date == FormatPitDate(game.spans[0], DefaultYear)
            && (Parses(game.spans[0], DefaultYear) ==> IsIsoDate(r.date))
            && (!Parses(game.spans[0], DefaultYear) ==> r.date == game.spans[0]))
      && (|game.spans| > 1 ==> r.time == game.spans[1])
      && (|game.teams| > 0 ==> r.awayTeam == game.teams[0])
      && (|game.teams| > 1 ==> r.homeTeam == game.teams[1])
      && (|game.scores| > 0 ==> r.awayScore == game.scores[0])
      && (|game.scores| > 1 ==> r.homeScore == game.scores[1])
      && (game.location.Some? ==> r.location == game.location.value)
      && r.league == key.league && r.division == key.division && r.gameType == key.gameType
  {
    if |game.spans| > 0 {
      FormatPitDateChanged(game.spans[0], DefaultYear);
    }
  }

  /**
   * The date of a record is the first span in the schedule's year: a span
   * of a weekday, a month and a day naming a real date in 2025 becomes
   * `2025-MM-DD` with that month and day; any other span is kept as found.
   */
  lemma BuildRecordDate(game: GameEntry, key: FileKey)
    requires |game.spans| > 0
    ensures var r := BuildRecord(game, key); var ts := Tokens(game.spans[0]);
      && (AcceptsTokens(game.spans[0], DefaultYear) ==>
            && IsIsoDate(r.date)
            && r.date[..4] == DefaultYear
            && Value(r.date[5..7]) == MonthNumber(ts[1]).value
            && (DayTextIsDigits(ts[2]); Value(r.date[8..]) == Value(ts[2])))
      && (!AcceptsTokens(game.spans[0], DefaultYear) ==> r.date == game.spans[0])
  {
    DefaultYearValue(DefaultYear);
    FormatPitDateOnTokens(game.spans[0], DefaultYear);
  }

  /**
   * A record built from a page the scraper saved carries that page's crawl
   * target: league, division and game type survive the trip through the
   * file name when league and type contain no `_` and nothing contains `.html`.
   */
  lemma RecordCarriesCrawlTarget(league: string, division: string, gameType: string, game: GameEntry)
    requires '_' !in league && '_' !in gameType
    requires !Contains(league, HtmlSuffix) && !Contains(division, HtmlSuffix) && !Contains(gameType, HtmlSuffix)
    ensures var key := DecodeFilename(SnapshotName(league, division, gameType));
      && key.Some?
      && BuildRecord(game, key.value).league == league
      && BuildRecord(game, key.value).division == division
      && BuildRecord(game, key.value).gameType == gameType
  {
    DecodeSnapshotName(league, division, gameType);
  }
}
