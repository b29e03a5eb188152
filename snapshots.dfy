/**
 * The file names of saved schedule pages. The scraper writes each page as
 * `<league>_<division>_<REGULAR|PLAYOFFS>.html`; the parser reads back the
 * league, the division and the game type from the name alone.
 */
module Snapshots {
  import opened Wrappers
  import opened Text

  const HtmlSuffix: string := ".html"

  /** The crawl target a page was saved for, as the parser recovers it. */
  datatype FileKey = FileKey(league: string, division: string, gameType: string)

  /** `parts[1:-1]`: empty when there are fewer than three parts. */
  function Middle(parts: seq<string>): (r: seq<string>)
    ensures |r| == if |parts| >= 2 then |parts| - 2 else 0
    ensures forall k :: 0 <= k < |r| ==> r[k] == parts[k + 1]
    ensures |parts| >= 2 ==> [parts[0]] + r + [parts[|parts| - 1]] == parts
  {
    if |parts| >= 2 then parts[1..|parts| - 1] else []
  }

  /**
   * The parser's reading of a file name: names not ending in `.html` are
   * skipped; otherwise every `.html` is deleted, the rest is split on `_`,
   * and the first part is the league, the last the game type, and the parts
   * in between, joined again with `_`, the division.
   */
  function DecodeFilename(name: string): (r: Option<FileKey>)
    ensures r.Some? <==> EndsWith(name, HtmlSuffix)
  {
    if !EndsWith(name, HtmlSuffix) then None
    else
      var parts := SplitOn(RemoveAll(name, HtmlSuffix), '_');
      Some(FileKey(parts[0], Join(Middle(parts), "_"), parts[|parts| - 1]))
  }

  /** The scraper's name for a saved page, from the underscored league and division names. */
  function SnapshotName(league: string, division: string, gameType: string): (name: string)
    ensures EndsWith(name, HtmlSuffix)
  {
    var stem := league + "_" + division + "_" + gameType;
    assert (stem + HtmlSuffix)[|stem|..] == HtmlSuffix;
    stem + HtmlSuffix
  }

  /** The suffix is the only occurrence of `.html` when the stem has none: `.html` cannot overlap itself. */
  lemma {:induction false} RemoveHtmlSuffix(stem: string)
    requires !Contains(stem, HtmlSuffix)
    ensures RemoveAll(stem + HtmlSuffix, HtmlSuffix) == stem
  {
    var s := stem + HtmlSuffix;
    if stem == [] {
      assert s == HtmlSuffix && s[5..] == [];
    } else {
      if |stem| >= 5 {
        assert stem[0..5] == s[..5];
        assert !OccursAt(stem, HtmlSuffix, 0);
      } else {
        assert s[..5][|stem|] == '.' && HtmlSuffix[|stem|] != '.';
      }
      assert s[..5] != HtmlSuffix;
      assert s[1..] == stem[1..] + HtmlSuffix;
      AbsentInTail(stem, HtmlSuffix);
      RemoveHtmlSuffix(stem[1..]);
      assert [stem[0]] + stem[1..] == stem;
    }
  }

  /**
   * Decoding inverts the scraper's naming when league and game type contain
   * no `_` and no part contains `.html`; the division may contain `_`.
   */
  lemma DecodeSnapshotName(league: string, division: string, gameType: string)
    requires '_' !in league && '_' !in gameType
    requires !Contains(league, HtmlSuffix) && !Contains(division, HtmlSuffix) && !Contains(gameType, HtmlSuffix)
    ensures DecodeFilename(SnapshotName(league, division, gameType)) == Some(FileKey(league, division, gameType))
  {
    var stem := league + "_" + division + "_" + gameType;
    assert '_' !in HtmlSuffix;
    AbsentAround(league, '_', division, HtmlSuffix);
    AbsentAround(league + "_" + division, '_', gameType, HtmlSuffix);
    assert SnapshotName(league, division, gameType) == stem + HtmlSuffix;
    RemoveHtmlSuffix(stem);
    SplitOnAround(league + "_" + division, '_', gameType);
    SplitOnAround(league, '_', division);
    SplitOnFree(league, '_');
    SplitOnFree(gameType, '_');
    var parts := SplitOn(stem, '_');
    assert parts == [league] + SplitOn(division, '_') + [gameType];
    assert Middle(parts) == SplitOn(division, '_');
    JoinSplitOn(division, '_');
  }

  /**
   * A league name of several words (the scraper turns its spaces into `_`)
   * does not come back: its first word is read as the league and the rest
   * is prepended to the division.
   */
  lemma DecodeMultiWordLeague(first: string, more: string, division: string, gameType: string)
    requires '_' !in first && '_' !in gameType
    requires !Contains(first, HtmlSuffix) && !Contains(more, HtmlSuffix)
    requires !Contains(division, HtmlSuffix) && !Contains(gameType, HtmlSuffix)
    ensures DecodeFilename(SnapshotName(first + "_" + more, division, gameType))
         == Some(FileKey(first, more + "_" + division, gameType))
    ensures DecodeFilename(SnapshotName(first + "_" + more, division, gameType))
         != Some(FileKey(first + "_" + more, division, gameType))
  {
    assert '_' !in HtmlSuffix;
    AbsentAround(more, '_', division, HtmlSuffix);
    assert SnapshotName(first + "_" + more, division, gameType) == SnapshotName(first, more + "_" + division, gameType);
    DecodeSnapshotName(first, more + "_" + division, gameType);
    assert |first + "_" + more| > |first|;
  }

  /** A name with no `_` at all gives its stem as both league and game type, and an empty division. */
  lemma DecodeSinglePart(stem: string)
    requires '_' !in stem && !Contains(stem, HtmlSuffix)
    ensures DecodeFilename(stem + HtmlSuffix) == Some(FileKey(stem, "", stem))
  {
    assert EndsWith(stem + HtmlSuffix, HtmlSuffix) by {
      assert (stem + HtmlSuffix)[|stem|..] == HtmlSuffix;
    }
    RemoveHtmlSuffix(stem);
    SplitOnFree(stem, '_');
  }
}
