/**
 * `sort_key` and `sorted(scraped_data, key=sort_key, reverse=True)` in
 * `update_json_file`: a stable sort on a two-part key, newest first.
 */
module Aggregator {
  import opened Wrappers
  import opened Strings
  import opened Dates
  import opened Games
  import opened GameParser
  import opened Fetcher

  /**
   * The date `sort_key` recovers from an entry: `game_date.split("T")[0]`
   * read back with `parseIsoDate` (standing for `strptime(_, "%Y-%m-%d")`).
   * Error records have no `game_date`; `None` and `""` are falsy and skip
   * the parse; a failed parse is caught.
   */
  function ParsedDate(e: GameResult, parseIsoDate: string -> Option<Date>): (r: Option<Date>)
    ensures e.GameError? ==> r.None?
    ensures e.GameRecord? && (e.gameDate.None? || e.gameDate.value == "") ==> r.None?
    ensures e.GameRecord? && e.gameDate.Some? && e.gameDate.value != "" ==>
      exists t :: StartsWith(e.gameDate.value, t) && 'T' !in t
        && (|t| == |e.gameDate.value| || e.gameDate.value[|t|] == 'T') && r == parseIsoDate(t)
  {
    match e
    case GameError(_, _) => None
    case GameRecord(_, _, gameDate, _, _, _, _, _, _) =>
      if gameDate.Some? && gameDate.value != "" then parseIsoDate(FirstPiece(gameDate.value, 'T'))
      else None
  }

  /** `(date, 0)` for a dated entry, `(datetime.min, game_id)` for any other. */
  datatype SortKey = SortKey(date: Date, tie: int)

  function KeyOf(e: GameResult, parseIsoDate: string -> Option<Date>): (k: SortKey)
    ensures e.GameError? || e.gameDate.None? ==> k == SortKey(MinDate, e.gameId)
    ensures forall d: Date ::
              e.GameRecord? && e.gameDate == Some(IsoFormat(d)) && parseIsoDate(YmdText(d)) == Some(d)
              ==> k == SortKey(d, 0)
    ensures forall d: Date ::
              e.GameRecord? && e.gameDate == Some(IsoFormat(d)) && parseIsoDate(YmdText(d)).None?
              ==> k == SortKey(MinDate, e.gameId)
    ensures e.GameRecord? && e.gameDate == Some("") ==> k == SortKey(MinDate, e.gameId)
    ensures k.tie != 0 ==> k.date == MinDate
  {
    IsoDatePartEverywhere();
    match ParsedDate(e, parseIsoDate)
    case Some(d) => SortKey(d, 0)
    case None => SortKey(MinDate, e.gameId)
  }

  /** `sort_key` as the function value handed to `sorted`. */
  function SortKeyFunction(parseIsoDate: string -> Option<Date>): GameResult -> SortKey {
    e => KeyOf(e, parseIsoDate)
  }

  /** Python's tuple comparison `a < b`. */
  predicate KeyBelow(a: SortKey, b: SortKey) {
    Before(a.date, b.date) || (a.date == b.date && a.tie < b.tie)
  }

  lemma KeyBelowIsStrictTotalOrder(a: SortKey, b: SortKey, c: SortKey)
    ensures !KeyBelow(a, a)
    ensures a != b ==> KeyBelow(a, b) || KeyBelow(b, a)
    ensures KeyBelow(a, b) && KeyBelow(b, c) ==> KeyBelow(a, c)
  {
    BeforeIsStrictTotalOrder(a.date, b.date, c.date);
  }

  /** Keys never increase along `r`. */
  predicate Descending(r: seq<GameResult>, key: GameResult -> SortKey) {
    forall i, j :: 0 <= i < j < |r| ==> !KeyBelow(key(r[i]), key(r[j]))
  }

  /** The entries of `s` whose key is `k`, in their order in `s`. */
  function WithKey(s: seq<GameResult>, k: SortKey, key: GameResult -> SortKey): seq<GameResult> {
    if |s| == 0 then []
    else (if key(s[0]) == k then [s[0]] else []) + WithKey(s[1..], k, key)
  }

  /**
   * Places `e` before the first entry whose key is not above `e`'s, hence
   * ahead of every entry with an equal key.
   */
  function Insert(e: GameResult, t: seq<GameResult>, key: GameResult -> SortKey): (r: seq<GameResult>)
    ensures multiset(r) == multiset(t) + multiset{e}
    ensures Descending(t, key) ==> Descending(r, key)
  {
    if |t| == 0 then [e]
    else if !KeyBelow(key(e), key(t[0])) then
      assert ([e] + t)[1..] == t;
      InsertAhead(e, t, key);
      [e] + t
    else
      var rest := Insert(e, t[1..], key);
      assert ([t[0]] + rest)[1..] == rest;
      assert t == [t[0]] + t[1..];
      InsertBehind(e, t, rest, key);
      [t[0]] + rest
  }

  lemma InsertAhead(e: GameResult, t: seq<GameResult>, key: GameResult -> SortKey)
    requires |t| > 0 && !KeyBelow(key(e), key(t[0]))
    ensures Descending(t, key) ==> Descending([e] + t, key)
  {
    if Descending(t, key) {
      var r := [e] + t;
      forall i, j | 0 <= i < j < |r|
        ensures !KeyBelow(key(r[i]), key(r[j]))
      {
        if i == 0 && j > 1 {
          KeyBelowIsStrictTotalOrder(key(e), key(t[0]), key(t[j - 1]));
          KeyBelowIsStrictTotalOrder(key(t[0]), key(t[j - 1]), key(e));
          KeyBelowIsStrictTotalOrder(key(e), key(t[j - 1]), key(t[0]));
        }
      }
    }
  }

  lemma InsertBehind(e: GameResult, t: seq<GameResult>, rest: seq<GameResult>, key: GameResult -> SortKey)
    requires |t| > 0 && KeyBelow(key(e), key(t[0]))
    requires multiset(rest) == multiset(t[1..]) + multiset{e}
    requires Descending(t[1..], key) ==> Descending(rest, key)
    ensures Descending(t, key) ==> Descending([t[0]] + rest, key)
  {
    if Descending(t, key) {
      var r := [t[0]] + rest;
      var top := key(t[0]);
      forall j | 0 <= j < |rest| ensures !KeyBelow(top, key(rest[j])) {
        var x := rest[j];
        assert x in multiset(rest);
        if x == e {
          KeyBelowIsStrictTotalOrder(key(e), top, top);
        } else {
          assert x in multiset(t[1..]);
          var m :| 0 <= m < |t[1..]| && t[1..][m] == x;
          assert t[m + 1] == x;
        }
      }
      assert Descending(rest, key);
      forall i, j | 0 <= i < j < |r|
        ensures !KeyBelow(key(r[i]), key(r[j]))
      {
        if i == 0 {
          assert r[j] == rest[j - 1];
        } else {
          assert r[i] == rest[i - 1] && r[j] == rest[j - 1];
        }
      }
    }
  }

  /**
   * `sorted(entries, key=sort_key, reverse=True)`: keys from high to low,
   * entries with equal keys in their input order.
   */
  function SortDescending(s: seq<GameResult>, key: GameResult -> SortKey): (r: seq<GameResult>)
    ensures multiset(r) == multiset(s)
    ensures Descending(r, key)
  {
    if |s| == 0 then []
    else
      assert s == [s[0]] + s[1..];
      Insert(s[0], SortDescending(s[1..], key), key)
  }

  /** Inserting `e` puts it ahead of every entry that shares its key. */
  lemma {:induction false} InsertKeepsKeyOrder(e: GameResult, t: seq<GameResult>, k: SortKey,
                                               key: GameResult -> SortKey)
    ensures WithKey(Insert(e, t, key), k, key) ==
      (if key(e) == k then [e] else []) + WithKey(t, k, key)
  {
    var r := Insert(e, t, key);
    if |t| == 0 {
      assert r == [e];
    } else if !KeyBelow(key(e), key(t[0])) {
      assert r == [e] + t && r[1..] == t;
    } else {
      var rest := Insert(e, t[1..], key);
      assert r == [t[0]] + rest && r[1..] == rest;
      InsertKeepsKeyOrder(e, t[1..], k, key);
      if key(e) == k {
        KeyBelowIsStrictTotalOrder(k, k, k);
      }
    }
  }

  /** Stability: for every key, the entries carrying it keep their input order. */
  lemma {:induction false} SortIsStable(s: seq<GameResult>, k: SortKey, key: GameResult -> SortKey)
    ensures WithKey(SortDescending(s, key), k, key) == WithKey(s, k, key)
  {
    if |s| > 0 {
      SortIsStable(s[1..], k, key);
      InsertKeepsKeyOrder(s[0], SortDescending(s[1..], key), k, key);
    }
  }

  /** Entries with a recovered date appear newest first. */
  lemma DatedEntriesNewestFirst(s: seq<GameResult>, parseIsoDate: string -> Option<Date>)
    ensures var r := SortDescending(s, SortKeyFunction(parseIsoDate));
      forall i, j :: 0 <= i < j < |r| && ParsedDate(r[i], parseIsoDate).Some? && ParsedDate(r[j], parseIsoDate).Some? ==>
        !Before(ParsedDate(r[i], parseIsoDate).value, ParsedDate(r[j], parseIsoDate).value)
  {
  }

  /**
   * No undated or error entry precedes a dated one (barring a date equal to
   * `datetime.min`, whose key `(datetime.min, 0)` ties with the undated keys).
   */
  lemma DatedEntriesBeforeUndated(s: seq<GameResult>, parseIsoDate: string -> Option<Date>)
    ensures var r := SortDescending(s, SortKeyFunction(parseIsoDate));
      forall i, j ::
        (0 <= i < j < |r| && ParsedDate(r[j], parseIsoDate).Some? && ParsedDate(r[j], parseIsoDate).value != MinDate)
        ==> ParsedDate(r[i], parseIsoDate).Some?
  {
    var r := SortDescending(s, SortKeyFunction(parseIsoDate));
    forall i, j | 0 <= i < j < |r| && ParsedDate(r[j], parseIsoDate).Some?
      && ParsedDate(r[j], parseIsoDate).value != MinDate
      ensures ParsedDate(r[i], parseIsoDate).Some?
    {
      MinDateIsEarliest(ParsedDate(r[j], parseIsoDate).value);
    }
  }

  /** Undated and error entries come in decreasing `game_id` order. */
  lemma UndatedEntriesByIdDescending(s: seq<GameResult>, parseIsoDate: string -> Option<Date>)
    ensures var r := SortDescending(s, SortKeyFunction(parseIsoDate));
      forall i, j :: 0 <= i < j < |r| && ParsedDate(r[i], parseIsoDate).None? && ParsedDate(r[j], parseIsoDate).None? ==>
        r[i].gameId >= r[j].gameId
  {
  }

  /**
   * A scraped record whose title gave date `d` sorts under `(d, 0)` as long
   * as the ISO parse reads `YYYY-MM-DD` back as `d`; one whose title gave no
   * date sorts under `(datetime.min, game_id)`.
   */
  lemma ScrapedRecordKey(gameId: int, page: Page, parseLongDate: string -> Option<Date>,
                         parseIsoDate: string -> Option<Date>)
    requires !page.hasErrorMarker
    ensures var g := ParseGame(gameId, page, parseLongDate);
      var d := ExtractDateFromTitle(g.title, parseLongDate);
      && (d.Some? && parseIsoDate(YmdText(d.value)) == Some(d.value) ==> KeyOf(g, parseIsoDate) == SortKey(d.value, 0))
      && (d.None? ==> KeyOf(g, parseIsoDate) == SortKey(MinDate, gameId))
  {
    var g := ParseGame(gameId, page, parseLongDate);
    var d := ExtractDateFromTitle(g.title, parseLongDate);
    if d.Some? {
      IsoDatePart(d.value);
    }
  }

  /** Sorting a list whose `i`-th entry carries `gameIds[i]` keeps exactly those identifiers. */
  lemma SortKeepsIdentifiers(scraped: seq<GameResult>, gameIds: seq<int>, parseIsoDate: string -> Option<Date>)
    requires |scraped| == |gameIds|
    requires forall i :: 0 <= i < |gameIds| ==> scraped[i].gameId == gameIds[i]
    ensures var r := SortDescending(scraped, SortKeyFunction(parseIsoDate));
      && |r| == |gameIds|
      && (forall i :: 0 <= i < |r| ==> r[i].gameId in gameIds)
      && (forall id :: id in gameIds ==> exists i :: 0 <= i < |r| && r[i].gameId == id)
  {
    var r := SortDescending(scraped, SortKeyFunction(parseIsoDate));
    assert |r| == |multiset(r)| == |multiset(scraped)| == |scraped|;
    forall i | 0 <= i < |r| ensures r[i].gameId in gameIds {
      assert r[i] in multiset(scraped);
      var j :| 0 <= j < |scraped| && scraped[j] == r[i];
    }
    forall id | id in gameIds ensures exists i :: 0 <= i < |r| && r[i].gameId == id {
      var j :| 0 <= j < |gameIds| && gameIds[j] == id;
      assert scraped[j] in multiset(r);
      var i :| 0 <= i < |r| && r[i] == scraped[j];
    }
  }

  /**
   * `update_json_file` up to the dump: scrape every identifier, then sort.
   * The output is the scraped results reordered: sorted, stable on equal
   * keys, and holding an entry for every requested identifier and no entry
   * for any other.
   */
  function UpdateJsonFile(gameIds: seq<int>, outcomes: seq<seq<Outcome>>,
                          parseLongDate: string -> Option<Date>, parseIsoDate: string -> Option<Date>): (r: seq<GameResult>)
    requires |outcomes| == |gameIds|
    requires forall i :: 0 <= i < |outcomes| ==> DefaultRetries <= |outcomes[i]|
    ensures |r| == |gameIds|
    ensures Descending(r, SortKeyFunction(parseIsoDate))
    ensures forall i :: 0 <= i < |r| ==> r[i].gameId in gameIds
    ensures forall id :: id in gameIds ==> exists i :: 0 <= i < |r| && r[i].gameId == id
    ensures multiset(r) == multiset(ScrapeGames(gameIds, outcomes, parseLongDate))
    ensures forall k :: WithKey(r, k, SortKeyFunction(parseIsoDate))
                        == WithKey(ScrapeGames(gameIds, outcomes, parseLongDate), k, SortKeyFunction(parseIsoDate))
  {
    var scraped := ScrapeGames(gameIds, outcomes, parseLongDate);
    SortKeepsIdentifiers(scraped, gameIds, parseIsoDate);
    var key := SortKeyFunction(parseIsoDate);
    assert forall k :: WithKey(SortDescending(scraped, key), k, key) == WithKey(scraped, k, key) by {
      forall k ensures WithKey(SortDescending(scraped, key), k, key) == WithKey(scraped, k, key) {
        SortIsStable(scraped, k, key);
      }
    }
    SortDescending(scraped, key)
  }
}
