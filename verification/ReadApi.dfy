/**
 * The query logic of the read API over the stored, already sorted list of
 * game results: one page of the list, lookup by identifier, and the filter
 * on the date prefix. Loading the list is abstracted to an optional value
 * (`None` when the download or the JSON read failed).
 */
module ReadApi {
  import opened Wrappers
  import opened Strings
  import opened Games

  /**
   * An HTTP answer: a JSON body with status 200, an error body with its
   * status, or an exception escaping the handler (which Flask turns into 500).
   */
  datatype Reply<T> = Ok(body: T) | Fail(status: int, message: string) | Raised(exception: string)

  const DataErrorMessage := "Error retrieving data"

  /** Python's `s[start:end]` for non-negative bounds: both are clamped to `len(s)`. */
  function Slice<T>(s: seq<T>, start: nat, end: nat): (r: seq<T>)
    ensures start < |s| && start <= end ==> r == s[start..Min(end, |s|)]
    ensures start >= |s| || end <= start ==> r == []
  {
    var a := Min(start, |s|);
    var b := Min(end, |s|);
    if a <= b then s[a..b] else []
  }

  /* ---------------- /api/games ---------------- */

  datatype GamesPage = GamesPage(page: int, size: int, totalGames: int, totalPages: int, games: seq<GameResult>)

  /**
   * `get_all_games` once `page` and `size` are read: the slice
   * `[(page - 1) * size : (page - 1) * size + size]` and the page count
   * `(total + size - 1) // size`, which divides by zero when `size` is 0.
   */
  function GetAllGames(data: Option<seq<GameResult>>, page: int, size: int): (r: Reply<GamesPage>)
    requires page >= 1 && size >= 0
    ensures data.None? <==> r == Fail(500, DataErrorMessage)
    ensures data.Some? && size == 0 ==> r == Raised("ZeroDivisionError")
    ensures data.Some? && size > 0 ==> r.Ok?
    ensures r.Ok? ==>
      var n := |data.value|;
      var start := Offset(page, size);
      && r.body.page == page && r.body.size == size
      && r.body.totalGames == n
      && HoldsExactly(r.body.totalPages, size, n)
      && |r.body.games| <= size
      && (start >= n ==> r.body.games == [])
      && (start < n ==> r.body.games == data.value[start..Min(start + size, n)])
  {
    if data.None? then Fail(500, DataErrorMessage)
    else
      var games := data.value;
      var total := |games|;
      var pageGames := PageGames(games, page, size);
      if size == 0 then Raised("ZeroDivisionError")
      else
        var pages := (total + size - 1) / size;
        CeilingDivision(total, size);
        Ok(GamesPage(page, size, total, pages, pageGames))
  }

  /** `games[(page - 1) * size : (page - 1) * size + size]`. */
  function PageGames(games: seq<GameResult>, page: int, size: int): (r: seq<GameResult>)
    requires page >= 1 && size >= 0
    ensures |r| <= size
    ensures Offset(page, size) >= |games| ==> r == []
    ensures Offset(page, size) < |games| ==>
      r == games[Offset(page, size)..Min(Offset(page, size) + size, |games|)]
  {
    Slice(games, Offset(page, size), Offset(page, size) + size)
  }

  /** `(page - 1) * size`: where page `page` starts. */
  function Offset(page: int, size: int): nat
    requires page >= 1 && size >= 0
  {
    assert (page - 1) * size >= 0 by {
      assert page - 1 >= 0 && size >= 0;
    }
    (page - 1) * size
  }

  /** Page `page + 1` starts `size` entries after page `page`. */
  lemma NextOffset(page: int, size: int)
    requires page >= 1 && size >= 0
    ensures Offset(page + 1, size) == Offset(page, size) + size
  {
  }

  /** `pages` pages of `size` entries hold `n` entries, and one page fewer would not. */
  predicate HoldsExactly(pages: int, size: int, n: int) {
    pages >= 0 && pages * size >= n > (pages - 1) * size
  }

  /** `(n + size - 1) // size` is the least count of `size`-long pages holding `n` items. */
  lemma CeilingDivision(n: nat, size: int)
    requires size > 0
    ensures HoldsExactly((n + size - 1) / size, size, n)
  {
    var q := (n + size - 1) / size;
    var rem := (n + size - 1) % size;
    assert n + size - 1 == q * size + rem && 0 <= rem < size;
    assert (q - 1) * size == q * size - size;
  }

  /** The games of pages `1..m` of size `size`, one after the other. */
  function PagesUpTo(games: seq<GameResult>, size: int, m: nat): seq<GameResult>
    requires size >= 1
  {
    if m == 0 then [] else PagesUpTo(games, size, m - 1) + PageGames(games, m, size)
  }

  lemma {:induction false} PagesUpToArePrefix(games: seq<GameResult>, size: int, m: nat)
    requires size >= 1
    ensures PagesUpTo(games, size, m) == games[..Min(Offset(m + 1, size), |games|)]
  {
    if m > 0 {
      PagesUpToArePrefix(games, size, m - 1);
      var start := Offset(m, size);
      NextOffset(m, size);
      var a := Min(start, |games|);
      var b := Min(start + size, |games|);
      assert PageGames(games, m, size) == games[a..b];
      PrefixSplit(games, a, b);
    }
  }

  lemma PrefixSplit<T>(s: seq<T>, a: nat, b: nat)
    requires a <= b <= |s|
    ensures s[..b] == s[..a] + s[a..b]
  {
    assert s[..b] == s[..a] + s[a..b];
  }

  /** Reading pages 1 to `total_pages` in turn gives back the whole list, in order. */
  lemma PagesCoverDataset(games: seq<GameResult>, size: int)
    requires size >= 1
    ensures var pages := GetAllGames(Some(games), 1, size).body.totalPages;
      pages >= 0 && PagesUpTo(games, size, pages) == games
  {
    var pages := GetAllGames(Some(games), 1, size).body.totalPages;
    PagesUpToArePrefix(games, size, pages);
    assert games[..|games|] == games;
  }

  /* ---------------- /api/games/ids/<game_id> ---------------- */

  /** `'error' not in game and game['game_id'] == game_id`. */
  predicate MatchesId(g: GameResult, gameId: int): (m: bool)
    ensures g.GameError? ==> !m
    ensures g.GameRecord? ==> (m <==> g.gameId == gameId)
  {
    g.GameRecord? && g.gameId == gameId
  }

  /** The position the `for game in games_data` loop returns at, if any. */
  function FirstMatch(games: seq<GameResult>, gameId: int): (r: Option<nat>)
    ensures r.Some? ==> r.value < |games| && MatchesId(games[r.value], gameId)
    ensures r.Some? ==> forall j :: 0 <= j < r.value ==> !MatchesId(games[j], gameId)
    ensures r.None? ==> forall j :: 0 <= j < |games| ==> !MatchesId(games[j], gameId)
  {
    if |games| == 0 then None
    else if MatchesId(games[0], gameId) then Some(0)
    else
      match FirstMatch(games[1..], gameId)
      case None => None
      case Some(k) => Some(k + 1)
  }

  /** `get_game_by_id`. */
  function GetGameById(data: Option<seq<GameResult>>, gameId: int): (r: Reply<GameResult>)
    ensures data.None? <==> r == Fail(500, DataErrorMessage)
    ensures r.Ok? ==> data.Some? && MatchesId(r.body, gameId)
    ensures r.Ok? ==> exists i :: (0 <= i < |data.value| && data.value[i] == r.body
      && forall j :: 0 <= j < i ==> !MatchesId(data.value[j], gameId))
    ensures data.Some? && !r.Ok? ==>
      r == Fail(404, "Game " + IntToDecimal(gameId) + " not found")
      && forall j :: 0 <= j < |data.value| ==> !MatchesId(data.value[j], gameId)
  {
    if data.None? then Fail(500, DataErrorMessage)
    else
      match FirstMatch(data.value, gameId)
      case Some(i) => Ok(data.value[i])
      case None => Fail(404, "Game " + IntToDecimal(gameId) + " not found")
  }

  /* ---------------- /api/games/date/<game_date> ---------------- */

  /**
   * `game.get('game_date', '')`: an error record lacks the key and reads as
   * `""`; a record stored with a null date reads as `None`.
   */
  function DateField(g: GameResult): (f: Option<string>)
    ensures f.None? <==> g.GameRecord? && g.gameDate.None?
    ensures g.GameError? ==> f == Some("")
    ensures g.GameRecord? && g.gameDate.Some? ==> f == g.gameDate
  {
    match g
    case GameError(_, _) => Some("")
    case GameRecord(_, _, gameDate, _, _, _, _, _, _) => gameDate
  }

  predicate DateMatches(g: GameResult, query: string) {
    DateField(g).Some? && StartsWith(DateField(g).value, query)
  }

  /** A record stored with a null date: `.startswith` on it raises. */
  predicate HasNullDate(g: GameResult) {
    DateField(g).None?
  }

  /** The list comprehension, for entries whose date field is a string. */
  function FilterByDatePrefix(games: seq<GameResult>, query: string): (r: seq<GameResult>)
    ensures |r| <= |games|
    ensures forall i :: 0 <= i < |r| ==> DateMatches(r[i], query)
    ensures (forall i :: 0 <= i < |games| ==> DateMatches(games[i], query)) ==> r == games
  {
    if |games| == 0 then []
    else (if DateMatches(games[0], query) then [games[0]] else []) + FilterByDatePrefix(games[1..], query)
  }

  /**
   * The filter keeps every matching entry as often as it occurs and drops
   * every other one.
   */
  lemma {:induction false} FilterSelectsMatching(games: seq<GameResult>, query: string, x: GameResult)
    ensures multiset(FilterByDatePrefix(games, query))[x] == if DateMatches(x, query) then multiset(games)[x] else 0
  {
    if |games| > 0 {
      assert games == [games[0]] + games[1..];
      FilterSelectsMatching(games[1..], query, x);
    }
  }

  /** The filter keeps the original order: it distributes over concatenation. */
  lemma {:induction false} FilterKeepsOrder(a: seq<GameResult>, b: seq<GameResult>, query: string)
    ensures FilterByDatePrefix(a + b, query) == FilterByDatePrefix(a, query) + FilterByDatePrefix(b, query)
  {
    if |a| > 0 {
      assert (a + b)[0] == a[0] && (a + b)[1..] == a[1..] + b;
      FilterKeepsOrder(a[1..], b, query);
    } else {
      assert a + b == b;
    }
  }

  /** An error record has no date, so it matches only the empty query. */
  lemma ErrorEntriesMatchOnlyEmptyQuery(g: GameResult, query: string)
    requires g.GameError?
    ensures DateMatches(g, query) <==> query == ""
  {
  }

  /**
   * `get_games_by_date` as written: any record stored with a null date makes
   * the comprehension raise; otherwise the matching entries, or 404 when
   * there are none.
   */
  function GetGamesByDate(data: Option<seq<GameResult>>, query: string): (r: Reply<seq<GameResult>>)
    ensures data.None? <==> r == Fail(500, DataErrorMessage)
    ensures data.Some? ==>
      ((exists i :: 0 <= i < |data.value| && HasNullDate(data.value[i])) <==> r == Raised("AttributeError"))
    ensures r.Ok? ==> data.Some? && |r.body| > 0 && r.body == FilterByDatePrefix(data.value, query)
    ensures r.Fail? && r.status == 404 ==>
      (data.Some? && r.message == "No games found for date " + query
       && forall i :: 0 <= i < |data.value| ==> !DateMatches(data.value[i], query))
    ensures data.Some? && !r.Raised? ==>
      r == (if |FilterByDatePrefix(data.value, query)| == 0 then Fail(404, "No games found for date " + query)
            else Ok(FilterByDatePrefix(data.value, query)))
  {
    if data.None? then Fail(500, DataErrorMessage)
    else if exists i :: 0 <= i < |data.value| && HasNullDate(data.value[i]) then Raised("AttributeError")
    else
      var matching := FilterByDatePrefix(data.value, query);
      if |matching| == 0 then
        assert forall i :: 0 <= i < |data.value| ==> !DateMatches(data.value[i], query) by {
          forall i | 0 <= i < |data.value| ensures !DateMatches(data.value[i], query) {
            assert data.value[i] in multiset(data.value);
            FilterSelectsMatching(data.value, query, data.value[i]);
          }
        }
        Fail(404, "No games found for date " + query)
      else Ok(matching)
  }

  /**
   * The date query with null dates treated as non-matching instead of
   * raising: the matching entries in order, 404 when there are none.
   */
  function GetGamesByDateSkippingNull(data: Option<seq<GameResult>>, query: string): (r: Reply<seq<GameResult>>)
    ensures data.None? <==> r == Fail(500, DataErrorMessage)
    ensures !r.Raised?
    ensures data.Some? ==> (r.Ok? <==> exists i :: 0 <= i < |data.value| && DateMatches(data.value[i], query))
    ensures r.Ok? ==> forall x :: multiset(r.body)[x] == if DateMatches(x, query) then multiset(data.value)[x] else 0
    ensures r.Ok? ==> r.body == FilterByDatePrefix(data.value, query)
    ensures data.Some? && !r.Ok? ==> r == Fail(404, "No games found for date " + query)
  {
    if data.None? then Fail(500, DataErrorMessage)
    else
      var matching := FilterByDatePrefix(data.value, query);
      forall x ensures multiset(matching)[x] == if DateMatches(x, query) then multiset(data.value)[x] else 0 {
        FilterSelectsMatching(data.value, query, x);
      }
      assert |matching| > 0 <==> exists i :: 0 <= i < |data.value| && DateMatches(data.value[i], query) by {
        if |matching| > 0 {
          assert matching[0] in multiset(matching);
          assert matching[0] in multiset(data.value);
          var i :| 0 <= i < |data.value| && data.value[i] == matching[0];
        }
        if i :| 0 <= i < |data.value| && DateMatches(data.value[i], query) {
          assert data.value[i] in multiset(data.value);
        }
      }
      if |matching| == 0 then Fail(404, "No games found for date " + query) else Ok(matching)
  }

  /**
   * One dated record matching the query next to one record whose title gave
   * no date: the handler as written raises, the corrected one answers with
   * the dated record.
   */
  lemma NullDateBreaksDateQuery()
    ensures var empty := Round([], [], []);
      var dated := GameRecord(1, "t", Some("2020-01-02T00:00:00"), "c", [], [], empty, empty, FinalRound("q", "a"));
      var undated := GameRecord(2, "Title not found", None, "c", [], [], empty, empty, FinalRound("q", "a"));
      && GetGamesByDate(Some([dated, undated]), "2020") == Raised("AttributeError")
      && GetGamesByDateSkippingNull(Some([dated, undated]), "2020") == Ok([dated])
  {
    var empty := Round([], [], []);
    var dated := GameRecord(1, "t", Some("2020-01-02T00:00:00"), "c", [], [], empty, empty, FinalRound("q", "a"));
    var undated := GameRecord(2, "Title not found", None, "c", [], [], empty, empty, FinalRound("q", "a"));
    var data := [dated, undated];
    assert HasNullDate(data[1]);
    assert DateMatches(dated, "2020") by {
      assert "2020-01-02T00:00:00"[..4] == "2020";
    }
    assert FilterByDatePrefix(data, "2020") == [dated] by {
      assert data[1..] == [undated];
      assert !DateMatches(undated, "2020");
      assert FilterByDatePrefix([undated], "2020") == [] + FilterByDatePrefix([undated][1..], "2020");
      assert [undated][1..] == [];
      assert FilterByDatePrefix(data, "2020") == [dated] + FilterByDatePrefix(data[1..], "2020");
    }
  }
}
