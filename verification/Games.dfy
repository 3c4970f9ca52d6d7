/**
 * The per-identifier result the scraper produces and the read API serves:
 * either a full game record or an `{game_id, error}` record.
 */
module Games {
  import opened Wrappers
  import opened Strings

  /** One timed round: three lists built side by side. */
  datatype Round = Round(clues: seq<string>, responses: seq<string>, cells: seq<string>)

  datatype FinalRound = FinalRound(clue: string, response: string)

  datatype GameResult =
    | GameRecord(
        gameId: int,
        title: string,
        // `isoformat()` of the title's date, or `None` when it did not parse
        gameDate: Option<string>,
        comments: string,
        categories: seq<string>,
        categoryComments: seq<string>,
        jeopardy: Round,
        doubleJeopardy: Round,
        finalJeopardy: FinalRound)
    | GameError(gameId: int, error: string)

  /** The error text recorded when the archive page carries its error marker. */
  function NoGameMessage(gameId: int): (m: string)
    ensures StartsWith(m, NoGamePrefix)
    ensures |m| > |NoGamePrefix| + |NoGameSuffix| && m[|m| - |NoGameSuffix|..] == NoGameSuffix
  {
    NoGamePrefix + IntToDecimal(gameId) + NoGameSuffix
  }

  const NoGamePrefix := "No game "
  const NoGameSuffix := " in database"

  /** Different identifiers give different messages: the message names its game. */
  lemma NoGameMessageInjective(a: int, b: int)
    ensures NoGameMessage(a) == NoGameMessage(b) ==> a == b
  {
    if NoGameMessage(a) == NoGameMessage(b) {
      var ma, mb := NoGameMessage(a), NoGameMessage(b);
      var da, db := IntToDecimal(a), IntToDecimal(b);
      assert da == ma[|NoGamePrefix|..|ma| - |NoGameSuffix|];
      assert db == mb[|NoGamePrefix|..|mb| - |NoGameSuffix|];
      IntToDecimalInjective(a, b);
    }
  }

  /** The message for identifier 9999999. */
  lemma MissingIdMessage()
    ensures NoGameMessage(9999999) == "No game 9999999 in database"
  {
    var nine := DigitChar(9);
    assert nine == '9';
    assert NatToDecimal(99) == NatToDecimal(9) + [nine];
    assert NatToDecimal(999) == NatToDecimal(99) + [nine];
    assert NatToDecimal(9999) == NatToDecimal(999) + [nine];
    assert NatToDecimal(99999) == NatToDecimal(9999) + [nine];
    assert NatToDecimal(999999) == NatToDecimal(99999) + [nine];
    assert NatToDecimal(9999999) == NatToDecimal(999999) + [nine];
    assert NatToDecimal(9999999) == "9999999";
  }

  /** The error text recorded once every fetch attempt failed. */
  const RetriesExhaustedMessage := "Failed after multiple retries"
}
