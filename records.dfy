/**
  The journal's record: one shape serves both the entry form and a saved entry, since a
  saved entry is the form's data with its result settled and an id assigned.
*/
module Records {
  import opened Wrappers
  import opened TradeMath

  datatype Emotion = Calm | Excited | Anxious | FOMO | Revenge | Neutral

  /**
    A numeric field: the text as typed (or as produced by `toFixed`) and the number parseFloat
    makes of it, `None` when that is not a number.
  */
  datatype NumText = NumText(text: string, value: Option<real>)

  datatype Trade = Trade(
    id: string,
    date: string,
    pair: string,
    direction: Direction,
    entryPrice: NumText,
    exitPrice: NumText,
    positionSize: NumText,
    calculatedPnL: NumText,
    result: Result,
    entryReason: string,
    emotionPre: Emotion,
    confidence: int,
    followedPlan: bool,
    mistake: string,
    notes: string)

  /** A field left empty: the empty text, which parseFloat reads as NaN. */
  const Empty := NumText("", None)

  /** The form as it is first shown and after each save, dated `today`. */
  function BlankForm(today: string): (f: Trade)
    ensures f.date == today && f.result == Pending && f.direction == Long
    ensures f.entryPrice == f.exitPrice == f.positionSize == Empty
    ensures f.calculatedPnL.value == Some(0.0)
  {
    Trade("", today, "", Long, Empty, Empty, Empty, NumText("0", Some(0.0)), Pending,
          "", Neutral, 5, true, "None", "")
  }

  function DirectionName(d: Direction): string {
    match d
    case Long => "Long"
    case Short => "Short"
  }

  function ResultName(r: Result): string {
    match r
    case Pending => "Pending"
    case Win => "Win"
    case Loss => "Loss"
    case BE => "BE"
  }

  function EmotionName(e: Emotion): string {
    match e
    case Calm => "Calm"
    case Excited => "Excited"
    case Anxious => "Anxious"
    case FOMO => "FOMO"
    case Revenge => "Revenge"
    case Neutral => "Neutral"
  }
}
