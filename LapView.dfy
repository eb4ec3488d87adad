/** The rows of the lap list, newest first: each shows a two-digit lap number
    counting down to 1, the lap's `time` as `+HH:MM:SS.ff`, and the lap record.
    The list is a reversed copy of the chronological laps. */
module LapView {
  import opened JsString
  import opened TimeFormat
  import opened Watch

  datatype Row = Row(number: string, lapTime: string, lap: Lap)

  /** The reversed copy of `s`, as `Array.prototype.reverse` leaves it. */
  function Reversed<T>(s: seq<T>): (r: seq<T>)
    ensures |r| == |s|
    ensures forall i :: 0 <= i < |s| ==> r[i] == s[|s| - 1 - i]
  {
    if s == [] then [] else [s[|s| - 1]] + Reversed(s[..|s| - 1])
  }

  /** The lap number shown on a row: `k.toString().padStart(2, "0")`. */
  function Label(k: nat): string {
    PadStart(NatToString(k), 2, '0')
  }

  /** `laps.reverse().map((lap, index) => ...)`: row `index` of the reversed list
      is labelled `laps.length - index`. Lap times are never negative in a
      reachable state (`Watch.Inv`), so they can be formatted. */
  function LapRows(laps: seq<Lap>): (rows: seq<Row>)
    requires forall i :: 0 <= i < |laps| ==> laps[i].time >= 0
    ensures |rows| == |laps|
    ensures forall i :: 0 <= i < |rows| ==> rows[i].number == Label(|laps| - i)
    ensures forall i :: 0 <= i < |rows| ==> rows[i].lap == laps[|laps| - 1 - i]
    ensures forall i :: 0 <= i < |rows| ==> rows[i].lapTime == "+" + FormatTime(laps[|laps| - 1 - i].time)
  {
    var reversed := Reversed(laps);
    seq(|reversed|, index requires 0 <= index < |reversed| =>
      Row(Label(|laps| - index), "+" + FormatTime(reversed[index].time), reversed[index]))
  }

  /** The labels are the digits of `n - i` for row `i` of `n` rows, so they run from
      `n` down to 1, and each is exactly two characters long while there are
      fewer than 100 laps. */
  lemma LapLabels(laps: seq<Lap>)
    requires forall i :: 0 <= i < |laps| ==> laps[i].time >= 0
    ensures forall i :: 0 <= i < |laps| ==>
      AllDigits(LapRows(laps)[i].number) && DigitsValue(LapRows(laps)[i].number) == |laps| - i
    ensures |laps| < 100 ==> forall i :: 0 <= i < |laps| ==> |LapRows(laps)[i].number| == 2
  {
    var rows := LapRows(laps);
    forall i | 0 <= i < |laps|
      ensures AllDigits(rows[i].number) && DigitsValue(rows[i].number) == |laps| - i
      ensures |laps| < 100 ==> |rows[i].number| == 2
    {
      LabelDigits(|laps| - i);
    }
  }

  lemma LabelDigits(k: nat)
    ensures AllDigits(Label(k)) && DigitsValue(Label(k)) == k
    ensures k < 100 ==> |Label(k)| == 2
  {
    PadNatToString(k, 2);
  }

  /** The rows list the same laps as the state, newest first: reading them back
      in reverse gives the chronological list. */
  lemma RowsListAllLaps(laps: seq<Lap>)
    requires forall i :: 0 <= i < |laps| ==> laps[i].time >= 0
    ensures Reversed(seq(|laps|, i requires 0 <= i < |laps| => LapRows(laps)[i].lap)) == laps
  {
  }

  /** In every reachable state the rows can be built: no lap time is negative. */
  lemma ReachableRows(es: seq<Event>)
    ensures var laps := Run(Initial, es).laps;
      forall i :: 0 <= i < |laps| ==> laps[i].time >= 0
  {
    ReachableInv(es);
  }
}
