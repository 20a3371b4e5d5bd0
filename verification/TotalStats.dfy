/** Running totals across counter resets (peerstats/stats.go). */
module TotalStats {
  import opened Tries
  import opened History

  /** A sample of a peer's counters in its current period; `None` is Go's zero time. */
  datatype Sample = Sample(tx: int, rx: int, handshake: Option<int>, endpoint: string)

  const NOTHING := Sample(0, 0, None, "")

  /** What looks like a reset between two samples. */
  predicate Reset(last: Sample, cur: Sample) {
    || last.tx > cur.tx || last.rx > cur.rx
    || (last.handshake.Some? && cur.handshake.None?)
    || (last.endpoint != "" && cur.endpoint == "")
  }

  /** Sum of the last sample before each detected reset, the samples following `last`. */
  function Dropped(last: Sample, samples: seq<Sample>): (int, int)
    decreases |samples|
  {
    if samples == [] then (0, 0) else
      var (tx, rx) := Dropped(samples[0], samples[1..]);
      if Reset(last, samples[0]) then (last.tx + tx, last.rx + rx) else (tx, rx)
  }

  lemma {:induction false} DroppedSnoc(last: Sample, samples: seq<Sample>, s: Sample)
    ensures var end := if samples == [] then last else samples[|samples| - 1];
            var (tx, rx) := Dropped(last, samples);
            Dropped(last, samples + [s]) == if Reset(end, s) then (tx + end.tx, rx + end.rx) else (tx, rx)
    decreases |samples|
  {
    if samples == [] {
      assert [] + [s] == [s] && [s][1..] == [];
      assert Dropped(s, []) == (0, 0);
    } else {
      assert (samples + [s])[1..] == samples[1..] + [s] && (samples + [s])[0] == samples[0];
      DroppedSnoc(samples[0], samples[1..], s);
    }
  }

  /** The total after a run: the starting total, the last sample before each detected reset, and the last sample. */
  function TotalAfter(tx0: int, rx0: int, samples: seq<Sample>): (int, int) {
    var last := if samples == [] then NOTHING else samples[|samples| - 1];
    var (tx, rx) := Dropped(NOTHING, samples);
    (Int64(tx0 + tx + last.tx), Int64(rx0 + rx + last.rx))
  }

  class TotalStatCalc {
    var prevTotalRx: int
    var prevTotalTx: int
    var curPeriod: Sample
    ghost const startTx: int
    ghost const startRx: int
    ghost var samples: seq<Sample>   // all samples so far

    ghost predicate Valid()
      reads this
    {
      && curPeriod == (if samples == [] then NOTHING else samples[|samples| - 1])
      && prevTotalTx == Int64(startTx + Dropped(NOTHING, samples).0)
      && prevTotalRx == Int64(startRx + Dropped(NOTHING, samples).1)
    }

    constructor (prevTotalTx: int, prevTotalRx: int)
      requires IsInt64(prevTotalTx) && IsInt64(prevTotalRx)
      ensures Valid() && samples == [] && startTx == prevTotalTx && startRx == prevTotalRx
    {
      this.prevTotalTx, this.prevTotalRx, curPeriod := prevTotalTx, prevTotalRx, NOTHING;
      startTx, startRx, samples := prevTotalTx, prevTotalRx, [];
    }

    /** The running total at a new sample, and whether the counters look reset since the last one. */
    method Calculate(cur: Sample) returns (total: Sample, newPeriod: bool)
      requires Valid()
      modifies this
      ensures Valid() && samples == old(samples) + [cur]
      ensures (total.tx, total.rx) == TotalAfter(startTx, startRx, samples)
      ensures total.handshake == cur.handshake && total.endpoint == cur.endpoint
      ensures var last := if old(samples) == [] then NOTHING else old(samples)[|old(samples)| - 1];
              newPeriod <==>
                || last.tx > cur.tx || last.rx > cur.rx
                || (last.handshake != None && cur.handshake == None) || (last.endpoint != "" && cur.endpoint == "")
    {
      DroppedSnoc(NOTHING, samples, cur);
      ghost var (dtx, drx) := Dropped(NOTHING, samples);
      Int64Add(startTx + dtx, curPeriod.tx);
      Int64Add(startRx + drx, curPeriod.rx);
      newPeriod := Reset(curPeriod, cur);
      if newPeriod {
        prevTotalTx := Int64(prevTotalTx + curPeriod.tx);
        prevTotalRx := Int64(prevTotalRx + curPeriod.rx);
      }
      curPeriod := cur;
      samples := samples + [cur];
      Int64Add(startTx + Dropped(NOTHING, samples).0, cur.tx);
      Int64Add(startRx + Dropped(NOTHING, samples).1, cur.rx);
      total := Sample(Int64(prevTotalTx + cur.tx), Int64(prevTotalRx + cur.rx), cur.handshake, cur.endpoint);
    }
  }

  /** The total without the limits of a word. */
  function ExactTotal(tx0: int, rx0: int, samples: seq<Sample>): (int, int) {
    var last := if samples == [] then NOTHING else samples[|samples| - 1];
    var (tx, rx) := Dropped(NOTHING, samples);
    (tx0 + tx + last.tx, rx0 + rx + last.rx)
  }

  /** Before any sample the total is the starting one. */
  lemma TotalStarts(tx0: int, rx0: int)
    ensures ExactTotal(tx0, rx0, []) == (tx0, rx0)
  {
  }

  /** With each sample the total grows by all of the sample if a counter fell or handshake or endpoint
      was lost, and else by what the sample grew over the one before. */
  lemma TotalGrows(tx0: int, rx0: int, samples: seq<Sample>, s: Sample)
    ensures var end := if samples == [] then Sample(0, 0, None, "") else samples[|samples| - 1];
            var ((tx, rx), (tx', rx')) := (ExactTotal(tx0, rx0, samples), ExactTotal(tx0, rx0, samples + [s]));
            if s.tx < end.tx || s.rx < end.rx || (s.handshake == None && end.handshake != None)
               || (s.endpoint == "" && end.endpoint != "")
            then (tx', rx') == (tx + s.tx, rx + s.rx)
            else (tx', rx') == (tx + (s.tx - end.tx), rx + (s.rx - end.rx))
  {
    DroppedSnoc(NOTHING, samples, s);
  }

  /** The total kept in words is the exact one iff that one fits a word. */
  lemma TotalFits(tx0: int, rx0: int, samples: seq<Sample>)
    ensures var (tx, rx) := ExactTotal(tx0, rx0, samples); TotalAfter(tx0, rx0, samples) == (Int64(tx), Int64(rx))
    ensures TotalAfter(tx0, rx0, samples) == ExactTotal(tx0, rx0, samples) <==>
              IsInt64(ExactTotal(tx0, rx0, samples).0) && IsInt64(ExactTotal(tx0, rx0, samples).1)
  {
    Int64Meaning(ExactTotal(tx0, rx0, samples).0);
    Int64Meaning(ExactTotal(tx0, rx0, samples).1);
  }

  /** Totals never fall, if no sample is negative. */
  lemma TotalsNeverFall(tx0: int, rx0: int, samples: seq<Sample>, s: Sample)
    requires s.tx >= 0 && s.rx >= 0
    ensures ExactTotal(tx0, rx0, samples).0 <= ExactTotal(tx0, rx0, samples + [s]).0
    ensures ExactTotal(tx0, rx0, samples).1 <= ExactTotal(tx0, rx0, samples + [s]).1
  {
    DroppedSnoc(NOTHING, samples, s);
  }

  // ---------- Against the true traffic ----------

  /** Real periods: `starts[i]` says that the counters really were reset before sample `i`. */
  ghost predicate Real(last: Sample, samples: seq<Sample>, starts: seq<bool>)
    requires |samples| == |starts|
    decreases |samples|
  {
    samples == [] ||
    (samples[0].tx >= 0 && samples[0].rx >= 0
     && (starts[0] || !Reset(last, samples[0]))       // within a period counters do not fall and nothing is lost
     && Real(samples[0], samples[1..], starts[1..]))
  }

  /** The true traffic of the periods before the last one: the last sample before each real reset. */
  function TrueDropped(last: Sample, samples: seq<Sample>, starts: seq<bool>): (int, int)
    requires |samples| == |starts|
    decreases |samples|
  {
    if samples == [] then (0, 0) else
      var (tx, rx) := TrueDropped(samples[0], samples[1..], starts[1..]);
      if starts[0] then (last.tx + tx, last.rx + rx) else (tx, rx)
  }

  /** What goes missing: the last sample before each real reset that does not look like one. */
  function Missed(last: Sample, samples: seq<Sample>, starts: seq<bool>): (int, int)
    requires |samples| == |starts|
    decreases |samples|
  {
    if samples == [] then (0, 0) else
      var (tx, rx) := Missed(samples[0], samples[1..], starts[1..]);
      if starts[0] && !Reset(last, samples[0]) then (last.tx + tx, last.rx + rx) else (tx, rx)
  }

  /** The counted traffic is the true one less what was missed; so it is never too much. */
  lemma {:induction false} CountedIsTrueLessMissed(last: Sample, samples: seq<Sample>, starts: seq<bool>)
    requires |samples| == |starts| && last.tx >= 0 && last.rx >= 0 && Real(last, samples, starts)
    ensures Dropped(last, samples).0 + Missed(last, samples, starts).0 == TrueDropped(last, samples, starts).0
    ensures Dropped(last, samples).1 + Missed(last, samples, starts).1 == TrueDropped(last, samples, starts).1
    ensures Missed(last, samples, starts).0 >= 0 && Missed(last, samples, starts).1 >= 0
    decreases |samples|
  {
    if samples != [] {
      CountedIsTrueLessMissed(samples[0], samples[1..], starts[1..]);
    }
  }

  /** Every real reset that does not look like one happened at counters of zero. */
  ghost predicate NothingLost(last: Sample, samples: seq<Sample>, starts: seq<bool>)
    requires |samples| == |starts|
    decreases |samples|
  {
    samples == [] ||
    (&& (starts[0] && !Reset(last, samples[0]) ==> last.tx == 0 && last.rx == 0)
     && NothingLost(samples[0], samples[1..], starts[1..]))
  }

  lemma {:induction false} MissedNothingIff(last: Sample, samples: seq<Sample>, starts: seq<bool>)
    requires |samples| == |starts| && last.tx >= 0 && last.rx >= 0 && Real(last, samples, starts)
    ensures Missed(last, samples, starts) == (0, 0) <==> NothingLost(last, samples, starts)
    decreases |samples|
  {
    if samples != [] {
      CountedIsTrueLessMissed(samples[0], samples[1..], starts[1..]);
      MissedNothingIff(samples[0], samples[1..], starts[1..]);
    }
  }

  /** The true traffic from `last` on: a sample after a real reset counts in full, any other
      one by how much it grew. */
  function Traffic(last: Sample, samples: seq<Sample>, starts: seq<bool>): (int, int)
    requires |samples| == |starts|
    decreases |samples|
  {
    if samples == [] then (0, 0) else
      var (tx, rx) := Traffic(samples[0], samples[1..], starts[1..]);
      var s := samples[0];
      if starts[0] then (s.tx + tx, s.rx + rx) else (s.tx - last.tx + tx, s.rx - last.rx + rx)
  }

  /** Growth summed up: what `last` had, and all traffic since, is in the finished periods and the last sample. */
  lemma {:induction false} TrafficIsPeriods(last: Sample, samples: seq<Sample>, starts: seq<bool>)
    requires |samples| == |starts|
    ensures var end := if samples == [] then last else samples[|samples| - 1];
            && last.tx + Traffic(last, samples, starts).0 == TrueDropped(last, samples, starts).0 + end.tx
            && last.rx + Traffic(last, samples, starts).1 == TrueDropped(last, samples, starts).1 + end.rx
    decreases |samples|
  {
    if samples == [] {
    } else {
      TrafficIsPeriods(samples[0], samples[1..], starts[1..]);
    }
  }

  /** The starting total and all true traffic since. */
  function TrueTotal(tx0: int, rx0: int, samples: seq<Sample>, starts: seq<bool>): (int, int)
    requires |samples| == |starts|
  {
    var (tx, rx) := Traffic(NOTHING, samples, starts);
    (tx0 + tx, rx0 + rx)
  }

  /** The running total never exceeds the true traffic, and equals it iff every real reset
      shows in the samples or loses nothing. */
  lemma TotalAgainstTruth(tx0: int, rx0: int, samples: seq<Sample>, starts: seq<bool>)
    requires |samples| == |starts| && Real(NOTHING, samples, starts)
    ensures ExactTotal(tx0, rx0, samples).0 <= TrueTotal(tx0, rx0, samples, starts).0
    ensures ExactTotal(tx0, rx0, samples).1 <= TrueTotal(tx0, rx0, samples, starts).1
    ensures ExactTotal(tx0, rx0, samples) == TrueTotal(tx0, rx0, samples, starts)
       <==> NothingLost(NOTHING, samples, starts)
  {
    TrafficIsPeriods(NOTHING, samples, starts);
    CountedIsTrueLessMissed(NOTHING, samples, starts);
    MissedNothingIff(NOTHING, samples, starts);
  }

  /** Every real reset shows in the samples: a counter fell, or handshake or endpoint was lost. */
  ghost predicate AllShow(last: Sample, samples: seq<Sample>, starts: seq<bool>)
    requires |samples| == |starts|
    decreases |samples|
  {
    samples == [] ||
    var s := samples[0];
    && (starts[0] ==>
          || s.tx < last.tx || s.rx < last.rx
          || (s.handshake == None && last.handshake != None) || (s.endpoint == "" && last.endpoint != ""))
    && AllShow(s, samples[1..], starts[1..])
  }

  lemma {:induction false} ShownLosesNothing(last: Sample, samples: seq<Sample>, starts: seq<bool>)
    requires |samples| == |starts| && AllShow(last, samples, starts)
    ensures NothingLost(last, samples, starts)
    decreases |samples|
  {
    if samples == [] {
    } else {
      ShownLosesNothing(samples[0], samples[1..], starts[1..]);
    }
  }

  /** If every real reset shows, the total is the true traffic. */
  lemma ShownIsTrue(tx0: int, rx0: int, samples: seq<Sample>, starts: seq<bool>)
    requires |samples| == |starts| && Real(NOTHING, samples, starts)
    requires samples == [] || AllShow(samples[0], samples[1..], starts[1..])
    ensures ExactTotal(tx0, rx0, samples) == TrueTotal(tx0, rx0, samples, starts)
  {
    if samples != [] {
      // before the first sample there is nothing to lose
      ShownLosesNothing(samples[0], samples[1..], starts[1..]);
    }
    TotalAgainstTruth(tx0, rx0, samples, starts);
  }
}
