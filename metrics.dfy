/** The funnel metrics chart (src/components/hiring-metrics-chart.tsx): for
    every pair of consecutive entries of each candidate's date-sorted history
    whose second date is strictly later, the time between them is a sample
    for the label "from → to"; the chart shows, per label, the mean in days,
    sorted ascending. Durations are kept in integer milliseconds. */
module Metrics {
  import opened Types
  import opened Sorting

  const MsPerDay: int := 1000 * 60 * 60 * 24

  /** One duration between two consecutive stages. */
  datatype Sample = Sample(stage: string, ms: int)

  /** One bar of the chart. */
  datatype Row = Row(stage: string, days: real)

  function EntryKey(e: StatusEntry): real {
    e.date as real
  }

  function RowKey(r: Row): real {
    r.days
  }

  /** `${currentStage.status} → ${nextStage.status}`. */
  function Label(from: Status, to: Status): string {
    StatusName(from) + " → " + StatusName(to)
  }

  /** The sample the pair at positions i and i+1 gives when the second date
      is strictly later. */
  function PairSample(h: seq<StatusEntry>, i: nat): Sample
    requires i + 1 < |h|
  {
    Sample(Label(h[i].status, h[i + 1].status), h[i + 1].date - h[i].date)
  }

  predicate Forward(h: seq<StatusEntry>, i: nat)
    requires i + 1 < |h|
  {
    h[i].date < h[i + 1].date
  }

  /** What the pair at positions i and i+1 contributes. */
  function Step(h: seq<StatusEntry>, i: nat): seq<Sample>
    requires i + 1 < |h|
  {
    if Forward(h, i) then [PairSample(h, i)] else []
  }

  /** The samples of the pairs starting below position n, in order. */
  function PairsBelow(h: seq<StatusEntry>, n: nat): (r: seq<Sample>)
    requires n == 0 || n < |h|
    ensures |r| <= n
  {
    if n == 0 then [] else PairsBelow(h, n - 1) + Step(h, n - 1)
  }

  /** Each sample comes from a pair with a strictly later second date and is
      a positive duration. */
  lemma {:induction false} PairsBelowSound(h: seq<StatusEntry>, n: nat)
    requires n == 0 || n < |h|
    ensures forall k :: 0 <= k < |PairsBelow(h, n)| ==>
              PairsBelow(h, n)[k].ms > 0
              && exists i :: 0 <= i < n && Forward(h, i) && PairsBelow(h, n)[k] == PairSample(h, i)
  {
    if n > 0 {
      PairsBelowSound(h, n - 1);
      var front := PairsBelow(h, n - 1);
      var r := PairsBelow(h, n);
      assert r == front + Step(h, n - 1);
      forall k | 0 <= k < |r|
        ensures r[k].ms > 0
        ensures exists i :: 0 <= i < n && Forward(h, i) && r[k] == PairSample(h, i)
      {
        if k < |front| {
          assert r[k] == front[k];
          var i :| 0 <= i < n - 1 && Forward(h, i) && front[k] == PairSample(h, i);
        } else {
          assert r[k] == PairSample(h, n - 1) && Forward(h, n - 1);
        }
      }
    }
  }

  /** Each pair with a strictly later second date gives a sample. */
  lemma {:induction false} PairsBelowComplete(h: seq<StatusEntry>, n: nat)
    requires n == 0 || n < |h|
    ensures forall i :: 0 <= i < n && Forward(h, i) ==> PairSample(h, i) in PairsBelow(h, n)
  {
    if n > 0 {
      PairsBelowComplete(h, n - 1);
      var front := PairsBelow(h, n - 1);
      var r := PairsBelow(h, n);
      assert r == front + Step(h, n - 1);
      forall i | 0 <= i < n && Forward(h, i)
        ensures PairSample(h, i) in r
      {
        if i < n - 1 {
          assert PairSample(h, i) in front;
        } else {
          assert r[|front|] == PairSample(h, i);
        }
      }
    }
  }

  /** The samples of a sorted history: every consecutive pair is looked at. */
  function PairSamples(h: seq<StatusEntry>): (r: seq<Sample>)
    ensures |h| <= 1 ==> r == []
    ensures |h| > 0 ==> |r| <= |h| - 1
  {
    PairsBelow(h, if |h| == 0 then 0 else |h| - 1)
  }

  lemma PairSamplesPositive(h: seq<StatusEntry>)
    ensures forall k :: 0 <= k < |PairSamples(h)| ==> PairSamples(h)[k].ms > 0
  {
    PairsBelowSound(h, if |h| == 0 then 0 else |h| - 1);
  }

  /** The samples of one candidate: its history sorted ascending by date. */
  function CandidateSamples(c: Candidate): seq<Sample> {
    PairSamples(SortBy(c.statusHistory, EntryKey))
  }

  /** The samples of all candidates, candidate by candidate. */
  function AllSamples(cs: seq<Candidate>): seq<Sample> {
    if cs == [] then [] else AllSamples(cs[..|cs| - 1]) + CandidateSamples(cs[|cs| - 1])
  }

  /** The most samples the candidates can give: one per adjacent pair. */
  function PairCount(cs: seq<Candidate>): nat {
    if cs == [] then 0
    else
      var h := cs[|cs| - 1].statusHistory;
      PairCount(cs[..|cs| - 1]) + (if |h| == 0 then 0 else |h| - 1)
  }

  /** At most one sample per adjacent pair of every history. */
  lemma {:induction false} SamplesBounded(cs: seq<Candidate>)
    ensures |AllSamples(cs)| <= PairCount(cs)
  {
    if cs != [] {
      SamplesBounded(cs[..|cs| - 1]);
      var h := cs[|cs| - 1].statusHistory;
      assert |SortBy(h, EntryKey)| == |h|;
    }
  }

  /** Two runs of positive samples joined are positive. */
  lemma PositiveJoin(a: seq<Sample>, b: seq<Sample>)
    requires forall k :: 0 <= k < |a| ==> a[k].ms > 0
    requires forall k :: 0 <= k < |b| ==> b[k].ms > 0
    ensures forall k :: 0 <= k < |a + b| ==> (a + b)[k].ms > 0
  {
    forall k | 0 <= k < |a + b|
      ensures (a + b)[k].ms > 0
    {
      if k >= |a| {
        assert (a + b)[k] == b[k - |a|];
      }
    }
  }

  /** Every sample is a positive duration. */
  lemma {:induction false} SamplesPositive(cs: seq<Candidate>)
    ensures forall k :: 0 <= k < |AllSamples(cs)| ==> AllSamples(cs)[k].ms > 0
  {
    if cs != [] {
      var front := AllSamples(cs[..|cs| - 1]);
      var own := CandidateSamples(cs[|cs| - 1]);
      SamplesPositive(cs[..|cs| - 1]);
      PairSamplesPositive(SortBy(cs[|cs| - 1].statusHistory, EntryKey));
      PositiveJoin(front, own);
    }
  }

  // ----- The durations record -----

  /** `durations`: a record from label to the samples seen for it, in
      milliseconds; its keys list in the order they were first added. */
  datatype Buckets = Buckets(order: seq<string>, durations: map<string, seq<int>>)

  ghost predicate WellKept(b: Buckets) {
    && (forall l :: l in b.durations <==> l in b.order)
    && (forall i, j :: 0 <= i < j < |b.order| ==> b.order[i] != b.order[j])
    && (forall l :: l in b.durations ==> b.durations[l] != [])
  }

  /** Creating the label's list when missing, then pushing the sample onto it. */
  function Push(b: Buckets, s: Sample): Buckets {
    if s.stage in b.durations then Buckets(b.order, b.durations[s.stage := b.durations[s.stage] + [s.ms]])
    else Buckets(b.order + [s.stage], b.durations[s.stage := [s.ms]])
  }

  /** The record after pushing the samples in order. */
  function PushAll(b: Buckets, samples: seq<Sample>): Buckets {
    if samples == [] then b
    else Push(PushAll(b, samples[..|samples| - 1]), samples[|samples| - 1])
  }

  /** Pushing two runs of samples is pushing their concatenation. */
  lemma {:induction false} PushAllConcat(b: Buckets, xs: seq<Sample>, ys: seq<Sample>)
    ensures PushAll(b, xs + ys) == PushAll(PushAll(b, xs), ys)
    decreases |ys|
  {
    if ys == [] {
      assert xs + ys == xs;
    } else {
      var front := ys[..|ys| - 1];
      assert xs + ys == (xs + front) + [ys[|ys| - 1]];
      assert (xs + ys)[..|xs + ys| - 1] == xs + front;
      PushAllConcat(b, xs, front);
    }
  }

  const Empty: Buckets := Buckets([], map[])

  function Bucketize(samples: seq<Sample>): Buckets {
    PushAll(Empty, samples)
  }

  /** The durations of the samples carrying that label, in order. */
  function LabelMs(samples: seq<Sample>, l: string): seq<int> {
    if samples == [] then []
    else
      var last := samples[|samples| - 1];
      LabelMs(samples[..|samples| - 1], l) + (if last.stage == l then [last.ms] else [])
  }

  /** The record holds a key exactly for the labels that occur, its key order
      has no repeats, and under each key are that label's durations in order. */
  lemma {:induction false} BucketizeMeaning(samples: seq<Sample>)
    ensures WellKept(Bucketize(samples))
    ensures Records(samples, Bucketize(samples))
  {
    if samples != [] {
      var front := samples[..|samples| - 1];
      var s := samples[|samples| - 1];
      BucketizeMeaning(front);
      var b := Bucketize(front);
      var b' := Bucketize(samples);
      assert b' == Push(b, s) by {
        assert PushAll(Empty, samples) == Push(PushAll(Empty, front), s);
      }
      forall l
        ensures l in b'.durations <==> LabelMs(samples, l) != []
        ensures l in b'.durations ==> b'.durations[l] == LabelMs(samples, l)
      {
        assert LabelMs(samples, l) == LabelMs(front, l) + (if s.stage == l then [s.ms] else []);
      }
      if s.stage !in b.durations {
        forall i, j | 0 <= i < j < |b'.order|
          ensures b'.order[i] != b'.order[j]
        {
          if j == |b.order| {
            assert b.order[i] in b.durations;
          }
        }
      }
    }
  }

  /** Every sample with a label is found in that label's durations. */
  lemma {:induction false} LabelMsPositive(samples: seq<Sample>, l: string)
    requires forall k :: 0 <= k < |samples| ==> samples[k].ms > 0
    ensures forall k :: 0 <= k < |LabelMs(samples, l)| ==> LabelMs(samples, l)[k] > 0
  {
    if samples != [] {
      var front := samples[..|samples| - 1];
      LabelMsPositive(front, l);
      var r := LabelMs(samples, l);
      assert forall k :: 0 <= k < |LabelMs(front, l)| ==> r[k] == LabelMs(front, l)[k];
    }
  }

  // ----- Averages -----

  function Sum(vs: seq<int>): int {
    if vs == [] then 0 else Sum(vs[..|vs| - 1]) + vs[|vs| - 1]
  }

  lemma {:induction false} SumPositive(vs: seq<int>)
    requires forall k :: 0 <= k < |vs| ==> vs[k] > 0
    ensures vs != [] ==> Sum(vs) > 0
    ensures Sum(vs) >= 0
  {
    if vs != [] {
      SumPositive(vs[..|vs| - 1]);
    }
  }

  /** The mean of a label's durations, in days. */
  function Mean(vs: seq<int>): real
    requires vs != []
  {
    Sum(vs) as real / (|vs| * MsPerDay) as real
  }

  /** `Object.keys(durations).map(...)`: one row per key, in key order. */
  function Averages(order: seq<string>, durations: map<string, seq<int>>): (rows: seq<Row>)
    requires forall l :: l in order ==> l in durations && durations[l] != []
    ensures |rows| == |order|
    ensures forall i :: 0 <= i < |order| ==> rows[i].stage == order[i]
    ensures forall i :: 0 <= i < |order| ==> rows[i].days == Mean(durations[order[i]])
  {
    if order == [] then []
    else [Row(order[0], Mean(durations[order[0]]))] + Averages(order[1..], durations)
  }

  /** The chart's data: the averages sorted ascending by days. */
  function ChartRows(cs: seq<Candidate>): seq<Row> {
    var b := Bucketize(AllSamples(cs));
    BucketizeMeaning(AllSamples(cs));
    SortBy(Averages(b.order, b.durations), RowKey)
  }

  /** `if (!durations[stageName]) durations[stageName] = [];` followed by
      `durations[stageName].push(duration)`. */
  method AddSample(durations: Buckets, stageName: string, duration: int) returns (after: Buckets)
    ensures after == Push(durations, Sample(stageName, duration))
  {
    after := durations;
    if stageName !in after.durations {
      after := Buckets(after.order + [stageName], after.durations[stageName := []]);
    }
    after := Buckets(after.order, after.durations[stageName := after.durations[stageName] + [duration]]);
    if stageName !in durations.durations {
      assert [] + [duration] == [duration];
    }
  }

  lemma PairsBelowNext(h: seq<StatusEntry>, i: nat)
    requires i + 1 < |h|
    ensures PairsBelow(h, i + 1) == PairsBelow(h, i) + Step(h, i)
  {
  }

  /** The record after the pair at i and i+1 has been looked at. */
  function PushPair(b: Buckets, h: seq<StatusEntry>, i: nat): Buckets
    requires i + 1 < |h|
  {
    if Forward(h, i) then Push(b, PairSample(h, i)) else b
  }

  /** One more pair pushes that pair's contribution onto the record. */
  lemma PushNextPair(durations: Buckets, h: seq<StatusEntry>, i: nat)
    requires i + 1 < |h|
    ensures PushAll(durations, PairsBelow(h, i + 1)) == PushPair(PushAll(durations, PairsBelow(h, i)), h, i)
  {
    var done := PairsBelow(h, i);
    PairsBelowNext(h, i);
    PushAllConcat(durations, done, Step(h, i));
    if Forward(h, i) {
      assert [PairSample(h, i)][..0] == [];
    } else {
      assert done + [] == done;
    }
  }

  /** The body of the index loop: a pair whose second date is strictly later
      pushes its duration under its label. */
  method LookAtPair(durations: Buckets, h: seq<StatusEntry>, i: nat) returns (after: Buckets)
    requires i + 1 < |h|
    ensures after == PushPair(durations, h, i)
  {
    after := durations;
    var currentStage := h[i];
    var nextStage := h[i + 1];
    if nextStage.date > currentStage.date {
      var duration := nextStage.date - currentStage.date;
      if duration >= 0 {
        var stageName := Label(currentStage.status, nextStage.status);
        after := AddSample(after, stageName, duration);
      } else {
        assert false;
      }
    }
  }

  /** The record after the pairs starting below position n have been looked
      at, one at a time. */
  function PushBelow(b: Buckets, h: seq<StatusEntry>, n: nat): Buckets
    requires n == 0 || n < |h|
  {
    if n == 0 then b else PushPair(PushBelow(b, h, n - 1), h, n - 1)
  }

  /** Looking at the pairs one at a time pushes their samples in order. */
  lemma {:induction false} PushBelowPushesPairs(b: Buckets, h: seq<StatusEntry>, n: nat)
    requires n == 0 || n < |h|
    ensures PushBelow(b, h, n) == PushAll(b, PairsBelow(h, n))
  {
    if n > 0 {
      PushBelowPushesPairs(b, h, n - 1);
      PushNextPair(b, h, n - 1);
    }
  }

  /** The index loop over one sorted history: each consecutive pair whose
      second date is strictly later pushes its duration under its label. */
  method PushPairs(durations: Buckets, sortedHistory: seq<StatusEntry>) returns (after: Buckets)
    ensures after == PushAll(durations, PairSamples(sortedHistory))
  {
    ghost var last := if |sortedHistory| == 0 then 0 else |sortedHistory| - 1;
    after := durations;
    var i := 0;
    while i < |sortedHistory| - 1
      invariant 0 <= i <= last
      invariant after == PushBelow(durations, sortedHistory, i)
    {
      after := LookAtPair(after, sortedHistory, i);
      i := i + 1;
    }
    PushBelowPushesPairs(durations, sortedHistory, last);
  }

  /** The `useMemo` body: the forEach over the candidates, each pushing the
      pairs of its date-sorted history, then the averages sorted by days. */
  method StageDurations(candidates: seq<Candidate>) returns (rows: seq<Row>)
    ensures rows == ChartRows(candidates)
  {
    var durations := Empty;
    var k := 0;
    while k < |candidates|
      invariant 0 <= k <= |candidates|
      invariant durations == Bucketize(AllSamples(candidates[..k]))
    {
      var sortedHistory := SortBy(candidates[k].statusHistory, EntryKey);
      assert candidates[..k + 1][..k] == candidates[..k];
      PushAllConcat(Empty, AllSamples(candidates[..k]), PairSamples(sortedHistory));
      durations := PushPairs(durations, sortedHistory);
      k := k + 1;
    }
    assert candidates[..|candidates|] == candidates;
    BucketizeMeaning(AllSamples(candidates));
    rows := SortBy(Averages(durations.order, durations.durations), RowKey);
  }

  // ----- What the chart shows -----

  /** In a sequence whose rows have distinct stages, a row occurs at most once. */
  lemma {:induction false} AtMostOnce(a: seq<Row>, x: Row)
    requires forall i, j :: 0 <= i < j < |a| ==> a[i].stage != a[j].stage
    ensures multiset(a)[x] <= 1
  {
    if a != [] {
      var rest := a[1..];
      assert a == [a[0]] + rest;
      AtMostOnce(rest, x);
      if a[0] == x {
        assert x !in rest by {
          forall j | 0 <= j < |rest| ensures rest[j] != x {
            assert rest[j] == a[j + 1];
          }
        }
      }
    }
  }

  /** Two positions holding the same row make it occur twice. */
  lemma TwiceIfEqual(b: seq<Row>, i: nat, j: nat)
    requires i < j < |b|
    ensures b[i] == b[j] ==> multiset(b)[b[i]] >= 2
  {
    assert b == b[..j] + b[j..];
    assert b[i] in b[..j];
    assert b[j] == b[j..][0];
  }

  /** Rearranging rows with distinct stages keeps the stages distinct. */
  lemma DistinctStagesKept(a: seq<Row>, b: seq<Row>)
    requires multiset(a) == multiset(b)
    requires forall i, j :: 0 <= i < j < |a| ==> a[i].stage != a[j].stage
    ensures forall i, j :: 0 <= i < j < |b| ==> b[i].stage != b[j].stage
  {
    forall i, j | 0 <= i < j < |b|
      ensures b[i].stage != b[j].stage
    {
      assert b[i] in multiset(a) && b[j] in multiset(a);
      var p :| 0 <= p < |a| && a[p] == b[i];
      var q :| 0 <= q < |a| && a[q] == b[j];
      assert b[i].stage == b[j].stage ==> p == q;
      AtMostOnce(a, b[i]);
      TwiceIfEqual(b, i, j);
    }
  }

  predicate DistinctStages(rows: seq<Row>) {
    forall i, j :: 0 <= i < j < |rows| ==> rows[i].stage != rows[j].stage
  }

  /** A row stands for a label some sample carries, holds the mean in days of
      that label's durations, and is positive. */
  predicate RowOf(samples: seq<Sample>, r: Row) {
    var ms := LabelMs(samples, r.stage);
    ms != [] && r.days == Mean(ms) && r.days > 0.0
  }

  /** The rows' stages are exactly the labels the samples carry. */
  ghost predicate Covers(samples: seq<Sample>, rows: seq<Row>) {
    forall l :: (exists i :: 0 <= i < |rows| && rows[i].stage == l) <==> LabelMs(samples, l) != []
  }

  /** The record's labels and durations are those of the samples. */
  ghost predicate Records(samples: seq<Sample>, b: Buckets) {
    && (forall l :: l in b.durations <==> LabelMs(samples, l) != [])
    && (forall l :: l in b.durations ==> b.durations[l] == LabelMs(samples, l))
  }

  /** The averages of a record that holds the samples' durations: one row per
      recorded label with the mean of its durations, positive when the
      durations are. */
  lemma AveragesMeaning(samples: seq<Sample>, b: Buckets)
    requires WellKept(b) && Records(samples, b)
    requires forall k :: 0 <= k < |samples| ==> samples[k].ms > 0
    ensures DistinctStages(Averages(b.order, b.durations))
    ensures Covers(samples, Averages(b.order, b.durations))
    ensures forall i :: 0 <= i < |Averages(b.order, b.durations)| ==> RowOf(samples, Averages(b.order, b.durations)[i])
  {
    var avg := Averages(b.order, b.durations);
    forall l
      ensures (exists i :: 0 <= i < |avg| && avg[i].stage == l) <==> LabelMs(samples, l) != []
    {
      if LabelMs(samples, l) != [] {
        var p :| 0 <= p < |b.order| && b.order[p] == l;
        assert avg[p].stage == l;
      }
    }
    forall i | 0 <= i < |avg|
      ensures RowOf(samples, avg[i])
    {
      MeanPositive(samples, b.order[i]);
    }
  }

  /** The mean of a label's durations is positive when every sample is. */
  lemma MeanPositive(samples: seq<Sample>, l: string)
    requires forall k :: 0 <= k < |samples| ==> samples[k].ms > 0
    requires LabelMs(samples, l) != []
    ensures Mean(LabelMs(samples, l)) > 0.0
  {
    var vs := LabelMs(samples, l);
    LabelMsPositive(samples, l);
    SumPositive(vs);
    QuotientPositive(Sum(vs) as real, (|vs| * MsPerDay) as real);
  }

  lemma QuotientPositive(x: real, y: real)
    requires x > 0.0 && y > 0.0
    ensures x / y > 0.0
  {
  }

  /** Sorting the rows keeps which rows there are. */
  lemma SortedRowsMeaning(avg: seq<Row>, rows: seq<Row>, samples: seq<Sample>)
    requires multiset(rows) == multiset(avg)
    requires DistinctStages(avg) && Covers(samples, avg)
    requires forall i :: 0 <= i < |avg| ==> RowOf(samples, avg[i])
    ensures DistinctStages(rows) && Covers(samples, rows)
    ensures forall i :: 0 <= i < |rows| ==> RowOf(samples, rows[i])
  {
    DistinctStagesKept(avg, rows);
    forall i | 0 <= i < |rows|
      ensures RowOf(samples, rows[i])
    {
      assert rows[i] in multiset(avg);
      var p :| 0 <= p < |avg| && avg[p] == rows[i];
    }
    forall l
      ensures (exists i :: 0 <= i < |rows| && rows[i].stage == l) <==> LabelMs(samples, l) != []
    {
      if LabelMs(samples, l) != [] {
        var p :| 0 <= p < |avg| && avg[p].stage == l;
        assert avg[p] in multiset(rows);
        var i :| 0 <= i < |rows| && rows[i] == avg[p];
      } else {
        forall i | 0 <= i < |rows|
          ensures rows[i].stage != l
        {
          assert rows[i] in multiset(avg);
        }
      }
    }
  }

  /** The chart has exactly one row per label that some sample carries, whose
      value is the mean in days of that label's samples and is positive; the
      rows are sorted ascending by that value. */
  lemma ChartMeaning(cs: seq<Candidate>)
    ensures SortedBy(ChartRows(cs), RowKey)
    ensures DistinctStages(ChartRows(cs))
    ensures Covers(AllSamples(cs), ChartRows(cs))
    ensures forall i :: 0 <= i < |ChartRows(cs)| ==> RowOf(AllSamples(cs), ChartRows(cs)[i])
  {
    var samples := AllSamples(cs);
    BucketizeMeaning(samples);
    SamplesPositive(cs);
    var b := Bucketize(samples);
    var avg := Averages(b.order, b.durations);
    AveragesMeaning(samples, b);
    SortedRowsMeaning(avg, SortBy(avg, RowKey), samples);
  }
}
