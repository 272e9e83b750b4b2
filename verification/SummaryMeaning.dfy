/** What the numbers of a summary are, in terms of the requests: sets counted, amounts added up, and ratios by the
    products they come from. */
module SummaryMeaning {
  import opened Bytes
  import opened PacketValidator
  import opened PhaseSummary
  import opened SummaryValidator
  import Percentiles

  // ---- Counting ----

  /** The first numbers with a property. */
  function Where(n: nat, p: nat -> bool): set<nat> {
    set i: nat | i < n && p(i)
  }

  lemma WhereNext(n: nat, p: nat -> bool)
    ensures |Where(n + 1, p)| == |Where(n, p)| + if p(n) then 1 else 0
  {
    if p(n) {
      assert Where(n + 1, p) == Where(n, p) + {n};
    } else {
      assert Where(n + 1, p) == Where(n, p);
    }
  }

  lemma {:induction false} FilterCountsWhere<T>(items: seq<T>, keep: T -> bool, p: nat -> bool)
    requires forall i | 0 <= i < |items| :: keep(items[i]) == p(i)
    ensures |Filter(items, keep)| == |Where(|items|, p)|
  {
    if items == [] {
      assert Where(0, p) == {};
    } else {
      FilterCountsWhere(items[..|items| - 1], keep, p);
      WhereNext(|items| - 1, p);
    }
  }

  lemma {:induction false} FilterTwice(records: seq<Record>, p: Record -> bool, q: Record -> bool,
                                       both: Record -> bool)
    requires forall r :: both(r) == (p(r) && q(r))
    ensures Filter(Filter(records, p), q) == Filter(records, both)
  {
    if records != [] {
      var front, last := records[..|records| - 1], records[|records| - 1];
      FilterTwice(front, p, q, both);
      var kept := Filter(front, p);
      if p(last) {
        assert (kept + [last])[..|kept|] == kept;
      } else {
        assert kept + [] == kept;
      }
    }
  }

  lemma SuccessesBehind(front: seq<Record>, last: Record)
    ensures Filter(front + [last], IsSuccess) == Filter(front, IsSuccess) + if last.success then [last] else []
  {
    assert (front + [last])[..|front|] == front;
  }

  lemma FieldBehind(records: seq<Record>, last: Record, field: Record -> Option<real>)
    ensures FilterMap(records + [last], field)
            == FilterMap(records, field) + if field(last).Some? then [field(last).value] else []
    ensures FilterMap(records + [], field) == FilterMap(records, field)
  {
    assert (records + [last])[..|records|] == records && records + [] == records;
  }

  // ---- Adding up ----

  /** The sum of the first values. */
  function TotalOf(n: nat, value: nat -> real): real {
    if n == 0 then 0.0 else TotalOf(n - 1, value) + value(n - 1)
  }

  lemma SumBehind(values: seq<real>, last: real)
    ensures Sum(values + [last]) == Sum(values) + last && Sum(values + []) == Sum(values)
  {
    assert (values + [last])[..|values|] == values;
    assert values + [] == values;
  }

  lemma NothingKept(field: Record -> Option<real>)
    ensures FilterMap(Filter([], IsSuccess), field) == [] && Sum([]) == 0.0
  {
  }

  // ---- The numbers of a summary ----

  /** The seconds of audio of a request, and its wall time in milliseconds; none for a failed one. */
  function AudioSeconds(r: RequestRecord): real
    requires FullyMeasured(r)
  {
    if r.success then r.samples as real / r.sampleRateHz as real else 0.0
  }

  function WallMs(r: RequestRecord, wallMs: real): real { if r.success then wallMs else 0.0 }

  /** The counts of a summary are the sizes of these sets of requests. */
  predicate Tallies(s: Summary, requests: seq<RequestRecord>, samplings: seq<Sampling>)
    requires |requests| == |samplings|
  {
    var n := |requests|;
    && s.planned == s.completed == n
    && s.successful == |set i: nat | i < n && requests[i].success|
    && s.failed == n - s.successful
    && s.naturalEos == |set i: nat | i < n && requests[i].success && requests[i].finishReason == Some(Stop)|
    && s.lengthLimited == |set i: nat | i < n && requests[i].success && requests[i].finishReason == Some(Length)|
    && s.eosUnknown == |set i: nat | i < n && requests[i].success && requests[i].finishReason.None?|
    && s.qualifying == |set i: nat | i < n && samplings[i].parity|
    && s.notQualifying == |set i: nat | i < n && !samplings[i].parity|
  }

  lemma NaturalMeans(r: RequestRecord, sampling: Sampling, wallMs: real)
    requires FullyMeasured(r)
    ensures var record := RecordOf(r, sampling, wallMs);
            && IsSuccess(record) == r.success
            && (IsSuccess(record) && IsNatural(record) <==> r.success && r.finishReason == Some(Stop))
            && (IsSuccess(record) && IsLengthLimited(record) <==> r.success && r.finishReason == Some(Length))
            && (IsSuccess(record) && IsUnknown(record) <==> r.success && r.finishReason.None?)
            && IsQualifying(record) == sampling.parity && IsNotQualifying(record) == !sampling.parity
  {
  }

  /** One count of the successful records. */
  lemma OneTally(records: seq<Record>, q: Record -> bool, p: nat -> bool)
    requires forall i | 0 <= i < |records| :: (IsSuccess(records[i]) && q(records[i])) == p(i)
    ensures |Filter(Filter(records, IsSuccess), q)| == |Where(|records|, p)|
  {
    var both := (r: Record) => IsSuccess(r) && q(r);
    FilterTwice(records, IsSuccess, q, both);
    FilterCountsWhere(records, both, p);
  }

  /** A count of successes with a property, as a set of requests. */
  lemma SuccessTally(requests: seq<RequestRecord>, records: seq<Record>, q: Record -> bool, chosen: set<nat>)
    requires |records| == |requests|
    requires forall i: nat :: i in chosen <==> i < |requests| && IsSuccess(records[i]) && q(records[i])
    ensures |Filter(Filter(records, IsSuccess), q)| == |chosen|
  {
    var p := (i: nat) => i in chosen;
    OneTally(records, q, p);
    assert Where(|records|, p) == chosen;
  }

  lemma RecordTally(records: seq<Record>, q: Record -> bool, chosen: set<nat>)
    requires forall i: nat :: i in chosen <==> i < |records| && q(records[i])
    ensures |Filter(records, q)| == |chosen|
  {
    var p := (i: nat) => i in chosen;
    FilterCountsWhere(records, q, p);
    assert Where(|records|, p) == chosen;
  }

  lemma ParityTallies(requests: seq<RequestRecord>, samplings: seq<Sampling>, walls: seq<real>)
    requires |requests| == |samplings| == |walls| && forall i | 0 <= i < |requests| :: FullyMeasured(requests[i])
    ensures var records, n := RecordsOf(requests, samplings, walls), |requests|;
            && |Filter(records, IsQualifying)| == |set i: nat | i < n && samplings[i].parity|
            && |Filter(records, IsNotQualifying)| == |set i: nat | i < n && !samplings[i].parity|
  {
    hide Filter, RecordOf, FullyMeasured, IsSuccess, IsNatural, IsLengthLimited, IsUnknown, IsQualifying;
    hide IsNotQualifying;
    var records, n := RecordsOf(requests, samplings, walls), |requests|;
    forall i | 0 <= i < n
      ensures IsQualifying(records[i]) == samplings[i].parity && IsNotQualifying(records[i]) == !samplings[i].parity
    {
      NaturalMeans(requests[i], samplings[i], walls[i]);
    }
    RecordTally(records, IsQualifying, set i: nat | i < n && samplings[i].parity);
    RecordTally(records, IsNotQualifying, set i: nat | i < n && !samplings[i].parity);
  }

  lemma OutcomeTallies(requests: seq<RequestRecord>, samplings: seq<Sampling>, walls: seq<real>)
    requires |requests| == |samplings| == |walls| && forall i | 0 <= i < |requests| :: FullyMeasured(requests[i])
    ensures var records, n := RecordsOf(requests, samplings, walls), |requests|;
            var successful := Filter(records, IsSuccess);
            && |successful| == |set i: nat | i < n && requests[i].success|
            && |Filter(successful, IsNatural)|
               == |set i: nat | i < n && requests[i].success && requests[i].finishReason == Some(Stop)|
            && |Filter(successful, IsLengthLimited)|
               == |set i: nat | i < n && requests[i].success && requests[i].finishReason == Some(Length)|
            && |Filter(successful, IsUnknown)|
               == |set i: nat | i < n && requests[i].success && requests[i].finishReason.None?|
  {
    hide Filter, RecordOf, FullyMeasured, IsSuccess, IsNatural, IsLengthLimited, IsUnknown, IsQualifying;
    hide IsNotQualifying;
    var records, n := RecordsOf(requests, samplings, walls), |requests|;
    forall i | 0 <= i < n
      ensures var r := records[i];
              && IsSuccess(r) == requests[i].success
              && (IsSuccess(r) && IsNatural(r) <==> requests[i].success && requests[i].finishReason == Some(Stop))
              && (IsSuccess(r) && IsLengthLimited(r)
                  <==> requests[i].success && requests[i].finishReason == Some(Length))
              && (IsSuccess(r) && IsUnknown(r) <==> requests[i].success && requests[i].finishReason.None?)
    {
      NaturalMeans(requests[i], samplings[i], walls[i]);
    }
    RecordTally(records, IsSuccess, set i: nat | i < n && requests[i].success);
    SuccessTally(requests, records, IsNatural,
                 set i: nat | i < n && requests[i].success && requests[i].finishReason == Some(Stop));
    SuccessTally(requests, records, IsLengthLimited,
                 set i: nat | i < n && requests[i].success && requests[i].finishReason == Some(Length));
    SuccessTally(requests, records, IsUnknown,
                 set i: nat | i < n && requests[i].success && requests[i].finishReason.None?);
  }

  lemma SummaryTallies(requests: seq<RequestRecord>, samplings: seq<Sampling>, walls: seq<real>, wallSeconds: real)
    requires |requests| == |samplings| == |walls| && forall i | 0 <= i < |requests| :: FullyMeasured(requests[i])
    ensures Tallies(Summarize(RecordsOf(requests, samplings, walls), |requests|, wallSeconds), requests, samplings)
  {
    hide Filter, DistributionOf, DigestSet, Sum, FilterMap, RecordOf, Ratio, PerSecond, FullyMeasured;
    OutcomeTallies(requests, samplings, walls);
    ParityTallies(requests, samplings, walls);
  }

  /** The amounts of a summary: what the successful requests add up to, and rates and ratios that give these amounts
      back when they are multiplied out. */
  predicate Amounts(s: Summary, requests: seq<RequestRecord>, walls: seq<real>, wallSeconds: real)
    requires |requests| == |walls| && forall i | 0 <= i < |requests| :: FullyMeasured(requests[i])
  {
    var n := |requests|;
    var audio := TotalOf(n, (i: nat) => if i < n then AudioSeconds(requests[i]) else 0.0);
    var wall := TotalOf(n, (i: nat) => if i < n then WallMs(requests[i], walls[i]) else 0.0);
    && s.wallSeconds == wallSeconds && s.totalAudioSeconds == audio
    && (wallSeconds > 0.0 ==> s.attemptedPerSecond * wallSeconds == s.completed as real
                              && s.throughputPerSecond * wallSeconds == s.successful as real)
    && (wallSeconds <= 0.0 ==> s.attemptedPerSecond == 0.0 && s.throughputPerSecond == 0.0)
    && (s.aggregateRtf.Some? <==> audio > 0.0) && (s.summedWallRtf.Some? <==> audio > 0.0)
    && (audio > 0.0 ==> s.aggregateRtf.value * audio == wallSeconds
                        && 1000.0 * s.summedWallRtf.value * audio == wall)
  }

  lemma RateBack(requests: nat, wallSeconds: real)
    ensures wallSeconds > 0.0 ==> PerSecond(requests, wallSeconds) * wallSeconds == requests as real
    ensures wallSeconds <= 0.0 ==> PerSecond(requests, wallSeconds) == 0.0
  {
  }

  lemma RatioBack(a: real, b: real)
    ensures Ratio(a, b).Some? <==> b > 0.0
    ensures b > 0.0 ==> Ratio(a, b).value * b == a
  {
  }

  lemma ThousandTimes(ratio: real, audio: real, wall: real)
    requires ratio * audio == wall / 1000.0
    ensures 1000.0 * ratio * audio == wall
  {
    assert 1000.0 * ratio * audio == 1000.0 * (ratio * audio);
  }

  lemma SummaryAmounts(requests: seq<RequestRecord>, samplings: seq<Sampling>, walls: seq<real>, wallSeconds: real)
    requires |requests| == |samplings| == |walls| && forall i | 0 <= i < |requests| :: FullyMeasured(requests[i])
    ensures Amounts(Summarize(RecordsOf(requests, samplings, walls), |requests|, wallSeconds), requests, walls,
                    wallSeconds)
  {
    hide Filter, DistributionOf, DigestSet, Sum, FilterMap, TotalOf, Ratio, PerSecond, Picked;
    var records, n := RecordsOf(requests, samplings, walls), |requests|;
    var s := Summarize(records, n, wallSeconds);
    var audioOf := (i: nat) => if i < n then AudioSeconds(requests[i]) else 0.0;
    var wallOf := (i: nat) => if i < n then WallMs(requests[i], walls[i]) else 0.0;
    FieldPicked(records, Audio, Succeeded(requests), audioOf);
    FieldPicked(records, Wall, Succeeded(requests), wallOf);
    SumPicked(n, Succeeded(requests), audioOf);
    SumPicked(n, Succeeded(requests), wallOf);
    var audio, wall := TotalOf(n, audioOf), TotalOf(n, wallOf);
    RatioBack(wallSeconds, audio);
    RatioBack(wall / 1000.0, audio);
    if audio > 0.0 {
      ThousandTimes(s.summedWallRtf.value, audio, wall);
    }
    RateBack(s.completed, wallSeconds);
    RateBack(s.successful, wallSeconds);
  }

  // ---- Records and distributions ----

  /** The measurements of one success: seconds of audio and the ratio of wall time to audio, multiplied out. */
  lemma RecordMeans(r: RequestRecord, sampling: Sampling, wallMs: real)
    requires FullyMeasured(r) && r.success
    ensures var record := RecordOf(r, sampling, wallMs);
            && record.success && record.ttfaMs == Some(r.ttfaMs) && record.wallMs == Some(wallMs)
            && record.audioSeconds.Some? && record.audioSeconds.value * r.sampleRateHz as real == r.samples as real
            && record.rtf.Some? && record.rtf.value * record.audioSeconds.value * 1000.0 == wallMs
            && (record.naturalEos == Some(true) <==> r.finishReason == Some(Stop))
            && (record.lengthLimited == Some(true) <==> r.finishReason == Some(Length))
  {
    var audio := r.samples as real / r.sampleRateHz as real;
    assert audio * r.sampleRateHz as real == r.samples as real;
    assert audio > 0.0;
    Divided(wallMs / 1000.0, audio);
  }

  lemma Divided(a: real, b: real)
    requires b > 0.0
    ensures a / b * b == a
  {
  }

  /** A percentile divides the steps between the sorted values in this proportion, and lies on the line between the two
      values around that place. */
  predicate Interpolates(value: real, sorted: seq<real>, percent: nat, lower: nat, rest: nat) {
    && lower < |sorted| && rest < 100 && 100 * lower + rest == (|sorted| - 1) * percent
    && (rest > 0 ==> lower + 1 < |sorted|)
    && value * 100.0 == sorted[lower] * (100 - rest) as real
                        + if rest > 0 then sorted[lower + 1] * rest as real else 0.0
  }

  ghost predicate IsPercentile(value: real, sorted: seq<real>, percent: nat) {
    exists lower, rest :: Interpolates(value, sorted, percent, lower, rest)
  }

  lemma PercentileMeans(sorted: seq<real>, percent: nat)
    requires sorted != [] && percent < 100
    ensures IsPercentile(Percentiles.Percentile(sorted, percent, 100), sorted, percent)
  {
    var rank := (|sorted| - 1) * percent;
    var lower, rest := rank / 100, rank % 100;
    Percentiles.RankInRange(|sorted| - 1, percent, 100);
    assert 100 * lower + rest == rank;
    if rest > 0 {
      RankBelow(|sorted| - 1, percent, lower, rest);
      Weighted(sorted[lower], sorted[lower + 1], rest);
    } else {
      Unweighted(sorted, lower);
    }
    assert Interpolates(Percentiles.Percentile(sorted, percent, 100), sorted, percent, lower, rest);
  }

  lemma RankBelow(steps: nat, percent: nat, lower: nat, rest: nat)
    requires percent < 100 && 100 * lower + rest == steps * percent && rest > 0
    ensures lower < steps
  {
    Percentiles.Scale(percent, 100, steps);
    assert steps * percent <= 100 * steps;
  }

  lemma Weighted(a: real, b: real, rest: nat)
    requires rest < 100
    ensures var w := rest as real / 100 as real;
            (a * (1.0 - w) + b * w) * 100.0 == a * (100 - rest) as real + b * rest as real
  {
    var w := rest as real / 100 as real;
    assert w * 100.0 == rest as real;
    assert a * (1.0 - w) * 100.0 == a * (100.0 - w * 100.0);
    assert b * w * 100.0 == b * (w * 100.0);
  }

  lemma Unweighted(sorted: seq<real>, lower: nat)
    requires lower < |sorted|
    ensures Percentiles.AtRank(sorted, 100 * lower, 100) == sorted[lower]
  {
    if lower + 1 < |sorted| {
      assert (100 * lower % 100) as real / 100 as real == 0.0;
    }
  }

  /** A distribution counts its values and gives their mean, their least and their greatest value, and the
      percentiles of the sorted values; there is none over no values. */
  ghost predicate Spread(d: Option<Distribution>, values: seq<real>) {
    if values == [] then d.None?
    else
      && d.Some? && d.value.count == |values| && d.value.mean * |values| as real == Sum(values)
      && d.value.min in values && d.value.max in values
      && (forall i | 0 <= i < |values| :: d.value.min <= values[i] <= d.value.max)
      && var sorted := Percentiles.Sort(values);
         && IsPercentile(d.value.p50, sorted, 50) && IsPercentile(d.value.p90, sorted, 90)
         && IsPercentile(d.value.p95, sorted, 95) && IsPercentile(d.value.p99, sorted, 99)
  }

  lemma DistributionMeans(values: seq<real>)
    ensures Spread(DistributionOf(values), values)
  {
    hide Percentiles.Sort, Percentiles.Percentile, Percentiles.Sorted, Sum, IsPercentile;
    if values != [] {
      var sorted := Percentiles.Sort(values);
      Percentiles.SortSorts(values);
      SumOfMultiset(sorted, values);
      Divided(Sum(sorted), |values| as real);
      EndsOfSorted(sorted, values);
      PercentileMeans(sorted, 50);
      PercentileMeans(sorted, 90);
      PercentileMeans(sorted, 95);
      PercentileMeans(sorted, 99);
    }
  }

  lemma EndsOfSorted(sorted: seq<real>, values: seq<real>)
    requires multiset(sorted) == multiset(values) && Percentiles.Sorted(sorted) && sorted != []
    ensures sorted[0] in values && sorted[|sorted| - 1] in values
    ensures forall i | 0 <= i < |values| :: sorted[0] <= values[i] <= sorted[|sorted| - 1]
  {
    assert sorted[0] in multiset(sorted) && sorted[|sorted| - 1] in multiset(sorted);
    forall i | 0 <= i < |values|
      ensures sorted[0] <= values[i] <= sorted[|sorted| - 1]
    {
      assert values[i] in multiset(values);
      var k :| 0 <= k < |sorted| && sorted[k] == values[i];
    }
  }

  /** The sum does not depend on the order. */
  lemma {:induction false} SumOfMultiset(a: seq<real>, b: seq<real>)
    requires multiset(a) == multiset(b)
    ensures Sum(a) == Sum(b)
  {
    if a == [] {
      assert |multiset(b)| == 0;
    } else {
      var last := a[|a| - 1];
      assert last in multiset(b);
      var k :| 0 <= k < |b| && b[k] == last;
      hide Sum;
      TakenOut(a, |a| - 1);
      SumBehind(a[..|a| - 1], last);
      assert a == a[..|a| - 1] + [last];
      TakenOut(b, k);
      assert a[..|a| - 1] + a[|a|..] == a[..|a| - 1];
      SumOfMultiset(a[..|a| - 1], b[..k] + b[k + 1..]);
      SumTakenOut(b[..k], last, b[k + 1..]);
    }
  }

  lemma TakenOut(s: seq<real>, k: nat)
    requires k < |s|
    ensures s == s[..k] + [s[k]] + s[k + 1..]
    ensures multiset(s[..k] + s[k + 1..]) == multiset(s) - multiset{s[k]}
  {
    assert s == s[..k] + [s[k]] + s[k + 1..];
  }

  lemma {:induction false} SumTakenOut(front: seq<real>, x: real, back: seq<real>)
    ensures Sum(front + [x] + back) == Sum(front + back) + x
  {
    if back == [] {
      SumBehind(front, x);
      assert front + [x] + back == front + [x] && front + back == front;
    } else {
      var rest, last := back[..|back| - 1], back[|back| - 1];
      SumTakenOut(front, x, rest);
      SumBehind(front + [x] + rest, last);
      SumBehind(front + rest, last);
      assert front + [x] + back == (front + [x] + rest) + [last] && front + back == (front + rest) + [last];
    }
  }

  /** The values of the chosen ones among the first numbers, in order. */
  function Picked(n: nat, chosen: nat -> bool, value: nat -> real): seq<real> {
    if n == 0 then [] else Picked(n - 1, chosen, value) + if chosen(n - 1) then [value(n - 1)] else []
  }

  lemma {:induction false} FieldPicked(records: seq<Record>, field: Record -> Option<real>, chosen: nat -> bool,
                                       value: nat -> real)
    requires forall i | 0 <= i < |records| ::
               records[i].success == chosen(i) && (chosen(i) ==> field(records[i]) == Some(value(i)))
    ensures FilterMap(Filter(records, IsSuccess), field) == Picked(|records|, chosen, value)
  {
    if records != [] {
      var front, last := records[..|records| - 1], records[|records| - 1];
      FieldPicked(front, field, chosen, value);
      assert records == front + [last];
      hide Filter, FilterMap;
      SuccessesBehind(front, last);
      FieldBehind(Filter(front, IsSuccess), last, field);
    } else {
      NothingKept(field);
    }
  }

  /** Where the others have no value, the chosen values add up to the whole. */
  lemma {:induction false} SumPicked(n: nat, chosen: nat -> bool, value: nat -> real)
    requires forall i: nat | i < n && !chosen(i) :: value(i) == 0.0
    ensures Sum(Picked(n, chosen, value)) == TotalOf(n, value)
  {
    if n > 0 {
      SumPicked(n - 1, chosen, value);
      SumBehind(Picked(n - 1, chosen, value), value(n - 1));
    }
  }

  /** Wall time in seconds over seconds of audio. */
  function RealTimeFactor(r: RequestRecord, wallMs: real): real
    requires FullyMeasured(r)
  {
    if !r.success then 0.0
    else
      AudioIsPositive(r);
      wallMs / 1000.0 / AudioSeconds(r)
  }

  lemma AudioIsPositive(r: RequestRecord)
    requires FullyMeasured(r) && r.success
    ensures AudioSeconds(r) > 0.0
  {
    QuotientPositive(r.samples as real, r.sampleRateHz as real);
  }

  function Succeeded(requests: seq<RequestRecord>): nat -> bool {
    (i: nat) => i < |requests| && requests[i].success
  }

  /** The three distributions are over the successful requests: times to first audio, wall times, and wall time in
      seconds over seconds of audio. */
  ghost predicate Distributes(s: Summary, requests: seq<RequestRecord>, walls: seq<real>)
    requires |requests| == |walls| && forall i | 0 <= i < |requests| :: FullyMeasured(requests[i])
  {
    var n := |requests|;
    && Spread(s.ttfaMs, Picked(n, Succeeded(requests), (i: nat) => if i < n then requests[i].ttfaMs else 0.0))
    && Spread(s.wallMs, Picked(n, Succeeded(requests), (i: nat) => if i < n then walls[i] else 0.0))
    && Spread(s.rtf, Picked(n, Succeeded(requests),
                            (i: nat) => if i < n then RealTimeFactor(requests[i], walls[i]) else 0.0))
  }

  lemma SummaryDistributes(requests: seq<RequestRecord>, samplings: seq<Sampling>, walls: seq<real>, wallSeconds: real)
    requires |requests| == |samplings| == |walls| && forall i | 0 <= i < |requests| :: FullyMeasured(requests[i])
    ensures Distributes(Summarize(RecordsOf(requests, samplings, walls), |requests|, wallSeconds), requests, walls)
  {
    hide Filter, DistributionOf, DigestSet, Sum, FilterMap, Picked, Ratio, PerSecond, Spread;
    var records, n := RecordsOf(requests, samplings, walls), |requests|;
    var first := (i: nat) => if i < n then requests[i].ttfaMs else 0.0;
    var wall := (i: nat) => if i < n then walls[i] else 0.0;
    var ratio := (i: nat) => if i < n then RealTimeFactor(requests[i], walls[i]) else 0.0;
    FieldPicked(records, Ttfa, Succeeded(requests), first);
    FieldPicked(records, Wall, Succeeded(requests), wall);
    FieldPicked(records, Rtf, Succeeded(requests), ratio);
    DistributionMeans(Picked(n, Succeeded(requests), first));
    DistributionMeans(Picked(n, Succeeded(requests), wall));
    DistributionMeans(Picked(n, Succeeded(requests), ratio));
  }
}
