/** The independent check of a client summary: everything in it is recomputed from the request records,
    with definitions of its own. The summary a run writes is accepted whenever its wall time is positive. */
module SummaryValidator {
  import opened Bytes
  import opened Text
  import opened Percentiles
  import opened PhaseSummary
  import opened PacketValidator

  predicate Close(observed: real, expected: real) {
    PacketValidator.IsClose(observed, expected, 0.000000001, 0.000000001)
  }

  /** A reported number is not negative and close to the recomputed one. */
  predicate NumberAccepted(observed: real, expected: real) { observed >= 0.0 && Close(observed, expected) }

  /** A number is accepted exactly if it is not negative and differs from the recomputed one by no more than a
      billionth, of the whole or of the larger one. */
  lemma NumberAcceptedIff(observed: real, expected: real)
    requires expected >= 0.0
    ensures var (less, more) := if observed < expected then (observed, expected) else (expected, observed);
            NumberAccepted(observed, expected)
            <==> observed >= 0.0
                 && (1_000_000_000.0 * (more - less) <= 1.0 || 1_000_000_000.0 * (more - less) <= more)
  {
  }

  predicate NullableAccepted(observed: Option<real>, expected: Option<real>) {
    if expected.None? then observed.None? else observed.Some? && NumberAccepted(observed.value, expected.value)
  }

  // ---- Recomputation ----

  function CountOf(records: seq<Record>, p: Record -> bool): nat {
    if records == [] then 0 else (if p(records[0]) then 1 else 0) + CountOf(records[1..], p)
  }

  function Successful(records: seq<Record>): seq<Record> {
    if records == [] then [] else (if records[0].success then [records[0]] else []) + Successful(records[1..])
  }

  /** The value every success has to have. */
  function ValuesOf(successful: seq<Record>, field: Record -> Option<real>): (r: seq<real>)
    requires forall i | 0 <= i < |successful| :: field(successful[i]).Some?
    ensures |r| == |successful|
  {
    seq(|successful|, i requires 0 <= i < |successful| => field(successful[i]).value)
  }

  function ExpectedDistribution(values: seq<real>): Option<Distribution> {
    if values == [] then None
    else
      var ordered := Percentiles.Sort(values);
      Some(Distribution(|ordered|, ordered[0], Sum(ordered) / |ordered| as real,
                        ExpectedPercentile(ordered, 0.5), ExpectedPercentile(ordered, 0.9),
                            ExpectedPercentile(ordered, 0.95),
                        ExpectedPercentile(ordered, 0.99), ordered[|ordered| - 1]))
  }

  /** Sorts what it is given once more. */
  function ExpectedPercentile(values: seq<real>, quantile: real): real
    requires values != [] && 0.0 <= quantile <= 1.0
  {
    PositionPercentile(Percentiles.Sort(values), quantile)
  }

  predicate DistributionAccepted(value: Option<Distribution>, expected: Option<Distribution>) {
    if expected.None? then value.None?
    else
      && value.Some? && value.value.count == expected.value.count >= 1
      && NumberAccepted(value.value.min, expected.value.min) && NumberAccepted(value.value.mean, expected.value.mean)
      && NumberAccepted(value.value.p50, expected.value.p50) && NumberAccepted(value.value.p90, expected.value.p90)
      && NumberAccepted(value.value.p95, expected.value.p95) && NumberAccepted(value.value.p99, expected.value.p99)
      && NumberAccepted(value.value.max, expected.value.max)
  }

  predicate Ascending(digests: seq<bytes>) {
    forall i, j | 0 <= i < j < |digests| :: Before(digests[i], digests[j])
  }

  /** `digests` is the sorted set of the records' digests. */
  predicate DigestsExpected(digests: seq<bytes>, records: seq<Record>) {
    && Ascending(digests)
    && (forall d | d in digests :: exists i | 0 <= i < |records| :: records[i].samplingSha256 == d)
    && forall i | 0 <= i < |records| :: records[i].samplingSha256 in digests
  }

  /** Every success carries the measurements; the record checks see to that. */
  predicate Measured(successful: seq<Record>) {
    forall i | 0 <= i < |successful| ::
      successful[i].ttfaMs.Some? && successful[i].wallMs.Some? && successful[i].audioSeconds.Some?
        && successful[i].rtf.Some?
  }

  predicate CountsAccepted(s: Summary, records: seq<Record>) {
    var successful := Successful(records);
    && s.planned == |records| && s.completed == |records| && s.successful == |successful|
       && s.failed == |records| - |successful|
    && s.naturalEos == CountOf(successful, IsNatural) && s.lengthLimited == CountOf(successful, IsLengthLimited)
    && s.eosUnknown == CountOf(successful, IsUnknown)
    && s.qualifying == CountOf(records, IsQualifying) && s.notQualifying == CountOf(records, IsNotQualifying)
  }

  function Over(a: real, b: real): real
    requires b > 0.0
  {
    a / b
  }

  predicate NumbersMatch(s: Summary, completed: nat, successes: nat, totalAudio: real, summedWall: real) {
    && s.wallSeconds > 0.0
    && NumberAccepted(s.attemptedPerSecond, Over(completed as real, s.wallSeconds))
    && NumberAccepted(s.throughputPerSecond, Over(successes as real, s.wallSeconds))
    && NumberAccepted(s.totalAudioSeconds, totalAudio)
    && NullableAccepted(s.aggregateRtf, if totalAudio > 0.0 then Some(Over(s.wallSeconds, totalAudio)) else None)
    && NullableAccepted(s.summedWallRtf, if totalAudio > 0.0 then Some(Over(summedWall, totalAudio)) else None)
  }

  predicate NumbersAccepted(s: Summary, records: seq<Record>)
    requires Measured(Successful(records))
  {
    var successful := Successful(records);
    NumbersMatch(s, |records|, |successful|, Sum(ValuesOf(successful, Audio)), Sum(ValuesOf(successful, Wall)) / 1000.0)
  }

  predicate DistributionsAccepted(s: Summary, records: seq<Record>)
    requires Measured(Successful(records))
  {
    var successful := Successful(records);
    && DistributionAccepted(s.ttfaMs, ExpectedDistribution(ValuesOf(successful, Ttfa)))
    && DistributionAccepted(s.wallMs, ExpectedDistribution(ValuesOf(successful, Wall)))
    && DistributionAccepted(s.rtf, ExpectedDistribution(ValuesOf(successful, Rtf)))
  }

  predicate SummaryAccepted(s: Summary, records: seq<Record>) {
    && CountsAccepted(s, records)
    && (forall i | 0 <= i < |records| :: records[i].requestIndex == i)
    && (forall i | 0 <= i < |s.samplingSha256s| :: DigestText(s.samplingSha256s[i]))
       && DigestsExpected(s.samplingSha256s, records)
    && Measured(Successful(records)) && NumbersAccepted(s, records) && DistributionsAccepted(s, records)
  }

  // ---- Agreement of the pieces ----

  lemma {:induction false} FilterPrepend<T>(first: T, rest: seq<T>, keep: T -> bool)
    ensures Filter([first] + rest, keep) == (if keep(first) then [first] else []) + Filter(rest, keep)
  {
    if rest == [] {
      assert [first] + rest == [first] && [first][..0] == [];
    } else {
      var front := rest[..|rest| - 1];
      assert ([first] + rest)[..|rest|] == [first] + front;
      FilterPrepend(first, front, keep);
    }
  }

  lemma {:induction false} CountIsFilter(records: seq<Record>, p: Record -> bool)
    ensures CountOf(records, p) == |Filter(records, p)|
  {
    if records != [] {
      CountIsFilter(records[1..], p);
      FilterPrepend(records[0], records[1..], p);
      assert [records[0]] + records[1..] == records;
    }
  }

  lemma {:induction false} SuccessfulIsFilter(records: seq<Record>)
    ensures Successful(records) == Filter(records, IsSuccess)
  {
    if records != [] {
      SuccessfulIsFilter(records[1..]);
      FilterPrepend(records[0], records[1..], IsSuccess);
      assert [records[0]] + records[1..] == records;
    }
  }

  lemma {:induction false} FilterMapIsValues(successful: seq<Record>, field: Record -> Option<real>)
    requires forall i | 0 <= i < |successful| :: field(successful[i]).Some?
    ensures FilterMap(successful, field) == ValuesOf(successful, field)
  {
    if successful != [] {
      var front := successful[..|successful| - 1];
      FilterMapIsValues(front, field);
      assert ValuesOf(successful, field) == ValuesOf(front, field) + [field(successful[|successful| - 1]).value];
    }
  }

  /** The client's integer ranks and the validator's positions make the same distribution. */
  lemma DistributionsCoincide(values: seq<real>)
    ensures DistributionOf(values) == ExpectedDistribution(values)
  {
    hide Percentiles.Sort, Percentile, PositionPercentile;
    if values != [] {
      var sorted := Percentiles.Sort(values);
      SortOnce(values);
      PercentilesCoincide(sorted, 50, 100);
      PercentilesCoincide(sorted, 90, 100);
      PercentilesCoincide(sorted, 95, 100);
      PercentilesCoincide(sorted, 99, 100);
    }
  }

  lemma {:induction false} SumNonNegative(values: seq<real>)
    requires forall i | 0 <= i < |values| :: values[i] >= 0.0
    ensures Sum(values) >= 0.0
  {
    if values != [] {
      SumNonNegative(values[..|values| - 1]);
    }
  }

  lemma CloseToItself(x: real)
    requires x >= 0.0
    ensures NumberAccepted(x, x)
  {
  }

  lemma SortedNonNegative(values: seq<real>)
    requires forall i | 0 <= i < |values| :: values[i] >= 0.0
    ensures forall i | 0 <= i < |values| :: Percentiles.Sort(values)[i] >= 0.0
  {
    var sorted := Percentiles.Sort(values);
    forall i | 0 <= i < |sorted|
      ensures sorted[i] >= 0.0
    {
      assert sorted[i] in multiset(sorted);
      assert sorted[i] in values;
    }
  }

  /** A distribution over values that are not negative is accepted against itself. */
  lemma OwnDistribution(values: seq<real>)
    requires forall i | 0 <= i < |values| :: values[i] >= 0.0
    ensures DistributionAccepted(ExpectedDistribution(values), ExpectedDistribution(values))
  {
    hide Percentiles.Sort, PositionPercentile, Close, Sum;
    if values != [] {
      var d, sorted := ExpectedDistribution(values).value, Percentiles.Sort(values);
      SortedNonNegative(values);
      SortOnce(values);
      Percentiles.SortSorts(values);
      SumNonNegative(sorted);
      QuotientPositive(Sum(sorted), |sorted| as real);
      OwnPercentile(sorted, 0.5);
      OwnPercentile(sorted, 0.9);
      OwnPercentile(sorted, 0.95);
      OwnPercentile(sorted, 0.99);
      CloseToItself(d.min);
      CloseToItself(d.mean);
      CloseToItself(d.max);
    }
  }

  lemma OwnPercentile(sorted: seq<real>, quantile: real)
    requires sorted != [] && sorted[0] >= 0.0 && Sorted(sorted) && Percentiles.Sort(sorted) == sorted
             && 0.0 <= quantile <= 1.0
    ensures NumberAccepted(ExpectedPercentile(sorted, quantile), ExpectedPercentile(sorted, quantile))
  {
    hide Percentiles.Sort, PositionPercentile, Close;
    PercentileBounds(sorted, quantile);
    CloseToItself(ExpectedPercentile(sorted, quantile));
  }

  // ---- Digests ----

  lemma {:induction false} InsertedDigest(digests: seq<bytes>, digest: bytes)
    requires Ascending(digests)
    ensures forall d :: d in InsertDigest(digests, digest) <==> d in digests || d == digest
    ensures Ascending(InsertDigest(digests, digest))
  {
    hide Before;
    if digests == [] {
    } else if Before(digest, digests[0]) {
      forall j | 0 <= j < |digests|
        ensures Before(digest, digests[j])
      {
        if j > 0 {
          BeforeTransitive(digest, digests[0], digests[j]);
        }
      }
    } else if digest == digests[0] {
    } else {
      var first, rest := digests[0], InsertDigest(digests[1..], digest);
      BeforeOrAfter(digest, first);
      InsertedDigest(digests[1..], digest);
      assert digests == [first] + digests[1..];
      forall j | 0 <= j < |rest|
        ensures Before(first, rest[j])
      {
        assert rest[j] in rest;
      }
      assert InsertDigest(digests, digest) == [first] + rest;
      PrependAscending(first, rest);
    }
  }

  lemma PrependAscending(first: bytes, rest: seq<bytes>)
    requires Ascending(rest) && forall j | 0 <= j < |rest| :: Before(first, rest[j])
    ensures Ascending([first] + rest)
  {
    hide Before;
  }

  lemma {:induction false} DigestSetExpected(records: seq<Record>)
    ensures DigestsExpected(DigestSet(records), records)
  {
    hide Before, InsertDigest;
    if records != [] {
      var front, last := records[..|records| - 1], records[|records| - 1];
      DigestSetExpected(front);
      InsertedDigest(DigestSet(front), last.samplingSha256);
      var digests := DigestSet(records);
      forall d | d in digests
        ensures exists i | 0 <= i < |records| :: records[i].samplingSha256 == d
      {
        if d == last.samplingSha256 {
          assert records[|records| - 1].samplingSha256 == d;
        } else {
          assert d in DigestSet(front);
          var i :| 0 <= i < |front| && front[i].samplingSha256 == d;
          assert records[i].samplingSha256 == d;
        }
      }
      forall i | 0 <= i < |records|
        ensures records[i].samplingSha256 in digests
      {
        assert i < |front| ==> front[i].samplingSha256 in DigestSet(front);
      }
    }
  }

  // ---- The summary of a run ----

  /** What the records of a run satisfy once they are in order. */
  predicate RunRecords(records: seq<Record>) {
    forall i | 0 <= i < |records| ::
      ClientRecord(records[i]) && records[i].requestIndex == i && DigestText(records[i].samplingSha256)
  }

  lemma {:induction false} SuccessfulRecords(records: seq<Record>)
    requires forall i | 0 <= i < |records| :: ClientRecord(records[i])
    ensures Measured(Successful(records))
    ensures forall i | 0 <= i < |Successful(records)| ::
              Successful(records)[i].success && ClientRecord(Successful(records)[i])
  {
    if records != [] {
      SuccessfulRecords(records[1..]);
    }
  }

  lemma CountsAgree(records: seq<Record>, wallSeconds: real)
    ensures CountsAccepted(Summarize(records, |records|, wallSeconds), records)
  {
    hide CountOf, Filter, Successful, DistributionOf, DigestSet, Sum, FilterMap;
    SuccessfulIsFilter(records);
    var successful := Successful(records);
    CountIsFilter(successful, IsNatural);
    CountIsFilter(successful, IsLengthLimited);
    CountIsFilter(successful, IsUnknown);
    CountIsFilter(records, IsQualifying);
    CountIsFilter(records, IsNotQualifying);
  }

  /** The values of one field over the successes, as both sides collect them. */
  lemma FieldAgrees(records: seq<Record>, field: Record -> Option<real>)
    requires forall i | 0 <= i < |Successful(records)| :: field(Successful(records)[i]).Some?
    requires forall i | 0 <= i < |Successful(records)| :: field(Successful(records)[i]).value >= 0.0
    ensures FilterMap(Filter(records, IsSuccess), field) == ValuesOf(Successful(records), field)
    ensures forall i | 0 <= i < |Successful(records)| :: ValuesOf(Successful(records), field)[i] >= 0.0
    ensures Sum(ValuesOf(Successful(records), field)) >= 0.0
    ensures DistributionAccepted(DistributionOf(ValuesOf(Successful(records), field)),
                                 ExpectedDistribution(ValuesOf(Successful(records), field)))
  {
    hide Filter, Successful, DistributionOf, ExpectedDistribution, DistributionAccepted, Sum, FilterMap;
    SuccessfulIsFilter(records);
    FilterMapIsValues(Successful(records), field);
    var values := ValuesOf(Successful(records), field);
    SumNonNegative(values);
    DistributionsCoincide(values);
    OwnDistribution(values);
  }

  lemma OwnNumbers(s: Summary, completed: nat, successes: nat, totalAudio: real, summedWall: real)
    requires s.wallSeconds > 0.0 && totalAudio >= 0.0 && summedWall >= 0.0
    requires s.attemptedPerSecond == PerSecond(completed, s.wallSeconds)
             && s.throughputPerSecond == PerSecond(successes, s.wallSeconds)
    requires s.totalAudioSeconds == totalAudio
    requires s.aggregateRtf == Ratio(s.wallSeconds, totalAudio) && s.summedWallRtf == Ratio(summedWall, totalAudio)
    ensures NumbersMatch(s, completed, successes, totalAudio, summedWall)
  {
    hide PerSecond, Ratio, Over, NumberAccepted, NullableAccepted;
    PerSecondAccepted(completed, s.wallSeconds);
    PerSecondAccepted(successes, s.wallSeconds);
    CloseToItself(totalAudio);
    RatioAccepted(s.wallSeconds, totalAudio);
    RatioAccepted(summedWall, totalAudio);
  }

  lemma NumbersAgree(records: seq<Record>, wallSeconds: real)
    requires RunRecords(records) && wallSeconds > 0.0 && Measured(Successful(records))
    ensures NumbersAccepted(Summarize(records, |records|, wallSeconds), records)
  {
    hide RunRecords, Filter, Successful, DistributionOf, DigestSet, Sum, FilterMap, ValuesOf, Ratio, PerSecond;
    hide NumbersMatch;
    var successful := Successful(records);
    SuccessfulIsFilter(records);
    AudioAgrees(records);
    WallAgrees(records);
    Thousandth(Sum(ValuesOf(successful, Wall)));
    OwnNumbers(Summarize(records, |records|, wallSeconds), |records|, |successful|,
               Sum(ValuesOf(successful, Audio)), Sum(ValuesOf(successful, Wall)) / 1000.0);
  }

  lemma AudioAgrees(records: seq<Record>)
    requires RunRecords(records) && Measured(Successful(records))
    ensures FilterMap(Filter(records, IsSuccess), Audio) == ValuesOf(Successful(records), Audio)
    ensures Sum(ValuesOf(Successful(records), Audio)) >= 0.0
  {
    hide Filter, Successful, Sum, FilterMap, ValuesOf, DigestText, DistributionOf, ExpectedDistribution;
    hide DistributionAccepted;
    SuccessfulRecords(records);
    FieldAgrees(records, Audio);
  }

  lemma WallAgrees(records: seq<Record>)
    requires RunRecords(records) && Measured(Successful(records))
    ensures FilterMap(Filter(records, IsSuccess), Wall) == ValuesOf(Successful(records), Wall)
    ensures Sum(ValuesOf(Successful(records), Wall)) >= 0.0
  {
    hide Filter, Successful, Sum, FilterMap, ValuesOf, DigestText, DistributionOf, ExpectedDistribution;
    hide DistributionAccepted;
    SuccessfulRecords(records);
    FieldAgrees(records, Wall);
  }

  lemma Thousandth(x: real)
    requires x >= 0.0
    ensures x / 1000.0 >= 0.0
  {
  }

  lemma PerSecondAccepted(requests: nat, wallSeconds: real)
    requires wallSeconds > 0.0
    ensures NumberAccepted(PerSecond(requests, wallSeconds), Over(requests as real, wallSeconds))
  {
    hide NumberAccepted;
    QuotientPositive(requests as real, wallSeconds);
    CloseToItself(requests as real / wallSeconds);
  }

  lemma RatioAccepted(a: real, b: real)
    requires a >= 0.0
    ensures NullableAccepted(Ratio(a, b), if b > 0.0 then Some(Over(a, b)) else None)
  {
    hide NumberAccepted;
    if b > 0.0 {
      QuotientPositive(a, b);
      CloseToItself(a / b);
    }
  }

  lemma DistributionsAgree(records: seq<Record>, wallSeconds: real)
    requires RunRecords(records) && Measured(Successful(records))
    ensures DistributionsAccepted(Summarize(records, |records|, wallSeconds), records)
  {
    hide Filter, Successful, DistributionOf, ExpectedDistribution, DistributionAccepted, DigestSet, Sum, FilterMap;
    hide ValuesOf;
    SuccessfulRecords(records);
    FieldAgrees(records, Ttfa);
    FieldAgrees(records, Wall);
    FieldAgrees(records, Rtf);
  }

  /** The summary the client writes over the records of a run is the one the validator recomputes, so it
      is accepted exactly when the measured phase took any time at all. */
  lemma SummaryAgreement(records: seq<Record>, wallSeconds: real)
    requires RunRecords(records)
    ensures SummaryAccepted(Summarize(records, |records|, wallSeconds), records) <==> wallSeconds > 0.0
  {
    hide CountsAccepted, NumbersAccepted, DistributionsAccepted, DigestsExpected, Successful, ClientRecord;
    var s := Summarize(records, |records|, wallSeconds);
    SuccessfulRecords(records);
    CountsAgree(records, wallSeconds);
    DistributionsAgree(records, wallSeconds);
    DigestSetExpected(records);
    WallSecondsKept(records, wallSeconds);
    forall i | 0 <= i < |s.samplingSha256s|
      ensures DigestText(s.samplingSha256s[i])
    {
      DigestFromRecord(s.samplingSha256s, records, i);
    }
    if wallSeconds > 0.0 {
      NumbersAgree(records, wallSeconds);
    } else {
      NoTimeRefused(s, records);
    }
  }

  lemma WallSecondsKept(records: seq<Record>, wallSeconds: real)
    ensures Summarize(records, |records|, wallSeconds).wallSeconds == wallSeconds
    ensures Summarize(records, |records|, wallSeconds).samplingSha256s == DigestSet(records)
  {
  }

  lemma NoTimeRefused(s: Summary, records: seq<Record>)
    requires s.wallSeconds <= 0.0 && Measured(Successful(records))
    ensures !NumbersAccepted(s, records)
  {
    hide NumberAccepted, NullableAccepted, Over, Sum, ValuesOf, Successful;
  }

  lemma DigestFromRecord(digests: seq<bytes>, records: seq<Record>, i: nat)
    requires DigestsExpected(digests, records) && i < |digests| && RunRecords(records)
    ensures DigestText(digests[i])
  {
    hide DigestText, ClientRecord;
    assert digests[i] in digests;
    var k :| 0 <= k < |records| && records[k].samplingSha256 == digests[i];
  }

  // ---- From the request records to the verdict ----

  function RecordsOf(requests: seq<RequestRecord>, samplings: seq<Sampling>, walls: seq<real>): (r: seq<Record>)
    requires |requests| == |samplings| == |walls| && forall i | 0 <= i < |requests| :: FullyMeasured(requests[i])
    ensures |r| == |requests|
  {
    seq(|requests|, i requires 0 <= i < |requests| => RecordOf(requests[i], samplings[i], walls[i]))
  }

  /** The summary over the records of a phase in their order is accepted exactly if any time has passed. */
  lemma EveryPhaseIsAccepted(requests: seq<RequestRecord>, samplings: seq<Sampling>, walls: seq<real>,
                             wallSeconds: real)
    requires |requests| == |samplings| == |walls|
    requires forall i | 0 <= i < |requests| :: FullyMeasured(requests[i]) && requests[i].requestIndex == i
    requires forall i | 0 <= i < |requests| :: DigestText(samplings[i].sha256) && walls[i] >= 0.0
    ensures var written := RecordsOf(requests, samplings, walls);
            SummaryAccepted(Summarize(written, |requests|, wallSeconds), written) <==> wallSeconds > 0.0
  {
    hide RecordOf, Summarize, SummaryAccepted, DigestText, ClientRecord, FullyMeasured;
    var records := RecordsOf(requests, samplings, walls);
    forall i | 0 <= i < |records|
      ensures ClientRecord(records[i]) && records[i].requestIndex == i && DigestText(records[i].samplingSha256)
    {
      RecordsAreClientRecords(requests[i], samplings[i], walls[i]);
    }
    SummaryAgreement(records, wallSeconds);
  }
}
