/** The request records of a measured phase and the summary written over them. Durations and ratios are
    exact numbers. */
module PhaseSummary {
  import opened Bytes
  import opened PacketValidator
  import opened Text
  import Percentiles

  /** The sampling parameters of a request: their digest, and whether they are comparable between engines. */
  datatype Sampling = Sampling(sha256: bytes, parity: bool)

  /** The fields of a request record that the summary is made of. */
  datatype Record = Record(
    requestIndex: nat, samplingSha256: bytes, samplingParity: bool, success: bool,
    naturalEos: Option<bool>, lengthLimited: Option<bool>, ttfaMs: Option<real>, wallMs: Option<real>,
    audioSeconds: Option<real>, rtf: Option<real>)

  function RecordOf(r: RequestRecord, sampling: Sampling, wallMs: real): Record
    requires FullyMeasured(r)
  {
    if !r.success
       then Record(r.requestIndex, sampling.sha256, sampling.parity, false, None, None, None, None, None, None)
    else
      var audioSeconds := r.samples as real / r.sampleRateHz as real;
      Record(
        r.requestIndex, sampling.sha256, sampling.parity, true,
        if r.finishReason.None? then None else Some(r.finishReason.value == Stop),
        if r.finishReason.None? then None else Some(r.finishReason.value == Length),
        Some(r.ttfaMs), Some(wallMs), Some(audioSeconds), Some(wallMs / 1000.0 / audioSeconds))
  }

  // ---- The summary ----

  function Filter<T>(items: seq<T>, keep: T -> bool): (r: seq<T>)
    ensures forall i | 0 <= i < |r| :: keep(r[i]) && r[i] in items
  {
    if items == [] then []
    else Filter(items[..|items| - 1], keep) + if keep(items[|items| - 1]) then [items[|items| - 1]] else []
  }

  function FilterMap(items: seq<Record>, field: Record -> Option<real>): seq<real> {
    if items == [] then []
    else FilterMap(items[..|items| - 1], field)
         + match field(items[|items| - 1]) case None => [] case Some(value) => [value]
  }

  function Sum(values: seq<real>): real {
    if values == [] then 0.0 else Sum(values[..|values| - 1]) + values[|values| - 1]
  }

  function IsSuccess(r: Record): bool { r.success }
  function IsNatural(r: Record): bool { r.naturalEos == Some(true) }
  function IsLengthLimited(r: Record): bool { r.lengthLimited == Some(true) }
  function IsUnknown(r: Record): bool { r.naturalEos.None? }
  function IsQualifying(r: Record): bool { r.samplingParity }
  function IsNotQualifying(r: Record): bool { !r.samplingParity }
  function Ttfa(r: Record): Option<real> { r.ttfaMs }
  function Wall(r: Record): Option<real> { r.wallMs }
  function Audio(r: Record): Option<real> { r.audioSeconds }
  function Rtf(r: Record): Option<real> { r.rtf }

  datatype Distribution = Distribution(count: nat, min: real, mean: real, p50: real, p90: real, p95: real, p99: real,
                                       max: real)

  /** Over exact numbers every value is finite, so none is filtered out. */
  function DistributionOf(values: seq<real>): Option<Distribution> {
    if values == [] then None
    else
      var sorted := Percentiles.Sort(values);
      Some(Distribution(|sorted|, sorted[0], Sum(sorted) / |sorted| as real,
                        Percentiles.Percentile(sorted, 50, 100), Percentiles.Percentile(sorted, 90, 100),
                        Percentiles.Percentile(sorted, 95, 100), Percentiles.Percentile(sorted, 99, 100),
                            sorted[|sorted| - 1]))
  }

  function Ratio(numerator: real, denominator: real): Option<real> {
    if denominator > 0.0 then Some(numerator / denominator) else None
  }

  function PerSecond(requests: nat, wallSeconds: real): real {
    if wallSeconds > 0.0 then requests as real / wallSeconds else 0.0
  }

  /** The digests as an ordered set: ascending, each once. */
  function InsertDigest(digests: seq<bytes>, digest: bytes): seq<bytes> {
    if digests == [] || Before(digest, digests[0]) then [digest] + digests
    else if digest == digests[0] then digests
    else [digests[0]] + InsertDigest(digests[1..], digest)
  }

  function DigestSet(records: seq<Record>): seq<bytes> {
    if records == [] then []
       else InsertDigest(DigestSet(records[..|records| - 1]), records[|records| - 1].samplingSha256)
  }

  datatype Summary = Summary(planned: nat, completed: nat, successful: nat, failed: int, naturalEos: nat,
                             lengthLimited: nat,
                             eosUnknown: nat, qualifying: nat, notQualifying: nat, samplingSha256s: seq<bytes>,
                                 wallSeconds: real,
                             attemptedPerSecond: real, throughputPerSecond: real, totalAudioSeconds: real,
                                 aggregateRtf: Option<real>,
                             summedWallRtf: Option<real>, ttfaMs: Option<Distribution>, wallMs: Option<Distribution>,
                             rtf: Option<Distribution>)

  function Summarize(records: seq<Record>, planned: nat, wallSeconds: real): Summary {
    var successful := Filter(records, IsSuccess);
    var totalAudio := Sum(FilterMap(successful, Audio));
    var summedWall := Sum(FilterMap(successful, Wall)) / 1000.0;
    Summary(planned, |records|, |successful|, |records| - |successful|,
            |Filter(successful, IsNatural)|, |Filter(successful, IsLengthLimited)|, |Filter(successful, IsUnknown)|,
            |Filter(records, IsQualifying)|, |Filter(records, IsNotQualifying)|, DigestSet(records), wallSeconds,
            PerSecond(|records|, wallSeconds), PerSecond(|successful|, wallSeconds), totalAudio,
            Ratio(wallSeconds, totalAudio), Ratio(summedWall, totalAudio),
            DistributionOf(FilterMap(successful, Ttfa)), DistributionOf(FilterMap(successful, Wall)),
            DistributionOf(FilterMap(successful, Rtf)))
  }

  // ---- What every record of a run satisfies ----

  predicate NonNegative(value: Option<real>) { value.Some? && value.value >= 0.0 }

  /** A success is fully measured and ended naturally, by the length limit, or unknown. */
  predicate ClientRecord(r: Record) {
    r.success ==>
      && NonNegative(r.ttfaMs) && NonNegative(r.wallMs) && NonNegative(r.audioSeconds) && NonNegative(r.rtf)
      && ((r.naturalEos.None? && r.lengthLimited.None?)
          || (r.naturalEos.Some? && r.lengthLimited == Some(!r.naturalEos.value)))
  }

  lemma RecordsAreClientRecords(r: RequestRecord, sampling: Sampling, wallMs: real)
    requires FullyMeasured(r) && wallMs >= 0.0
    ensures ClientRecord(RecordOf(r, sampling, wallMs)) && RecordOf(r, sampling, wallMs).requestIndex == r.requestIndex
    ensures RecordOf(r, sampling, wallMs).samplingSha256 == sampling.sha256
  {
    if r.success {
      QuotientPositive(r.samples as real, r.sampleRateHz as real);
      QuotientPositive(wallMs / 1000.0, r.samples as real / r.sampleRateHz as real);
    }
  }

  lemma QuotientPositive(a: real, b: real)
    requires a >= 0.0 && b > 0.0
    ensures a / b >= 0.0 && (a > 0.0 ==> a / b > 0.0)
  {
  }

  lemma {:induction false} FilterCounts<T>(items: seq<T>, p: T -> bool, q: T -> bool, r: T -> bool)
    requires forall i | 0 <= i < |items| ::
               (if p(items[i]) then 1 else 0) + (if q(items[i]) then 1 else 0) + (if r(items[i]) then 1 else 0) == 1
    ensures |Filter(items, p)| + |Filter(items, q)| + |Filter(items, r)| == |items|
  {
    if items != [] {
      FilterCounts(items[..|items| - 1], p, q, r);
    }
  }

  /** Every success is counted once: natural, length-limited or unknown. */
  lemma OutcomesPartition(records: seq<Record>, planned: nat, wallSeconds: real)
    requires forall i | 0 <= i < |records| :: ClientRecord(records[i])
    ensures var s := Summarize(records, planned, wallSeconds);
              s.naturalEos + s.lengthLimited + s.eosUnknown == s.successful
    ensures var s := Summarize(records, planned, wallSeconds);
              s.successful + s.failed == s.completed && s.failed >= 0
    ensures var s := Summarize(records, planned, wallSeconds); s.qualifying + s.notQualifying == s.completed
  {
    var successful := Filter(records, IsSuccess);
    forall i | 0 <= i < |successful|
      ensures ClientRecord(successful[i])
    {
      assert IsSuccess(successful[i]) && successful[i] in records;
    }
    FilterCounts(successful, IsNatural, IsLengthLimited, IsUnknown);
    FilterCounts(records, IsQualifying, IsNotQualifying, Never);
    FilterNone(records);
    FilterShrinks(records, IsSuccess);
  }

  function Never(r: Record): bool { false }

  lemma {:induction false} FilterNone(items: seq<Record>)
    ensures Filter(items, Never) == []
  {
    if items != [] {
      FilterNone(items[..|items| - 1]);
    }
  }

  lemma {:induction false} FilterShrinks<T>(items: seq<T>, keep: T -> bool)
    ensures |Filter(items, keep)| <= |items|
  {
    if items != [] {
      FilterShrinks(items[..|items| - 1], keep);
    }
  }
}
