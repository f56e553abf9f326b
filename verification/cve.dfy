/** The CVE record of src/cyhy_db/models/cve.py: a CVSS score and version,
    the range check on the score, and the severity derived from both. */
module Cve {
  import opened Wrappers

  /** `Literal["2.0", "3.0", "3.1"]`. */
  datatype CvssVersion = V2_0 | V3_0 | V3_1

  /** The text a version is given and stored as. */
  function VersionText(v: CvssVersion): string {
    match v
    case V2_0 => "2.0"
    case V3_0 => "3.0"
    case V3_1 => "3.1"
  }

  /** A Python `float` as far as the comparisons of the validator can tell
      values apart: a finite number, an infinity, or NaN. */
  datatype Float = Finite(r: real) | PosInf | NegInf | NaN

  /** The validation errors a record can be refused with. */
  datatype CveError =
    | ScoreOutOfRange(score: Float)
    | UnknownVersion(text: string)

  /** The `Literal` check on the version field: only the three version
      texts are accepted. */
  function ParseVersion(s: string): (r: Result<CvssVersion, CveError>)
    ensures r.Ok? <==> s == "2.0" || s == "3.0" || s == "3.1"
    ensures r.Ok? ==> VersionText(r.value) == s
    ensures r.Err? ==> r.error == UnknownVersion(s)
  {
    if s == "2.0" then Ok(V2_0)
    else if s == "3.0" then Ok(V3_0)
    else if s == "3.1" then Ok(V3_1)
    else Err(UnknownVersion(s))
  }

  lemma {:induction false} VersionRoundTrip(v: CvssVersion)
    ensures ParseVersion(VersionText(v)) == Ok(v)
  {
  }

  /** Python's `x < bound` for a float `x`: false whenever `x` is NaN. */
  predicate Below(x: Float, bound: real) {
    match x
    case Finite(r) => r < bound
    case NegInf => true
    case PosInf => false
    case NaN => false
  }

  /** Python's `x > bound`: false whenever `x` is NaN. */
  predicate Above(x: Float, bound: real) {
    match x
    case Finite(r) => r > bound
    case NegInf => false
    case PosInf => true
    case NaN => false
  }

  /** `validate_cvss_score` as written: a score is refused when it is below
      0.0 or above 10.0. NaN is neither, so it passes. */
  function ValidateCvssScoreAsWritten(v: Float): (r: Result<Float, CveError>)
    ensures r.Ok? ==> r.value == v
    ensures r.Ok? <==> v.NaN? || (v.Finite? && 0.0 <= v.r <= 10.0)
    ensures r.Err? ==> r.error == ScoreOutOfRange(v)
  {
    if Below(v, 0.0) || Above(v, 10.0) then Err(ScoreOutOfRange(v))
    else Ok(v)
  }

  /** The validator lets NaN through, although NaN is not a score between
      0.0 and 10.0. */
  lemma {:induction false} NaNPassesAsWritten()
    ensures ValidateCvssScoreAsWritten(NaN) == Ok(NaN)
    ensures ValidateCvssScore(NaN).Err?
  {
  }

  /** The intended range check: exactly the numbers from 0.0 to 10.0, both
      ends included, are accepted, and unchanged. */
  function ValidateCvssScore(v: Float): (r: Result<real, CveError>)
    ensures r.Ok? <==> v.Finite? && 0.0 <= v.r <= 10.0
    ensures r.Ok? ==> r.value == v.r
    ensures r.Err? ==> r.error == ScoreOutOfRange(v)
  {
    if v.Finite? && 0.0 <= v.r && v.r <= 10.0 then Ok(v.r)
    else Err(ScoreOutOfRange(v))
  }

  /** The correction changes nothing except for NaN. */
  lemma {:induction false} ValidatorsAgreeExceptNaN(v: Float)
    requires !v.NaN?
    ensures ValidateCvssScoreAsWritten(v).Ok? <==> ValidateCvssScore(v).Ok?
    ensures ValidateCvssScore(v).Ok? ==> ValidateCvssScoreAsWritten(v) == Ok(Finite(ValidateCvssScore(v).value))
  {
  }

  /** The scores the repository's tests expect to be refused, and the ends
      of the range. */
  lemma {:induction false} ScoreVectors()
    ensures ValidateCvssScore(Finite(-1.0)) == Err(ScoreOutOfRange(Finite(-1.0)))
    ensures ValidateCvssScore(Finite(11.0)) == Err(ScoreOutOfRange(Finite(11.0)))
    ensures ValidateCvssScore(Finite(0.0)) == Ok(0.0)
    ensures ValidateCvssScore(Finite(10.0)) == Ok(10.0)
  {
  }

  /** The severity levels 1 (low) to 4 (critical). */
  type SeverityLevel = s: int | 1 <= s <= 4 witness 1

  /** `calculate_severity`: the NVD qualitative bands. Version 2.0 gives 4
      only to a score of exactly 10; versions 3.x give 4 from 9.0 up. Both
      map everything below 4.0, 0.0 included, to 1. */
  function Severity(version: CvssVersion, score: real): (s: SeverityLevel) {
    if version == V2_0 then
      if score == 10.0 then 4
      else if score >= 7.0 then 3
      else if score >= 4.0 then 2
      else 1
    else
      if score >= 9.0 then 4
      else if score >= 7.0 then 3
      else if score >= 4.0 then 2
      else 1
  }

  /** The lower bounds of severities 2, 3 and 4, in increasing order. */
  function Thresholds(version: CvssVersion): (ts: seq<real>)
    ensures |ts| == 3
  {
    if version == V2_0 then [4.0, 7.0, 10.0] else [4.0, 7.0, 9.0]
  }

  /** How many of the thresholds a score reaches. */
  function Reached(ts: seq<real>, score: real): (n: nat)
    ensures n <= |ts|
  {
    if ts == [] then 0
    else (if score >= ts[0] then 1 else 0) + Reached(ts[1..], score)
  }

  /** An independent reading of the NVD table: the severity is one more than
      the number of band thresholds the score reaches. */
  function BandSeverity(version: CvssVersion, score: real): (s: int)
    ensures 1 <= s <= 4
  {
    1 + Reached(Thresholds(version), score)
  }

  /** Reaching a threshold never stops as the score grows. */
  lemma {:induction false} ReachedMonotone(ts: seq<real>, x: real, y: real)
    requires x <= y
    ensures Reached(ts, x) <= Reached(ts, y)
  {
    if ts != [] {
      ReachedMonotone(ts[1..], x, y);
    }
  }

  /** Against sorted thresholds a score reaches a prefix of them: exactly
      `k` when it lies between the `k`-th and the next. */
  lemma {:induction false} ReachedSorted(ts: seq<real>, score: real, k: nat)
    requires forall i, j :: 0 <= i < j < |ts| ==> ts[i] < ts[j]
    requires k <= |ts|
    requires k > 0 ==> score >= ts[k - 1]
    requires k < |ts| ==> score < ts[k]
    ensures Reached(ts, score) == k
  {
    if ts != [] {
      if k == 0 {
        assert score < ts[0];
        ReachedSorted(ts[1..], score, 0);
      } else {
        assert score >= ts[0] by {
          if k - 1 > 0 {
            assert ts[0] < ts[k - 1];
          }
        }
        ReachedSorted(ts[1..], score, k - 1);
      }
    }
  }

  /** The classifier agrees with the band table on every score the
      validator accepts; above 10 it would not for version 2.0, whose top
      band is the single score 10. */
  lemma {:induction false} SeverityMatchesBands(version: CvssVersion, score: real)
    requires version == V2_0 ==> score <= 10.0
    ensures Severity(version, score) == BandSeverity(version, score)
  {
    var ts := Thresholds(version);
    var s: int := Severity(version, score);
    ReachedSorted(ts, score, s - 1);
  }

  /** For a fixed version, severity never falls as the score rises within
      the valid range. */
  lemma {:induction false} SeverityMonotone(version: CvssVersion, x: real, y: real)
    requires 0.0 <= x <= y <= 10.0
    ensures Severity(version, x) <= Severity(version, y)
  {
    SeverityMatchesBands(version, x);
    SeverityMatchesBands(version, y);
    ReachedMonotone(Thresholds(version), x, y);
  }

  /** Versions 3.0 and 3.1 share one table. */
  lemma {:induction false} V3VersionsAgree(score: real)
    ensures Severity(V3_0, score) == Severity(V3_1, score)
  {
  }

  /** Version 2.0: on a validated score, "equal to 10" and "at least 10"
      coincide, severity 4 means exactly that, and [7, 10) gives 3. */
  lemma {:induction false} V2TopBand(score: real)
    requires 0.0 <= score <= 10.0
    ensures Severity(V2_0, score) == 4 <==> score >= 10.0
    ensures 7.0 <= score < 10.0 ==> Severity(V2_0, score) == 3
  {
  }

  /** Version 3.x bands: 4 from 9.0, 3 from 7.0, 2 from 4.0. */
  lemma {:induction false} V3Bands(version: CvssVersion, score: real)
    requires version != V2_0
    ensures Severity(version, score) == 4 <==> score >= 9.0
    ensures Severity(version, score) == 3 <==> 7.0 <= score < 9.0
    ensures Severity(version, score) == 2 <==> 4.0 <= score < 7.0
    ensures Severity(version, score) == 1 <==> score < 4.0
  {
  }

  /** A score of 0.0 is low, never a separate "none" level. */
  lemma {:induction false} ZeroIsLow(version: CvssVersion)
    ensures Severity(version, 0.0) == 1
  {
  }

  /** The (version, score, severity) triples of the repository's tests, and
      the edges just below the bands. */
  lemma {:induction false} SeverityVectors()
    ensures Severity(V2_0, 10.0) == 4 && Severity(V2_0, 7.0) == 3
    ensures Severity(V2_0, 4.0) == 2 && Severity(V2_0, 0.0) == 1
    ensures Severity(V3_0, 9.0) == 4 && Severity(V3_0, 7.0) == 3
    ensures Severity(V3_0, 4.0) == 2 && Severity(V3_0, 0.0) == 1
    ensures Severity(V3_1, 9.0) == 4 && Severity(V3_1, 7.0) == 3
    ensures Severity(V3_1, 4.0) == 2 && Severity(V3_1, 0.0) == 1
    ensures Severity(V2_0, 9.9) == 3 && Severity(V3_1, 8.9) == 3
    ensures Severity(V3_1, 6.9) == 2 && Severity(V3_1, 3.9) == 1
    ensures Severity(V2_0, 9.999) == 3 && Severity(V2_0, 6.999) == 2
  {
  }

  /** Python's `x >= bound` for a float `x`: false whenever `x` is NaN. */
  predicate AtLeast(x: Float, bound: real) {
    match x
    case Finite(r) => r >= bound
    case NegInf => false
    case PosInf => true
    case NaN => false
  }

  /** Python's `x == bound`: false whenever `x` is NaN. */
  predicate EqualTo(x: Float, bound: real) {
    x.Finite? && x.r == bound
  }

  /** `calculate_severity` on the stored float, comparison by comparison.
      NaN reaches no band, so it is low. */
  function FloatSeverity(version: CvssVersion, x: Float): (s: SeverityLevel)
    ensures x.Finite? ==> s == Severity(version, x.r)
    ensures x.NaN? ==> s == 1
  {
    if version == V2_0 then
      if EqualTo(x, 10.0) then 4
      else if AtLeast(x, 7.0) then 3
      else if AtLeast(x, 4.0) then 2
      else 1
    else
      if AtLeast(x, 9.0) then 4
      else if AtLeast(x, 7.0) then 3
      else if AtLeast(x, 4.0) then 2
      else 1
  }

  /** A stored CVE: its identifier, the score as the validator let it
      through, a version, and the severity. */
  datatype CveRecord = CveRecord(
    id: string,
    cvssScore: Float,
    cvssVersion: CvssVersion,
    severity: SeverityLevel)

  /** The scores a constructed record can hold: those the validator lets
      through, NaN among them. */
  predicate ValidRecord(c: CveRecord) {
    ValidateCvssScoreAsWritten(c.cvssScore).Ok?
  }

  /** Builds a record from the checked fields: every failure is reported,
      in field order, and the severity starts at its default, 1. */
  function Construct(id: string, score: Result<Float, CveError>, version: Result<CvssVersion, CveError>)
    : (r: Result<CveRecord, seq<CveError>>)
    ensures r.Ok? <==> score.Ok? && version.Ok?
    ensures r.Ok? ==> r.value == CveRecord(id, score.value, version.value, 1)
    ensures r.Err? ==> r.error == (if score.Err? then [score.error] else []) + (if version.Err? then [version.error] else [])
  {
    if score.Ok? && version.Ok? then Ok(CveRecord(id, score.value, version.value, 1))
    else Err((if score.Err? then [score.error] else []) + (if version.Err? then [version.error] else []))
  }

  /** Constructing a record, as the code does: the score goes through the
      validator as written, so a NaN score is stored. */
  function NewCve(id: string, score: Float, version: string): (r: Result<CveRecord, seq<CveError>>)
    ensures r.Ok? <==> ValidateCvssScoreAsWritten(score).Ok? && ParseVersion(version).Ok?
    ensures r.Ok? ==> r.value.id == id && r.value.cvssScore == score
    ensures r.Ok? ==> VersionText(r.value.cvssVersion) == version
    ensures r.Ok? ==> r.value.severity == 1 && ValidRecord(r.value)
    ensures r.Err? ==> (ScoreOutOfRange(score) in r.error <==> ValidateCvssScoreAsWritten(score).Err?)
    ensures r.Err? ==> (UnknownVersion(version) in r.error <==> ParseVersion(version).Err?)
    ensures r.Err? ==> 1 <= |r.error| <= 2
  {
    Construct(id, ValidateCvssScoreAsWritten(score), ParseVersion(version))
  }

  /** Constructing a record with the intended range check: only finite
      scores from 0.0 to 10.0 are stored. */
  function NewCveCorrected(id: string, score: Float, version: string): (r: Result<CveRecord, seq<CveError>>)
    ensures r.Ok? <==> ValidateCvssScore(score).Ok? && ParseVersion(version).Ok?
    ensures r.Ok? ==> r.value.id == id && r.value.cvssScore == score
    ensures r.Ok? ==> r.value.cvssScore.Finite? && 0.0 <= r.value.cvssScore.r <= 10.0
    ensures r.Ok? ==> VersionText(r.value.cvssVersion) == version && r.value.severity == 1
    ensures r.Err? ==> (ScoreOutOfRange(score) in r.error <==> ValidateCvssScore(score).Err?)
    ensures r.Err? ==> (UnknownVersion(version) in r.error <==> ParseVersion(version).Err?)
  {
    var s := ValidateCvssScore(score);
    Construct(id, if s.Ok? then Ok(Finite(s.value)) else Err(s.error), ParseVersion(version))
  }

  /** The two constructions differ only on a NaN score. */
  lemma {:induction false} ConstructionsAgreeExceptNaN(id: string, score: Float, version: string)
    ensures !score.NaN? ==> NewCve(id, score, version) == NewCveCorrected(id, score, version)
    ensures score.NaN? && ParseVersion(version).Ok? ==>
      NewCve(id, score, version).Ok? && NewCveCorrected(id, score, version).Err?
  {
    if !score.NaN? {
      ValidatorsAgreeExceptNaN(score);
    }
  }

  /** `calculate_severity`: the severity is replaced by the one the score
      and version determine; nothing else changes. */
  function CalculateSeverity(c: CveRecord): (d: CveRecord)
    ensures d == c.(severity := d.severity)
    ensures c.cvssScore.Finite? ==> d.severity == Severity(c.cvssVersion, c.cvssScore.r)
    ensures c.cvssScore.Finite? && 0.0 <= c.cvssScore.r <= 10.0 ==>
      d.severity == BandSeverity(c.cvssVersion, c.cvssScore.r)
    ensures c.cvssScore.NaN? ==> d.severity == 1
  {
    var x := c.cvssScore;
    if x.Finite? && 0.0 <= x.r <= 10.0 then
      SeverityMatchesBands(c.cvssVersion, x.r);
      c.(severity := FloatSeverity(c.cvssVersion, x))
    else
      c.(severity := FloatSeverity(c.cvssVersion, x))
  }

  /** The previous severity plays no part, so recomputing is idempotent. */
  lemma {:induction false} CalculateSeverityOverwrites(c: CveRecord, previous: SeverityLevel)
    ensures CalculateSeverity(c.(severity := previous)) == CalculateSeverity(c)
    ensures CalculateSeverity(CalculateSeverity(c)) == CalculateSeverity(c)
  {
  }

  /** The CVE collection, keyed by identifier (the primary field). */
  type Store = map<string, CveRecord>

  /** `save`: the caller's record has its severity recomputed in place, and
      that record is what is written, replacing any record with the same
      identifier. The result is the caller's record afterwards and the new
      store. */
  function Save(c: CveRecord, store: Store): (r: (CveRecord, Store))
    ensures r.0 == CalculateSeverity(c)
    ensures c.id in r.1 && r.1[c.id] == r.0
    ensures forall k :: k in store && k != c.id ==> k in r.1 && r.1[k] == store[k]
    ensures r.1.Keys == store.Keys + {c.id}
  {
    var d := CalculateSeverity(c);
    (d, store[c.id := d])
  }

  /** What `save` writes never holds a stale severity: a score in range
      gets its band, and a NaN score is low. */
  lemma {:induction false} SavedSeverityIsCurrent(c: CveRecord, store: Store)
    requires ValidRecord(c)
    ensures var d := Save(c, store).1[c.id];
      (d.cvssScore.Finite? ==> d.severity == BandSeverity(d.cvssVersion, d.cvssScore.r))
      && (d.cvssScore.NaN? ==> d.severity == 1)
  {
    if c.cvssScore.Finite? {
      SeverityMatchesBands(c.cvssVersion, c.cvssScore.r);
    }
  }

  /** Saving the same record twice, or saving the record `save` left the
      caller with, leaves what saving it once leaves. */
  lemma {:induction false} SaveIdempotent(c: CveRecord, store: Store)
    ensures Save(c, Save(c, store).1) == Save(c, store)
    ensures Save(Save(c, store).0, store) == Save(c, store)
  {
    var r := Save(c, store);
    assert r.1[c.id := r.0] == r.1;
  }

  /** The repository's save test: a 3.1 record scored 9.0 is stored with
      severity 4, whatever severity it held before, and the caller's record
      holds 4 as well. */
  lemma {:induction false} SaveVector(store: Store, severity: SeverityLevel)
    ensures var r := Save(CveRecord("test-cve", Finite(9.0), V3_1, severity), store);
      r.0.severity == 4 && r.1["test-cve"].severity == 4
  {
  }

  /** A record constructed from valid input and saved is stored with the
      severity its score calls for, not the default. */
  lemma {:induction false} ConstructThenSave(id: string, score: real, version: CvssVersion, store: Store)
    requires 0.0 <= score <= 10.0
    ensures NewCve(id, Finite(score), VersionText(version)).Ok?
    ensures var c := NewCve(id, Finite(score), VersionText(version)).value;
      Save(c, store).1[id].severity == Severity(version, score)
  {
    VersionRoundTrip(version);
  }

  /** A NaN score, which the validator lets through, yields a record that
      is saved as low severity; the intended check refuses it. */
  lemma {:induction false} NaNRecordIsLow(id: string, version: CvssVersion, store: Store)
    ensures NewCve(id, NaN, VersionText(version)).Ok?
    ensures var c := NewCve(id, NaN, VersionText(version)).value;
      c.severity == 1 && Save(c, store).0.severity == 1 && Save(c, store).1[id].severity == 1
    ensures NewCveCorrected(id, NaN, VersionText(version)).Err?
  {
    VersionRoundTrip(version);
  }
}
