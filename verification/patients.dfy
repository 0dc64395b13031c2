/** The patient record store: an insertion-ordered dictionary from patient id
    to a record with name, age, gender and an append-only list of timestamped
    measurement sets, and the text summaries the retrieval index is built from. */
module Patients {
  import opened Wrappers
  import opened Text
  import opened Sequences

  type PatientId = string

  /** No measurement name occurs twice, as in the dictionary the source keeps. */
  predicate DistinctNames(data: seq<(string, string)>)
  {
    forall i, j :: 0 <= i < j < |data| ==> data[i].0 != data[j].0
  }

  /** One measurement set: (name, value) pairs in insertion order. */
  type Readings = d: seq<(string, string)> | DistinctNames(d) witness []

  datatype Measurement = Measurement(timestamp: string, data: Readings)

  datatype Patient = Patient(
    name: string,
    age: int,
    gender: string,
    measurements: seq<Measurement>,
    createdAt: string)

  /** The fixed opening lines of every summary. */
  function Header(id: PatientId, p: Patient): string
  {
    "Patient ID: " + id + "\n" + "Name: " + p.name + "\n" + "Age: " + IntToString(p.age)
    + " years\n" + "Gender: " + p.gender + "\n\n"
  }

  /** One rendered measurement, without its line break. */
  function ReadingText(reading: (string, string)): string
  {
    "- " + reading.0 + ": " + reading.1
  }

  /** One line per reading, in order. */
  function ReadingLines(data: seq<(string, string)>): string
  {
    if data == [] then []
    else ReadingLines(data[..|data| - 1]) + ReadingText(data[|data| - 1]) + "\n"
  }

  lemma ReadingLinesStep(data: seq<(string, string)>, i: nat)
    requires i < |data|
    ensures ReadingLines(data[..i + 1]) == ReadingLines(data[..i]) + (ReadingText(data[i]) + "\n")
  {
    assert data[..i + 1][..i] == data[..i];
  }

  function LatestSection(m: Measurement): string
  {
    "Latest Measurements:\n" + "Date: " + m.timestamp + "\n" + ReadingLines(m.data)
  }

  /** The summary of a stored patient: the header, then the most recent
      measurement set if there is one. */
  function SummaryText(id: PatientId, p: Patient): string
  {
    Header(id, p)
    + if p.measurements == [] then [] else LatestSection(p.measurements[|p.measurements| - 1])
  }

  /** The summaries of the patients `ids`, in that order. */
  function Summaries(ids: seq<PatientId>, records: map<PatientId, Patient>): (r: seq<string>)
    requires forall k :: 0 <= k < |ids| ==> ids[k] in records
    ensures |r| == |ids|
  {
    seq(|ids|, k requires 0 <= k < |ids| => SummaryText(ids[k], records[ids[k]]))
  }

  /** A summary opens with the header and carries the "Latest Measurements"
      section exactly when some measurement set is stored. */
  lemma SummaryShape(id: PatientId, p: Patient)
    ensures Header(id, p) <= SummaryText(id, p)
    ensures SummaryText(id, p) == Header(id, p) <==> p.measurements == []
    ensures p.measurements != [] ==>
      SummaryText(id, p)[|Header(id, p)|..] == LatestSection(p.measurements[|p.measurements| - 1])
  {
    var h := Header(id, p);
    if p.measurements != [] {
      var tail := LatestSection(p.measurements[|p.measurements| - 1]);
      assert SummaryText(id, p) == h + tail;
      assert |tail| > 0;
    }
  }

  /** Only the most recent measurement set shows: two patients that differ
      only in earlier measurement sets have the same summary. */
  lemma SummaryShowsOnlyLatest(id: PatientId, p: Patient, q: Patient)
    requires p.name == q.name && p.age == q.age && p.gender == q.gender
    requires |p.measurements| > 0 && |q.measurements| > 0
    requires p.measurements[|p.measurements| - 1] == q.measurements[|q.measurements| - 1]
    ensures SummaryText(id, p) == SummaryText(id, q)
  {
  }

  /** Rendered readings are one line per reading, in order: splitting them on
      line breaks gives each reading's text and a final empty piece. */
  lemma {:induction false} ReadingLinesSplit(data: seq<(string, string)>)
    requires forall k :: 0 <= k < |data| ==> '\n' !in data[k].0 && '\n' !in data[k].1
    ensures Split(ReadingLines(data), '\n')
            == seq(|data|, k requires 0 <= k < |data| => ReadingText(data[k])) + [""]
  {
    if data != [] {
      var init := data[..|data| - 1];
      var line := ReadingText(data[|data| - 1]);
      var lines := seq(|data|, k requires 0 <= k < |data| => ReadingText(data[k]));
      ReadingLinesSplit(init);
      assert seq(|init|, k requires 0 <= k < |init| => ReadingText(init[k])) == lines[..|init|];
      var before := Split(ReadingLines(init), '\n');
      assert before == lines[..|init|] + [""];
      assert '\n' !in line;
      SplitExtendLast(ReadingLines(init), line, '\n');
      assert before[..|before| - 1] == lines[..|init|];
      assert before[|before| - 1] + line == line;
      assert Split(ReadingLines(init) + line, '\n') == lines[..|init|] + [line];
      SplitBeforeLast(ReadingLines(init) + line, "", '\n');
      assert ReadingLines(data) == ReadingLines(init) + line + ['\n'] + "";
      assert lines == lines[..|init|] + [line];
    }
  }

  /** The text a summary with measurements is built from: the header, the
      section opening, then the reading lines. */
  lemma SummaryOfLatest(id: PatientId, p: Patient, opening: string)
    requires p.measurements != []
    requires opening == Header(id, p) + "Latest Measurements:\n" + "Date: "
                        + p.measurements[|p.measurements| - 1].timestamp + "\n"
    ensures SummaryText(id, p) == opening + ReadingLines(p.measurements[|p.measurements| - 1].data)
  {
  }

  /** Summaries of one more id: the summary of that id, which is never empty,
      goes at the end. */
  lemma SummariesStep(ids: seq<PatientId>, records: map<PatientId, Patient>, i: nat)
    requires i < |ids| && forall k :: 0 <= k < |ids| ==> ids[k] in records
    ensures var text := SummaryText(ids[i], records[ids[i]]);
            && text != []
            && Summaries(ids[..i + 1], records) == Summaries(ids[..i], records) + [text]
  {
    var p := records[ids[i]];
    assert |Header(ids[i], p)| > 0;
  }

  /** A store whose keys are exactly the listed, distinct ids holds one
      record per id. */
  lemma StoreSize(ids: seq<PatientId>, records: map<PatientId, Patient>)
    requires NoDuplicates(ids) && forall id :: id in records <==> id in ids
    ensures |records| == |ids|
  {
    DistinctCardinality(ids);
    assert records.Keys == set x | x in ids;
  }

  class PatientManager {
    const dataDir: string
    /** Patient ids in insertion order, the iteration order of the source's dict. */
    var ids: seq<PatientId>
    var records: map<PatientId, Patient>

    ghost predicate Valid()
      reads this
    {
      && NoDuplicates(ids)
      && forall id :: id in records <==> id in ids
    }

    /** A manager with no saved records yet. */
    constructor (dataDir: string)
      ensures Valid()
      ensures this.dataDir == dataDir && ids == [] && records == map[]
    {
      this.dataDir := dataDir;
      ids := [];
      records := map[];
    }

    /** Registers a new patient with no measurements; an id already in use
        is refused and nothing changes. */
    method AddPatient(id: PatientId, name: string, age: int, gender: string, now: string)
      returns (added: bool)
      requires Valid()
      modifies this
      ensures Valid()
      ensures added <==> id !in old(records)
      ensures added ==> ids == old(ids) + [id]
                        && records == old(records)[id := Patient(name, age, gender, [], now)]
      ensures !added ==> ids == old(ids) && records == old(records)
    {
      if id !in records {
        records := records[id := Patient(name, age, gender, [], now)];
        ids := ids + [id];
        return true;
      }
      return false;
    }

    /** Appends one measurement set to a known patient's list; an unknown id
        changes nothing. */
    method AddMeasurements(id: PatientId, data: Readings, now: string) returns (added: bool)
      requires Valid()
      modifies this
      ensures Valid()
      ensures added <==> id in old(records)
      ensures ids == old(ids)
      ensures added ==>
        var p := old(records)[id];
        records == old(records)[id := p.(measurements := p.measurements + [Measurement(now, data)])]
      ensures !added ==> records == old(records)
    {
      if id !in records {
        return false;
      }
      var p := records[id];
      records := records[id := p.(measurements := p.measurements + [Measurement(now, data)])];
      return true;
    }

    /** The stored record, if any; the store is not changed. */
    method GetPatient(id: PatientId) returns (patient: Option<Patient>)
      ensures patient.Some? <==> id in records
      ensures patient.Some? ==> patient.value == records[id]
    {
      if id in records {
        return Some(records[id]);
      }
      return None;
    }

    /** Every record, with the ids in insertion order; the store is not changed. */
    method GetAllPatients() returns (order: seq<PatientId>, all: map<PatientId, Patient>)
      requires Valid()
      ensures all == records && order == ids
      ensures forall id :: id in all <==> id in order
    {
      return ids, records;
    }

    /** The summary text of a stored patient, or None for an unknown id. */
    method GetPatientSummary(id: PatientId) returns (summary: Option<string>)
      ensures summary.Some? <==> id in records
      ensures summary.Some? ==> summary.value == SummaryText(id, records[id])
    {
      var patient := GetPatient(id);
      if patient.None? {
        return None;
      }
      var p := patient.value;
      var s := Header(id, p);
      if p.measurements != [] {
        s := s + "Latest Measurements:\n";
        var latest := p.measurements[|p.measurements| - 1];
        s := s + "Date: " + latest.timestamp + "\n";
        ghost var opening := s;
        var i := 0;
        while i < |latest.data|
          invariant 0 <= i <= |latest.data|
          invariant s == opening + ReadingLines(latest.data[..i])
        {
          ReadingLinesStep(latest.data, i);
          s := s + (ReadingText(latest.data[i]) + "\n");
          i := i + 1;
        }
        assert latest.data[..i] == latest.data;
        SummaryOfLatest(id, p, opening);
      }
      return Some(s);
    }

    /** One summary per patient, in insertion order. */
    method GetAllPatientSummaries() returns (summaries: seq<string>)
      requires Valid()
      ensures summaries == Summaries(ids, records)
      ensures |summaries| == |records|
    {
      summaries := [];
      var i := 0;
      while i < |ids|
        invariant 0 <= i <= |ids|
        invariant summaries == Summaries(ids[..i], records)
      {
        var summary := GetPatientSummary(ids[i]);
        SummariesStep(ids, records, i);
        if summary.Some? && summary.value != [] {
          summaries := summaries + [summary.value];
        }
        i := i + 1;
      }
      assert ids[..i] == ids;
      StoreSize(ids, records);
    }
  }
}
