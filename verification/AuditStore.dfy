/** audit/review_records.py and the stage states of audit/core_records.py: append-only tables with
    primary keys, listed in key order. */
module AuditStores {
  import opened Wrappers
  import opened Contracts
  import opened Sorting
  import opened CriticCorrections
  import opened VerifierPolicies
  import opened Dedup
  import opened Reconciliation

  datatype CriticReport = CriticReport(candidateId: string, review: Review)

  // What reading a stored record back validates

  predicate CriticReportHolds(r: CriticReport) {
    r.review.corrected.Some? ==> ValidCandidate(r.review.corrected.value) && r.review.corrected.value.candidateId == r.candidateId
  }

  predicate VerifierReportHolds(r: VerifierReport) {
    r.accepted <==> r.reasons == []
  }

  predicate RejectionHolds(r: Rejection) {
    r.reasons != []
  }

  /** The tables, order forgotten. */
  datatype Tables = Tables(
    candidates: set<Candidate>, criticReports: set<CriticReport>, verifierReports: set<VerifierReport>,
    dataPoints: set<DataPoint>, rejections: set<Rejection>, stages: set<Stage>)

  predicate CriticReportLess(a: CriticReport, b: CriticReport) {
    Less(a.candidateId, b.candidateId)
  }

  predicate VerifierReportLess(a: VerifierReport, b: VerifierReport) {
    Less(a.candidateId, b.candidateId)
  }

  predicate RejectionLess(a: Rejection, b: Rejection) {
    Less(a.candidateId, b.candidateId)
  }

  predicate DataPointIdLess(a: DataPoint, b: DataPoint) {
    Less(a.dataPointId, b.dataPointId)
  }

  lemma SortedKeeps<T>(s: seq<T>, less: (T, T) -> bool)
    ensures Elements(Sort(s, less)) == Elements(s) && (NoRepeats(s) ==> NoRepeats(Sort(s, less)))
  {
    SortKeepsElements(s, less);
    SortMembers(s, less);
    if NoRepeats(s) {
      SameMultisetNoRepeats(s, Sort(s, less));
    }
  }

  /** `tuple(model_type.model_validate_json(...) for row in rows)` */
  method ReadBack<T>(rows: seq<T>, holds: T -> bool) returns (r: Option<seq<T>>)
    ensures r == if forall x :: x in rows ==> holds(x) then Some(rows) else None
  {
    for i := 0 to |rows|
      invariant forall k :: 0 <= k < i ==> holds(rows[k])
    {
      if !holds(rows[i]) {
        return None;
      }
    }
    return Some(rows);
  }

  class AuditStore {
    var candidates: seq<Candidate>
    var criticReports: seq<CriticReport>
    var verifierReports: seq<VerifierReport>
    var dataPoints: seq<DataPoint>
    var rejections: seq<Rejection>
    var stages: set<Stage>

    function Contents(): Tables
      reads this
    {
      Tables(Elements(candidates), Elements(criticReports), Elements(verifierReports), Elements(dataPoints),
        Elements(rejections), stages)
    }

    ghost predicate Valid()
      reads this
    {
      && NoRepeats(candidates) && NoRepeats(criticReports) && NoRepeats(verifierReports)
      && NoRepeats(dataPoints) && NoRepeats(rejections)
    }

    constructor ()
      ensures Valid() && Contents() == Tables({}, {}, {}, {}, {}, {})
    {
      candidates, criticReports, verifierReports, dataPoints, rejections, stages := [], [], [], [], [], {};
    }

    /** Each insertion fails exactly when its primary key is taken. */
    method RecordCandidate(c: Candidate) returns (ok: bool)
      requires Valid()
      modifies this`candidates
      ensures Valid() && (ok <==> forall d :: d in old(Contents()).candidates ==> d.candidateId != c.candidateId)
      ensures Contents() == if ok then old(Contents()).(candidates := old(Contents()).candidates + {c}) else old(Contents())
    {
      if exists d :: d in candidates && d.candidateId == c.candidateId {
        return false;
      }
      AppendNew(candidates, c);
      candidates := candidates + [c];
      return true;
    }

    method RecordCriticReport(r: CriticReport) returns (ok: bool)
      requires Valid()
      modifies this`criticReports
      ensures Valid() && (ok <==> r !in old(Contents()).criticReports)
      ensures Contents() == old(Contents()).(criticReports := old(Contents()).criticReports + {r})
    {
      AppendNew(criticReports, r);
      ok := r !in criticReports;
      if ok {
        criticReports := criticReports + [r];
      }
    }

    method RecordVerifierReport(r: VerifierReport) returns (ok: bool)
      requires Valid()
      modifies this`verifierReports
      ensures Valid() && (ok <==> r !in old(Contents()).verifierReports)
      ensures Contents() == old(Contents()).(verifierReports := old(Contents()).verifierReports + {r})
    {
      AppendNew(verifierReports, r);
      ok := r !in verifierReports;
      if ok {
        verifierReports := verifierReports + [r];
      }
    }

    method RecordDataPoint(p: DataPoint) returns (ok: bool)
      requires Valid()
      modifies this`dataPoints
      ensures Valid() && (ok <==> forall q :: q in old(Contents()).dataPoints ==> q.dataPointId != p.dataPointId)
      ensures Contents() == if ok then old(Contents()).(dataPoints := old(Contents()).dataPoints + {p}) else old(Contents())
    {
      if exists q :: q in dataPoints && q.dataPointId == p.dataPointId {
        return false;
      }
      AppendNew(dataPoints, p);
      dataPoints := dataPoints + [p];
      return true;
    }

    method RecordRejection(r: Rejection) returns (ok: bool)
      requires Valid()
      modifies this`rejections
      ensures Valid() && (ok <==> r !in old(Contents()).rejections)
      ensures Contents() == old(Contents()).(rejections := old(Contents()).rejections + {r})
    {
      AppendNew(rejections, r);
      ok := r !in rejections;
      if ok {
        rejections := rejections + [r];
      }
    }

    /** `get_run_stage_state(...) is not None` */
    method IsStageCompleted(stage: Stage) returns (r: bool)
      ensures r <==> stage in Contents().stages
    {
      r := stage in stages;
    }

    /** `ensure_stage_completed` */
    method EnsureStageCompleted(stage: Stage)
      requires Valid()
      modifies this`stages
      ensures Valid() && Contents() == old(Contents()).(stages := old(Contents()).stages + {stage})
    {
      if stage in stages {
        return;
      }
      stages := stages + {stage};
    }

    /** Each listing raises exactly when a record fails its validator. */
    method ListCandidates() returns (r: Option<seq<Candidate>>)
      requires Valid()
      ensures r.Some? <==> forall c :: c in Contents().candidates ==> ValidCandidate(c)
      ensures r.Some? ==> Elements(r.value) == Contents().candidates && NoRepeats(r.value)
      ensures r.Some? && DistinctIds(Contents().candidates) ==> IsSorted(r.value, IdLess)
    {
      hide Less, Sort, ValidCandidate;
      SortedKeeps(candidates, IdLess);
      if DistinctIds(Contents().candidates) {
        IdsOrderAll(Contents().candidates);
        SortSorts(candidates, IdLess, Contents().candidates);
      }
      r := ReadBack(Sort(candidates, IdLess), ValidCandidate);
    }

    method ListCriticReports() returns (r: Option<seq<CriticReport>>)
      requires Valid()
      ensures r.Some? <==> forall x :: x in Contents().criticReports ==> CriticReportHolds(x)
      ensures r.Some? ==> Elements(r.value) == Contents().criticReports && NoRepeats(r.value)
    {
      hide CriticReportHolds;
      SortedKeeps(criticReports, CriticReportLess);
      r := ReadBack(Sort(criticReports, CriticReportLess), CriticReportHolds);
    }

    method ListVerifierReports() returns (r: Option<seq<VerifierReport>>)
      requires Valid()
      ensures r.Some? <==> forall x :: x in Contents().verifierReports ==> VerifierReportHolds(x)
      ensures r.Some? ==> Elements(r.value) == Contents().verifierReports && NoRepeats(r.value)
    {
      hide VerifierReportHolds;
      SortedKeeps(verifierReports, VerifierReportLess);
      r := ReadBack(Sort(verifierReports, VerifierReportLess), VerifierReportHolds);
    }

    method ListDataPoints() returns (r: Option<seq<DataPoint>>)
      requires Valid()
      ensures r.Some? <==> forall p :: p in Contents().dataPoints ==> PointHolds(p)
      ensures r.Some? ==> Elements(r.value) == Contents().dataPoints && NoRepeats(r.value)
    {
      hide PointHolds;
      SortedKeeps(dataPoints, DataPointIdLess);
      r := ReadBack(Sort(dataPoints, DataPointIdLess), PointHolds);
    }

    method ListRejections() returns (r: Option<seq<Rejection>>)
      requires Valid()
      ensures r.Some? <==> forall x :: x in Contents().rejections ==> RejectionHolds(x)
      ensures r.Some? ==> Elements(r.value) == Contents().rejections && NoRepeats(r.value)
    {
      hide RejectionHolds;
      SortedKeeps(rejections, RejectionLess);
      r := ReadBack(Sort(rejections, RejectionLess), RejectionHolds);
    }
  }
}
