/** `topscore.py`: one {FIPS, SCORE} record per county parameter file,
    ranked by the in-sample boosted-tree score, best first. */
module TopScore {
  import opened Wrappers
  import opened Sorting

  /** The `xgb` section of a parameter file; only its `score` is read. */
  datatype XgbSection = XgbSection(score: Option<real>)

  /** A parameter file as loaded from YAML; a key that is absent is `None`. */
  datatype ParamFile = ParamFile(fips: Option<string>, xgb: Option<XgbSection>)

  datatype ScoreRecord = ScoreRecord(fips: string, score: real)

  function RecordScore(r: ScoreRecord): real
  {
    r.score
  }

  /** `result["fips"]` then `result["xgb"]["score"]`: the first absent key raises. */
  function ReadRecord(p: ParamFile): (r: Result<ScoreRecord>)
    ensures r.Success? <==> p.fips.Some? && p.xgb.Some? && p.xgb.value.score.Some?
    ensures r.Success? ==> r.value.fips == p.fips.value && r.value.score == p.xgb.value.score.value
  {
    if p.fips.None? then Failure(MissingKey("fips"))
    else if p.xgb.None? then Failure(MissingKey("xgb"))
    else if p.xgb.value.score.None? then Failure(MissingKey("score"))
    else Success(ScoreRecord(p.fips.value, p.xgb.value.score.value))
  }

  /** The specification of the collection loop: the records of the files in
      argument order, or the error of the first file that lacks a key. */
  function CollectRecords(files: seq<ParamFile>): Result<seq<ScoreRecord>>
  {
    if files == [] then Success([])
    else
      match CollectRecords(files[..|files| - 1])
      case Failure(e) => Failure(e)
      case Success(records) =>
        match ReadRecord(files[|files| - 1])
        case Failure(e) => Failure(e)
        case Success(record) => Success(records + [record])
  }

  /** The collection loop succeeds exactly when every file has both keys, and
      then holds one record per file, in argument order; otherwise it reports
      the first file that lacks one. */
  lemma {:induction false} CollectRecordsSpec(files: seq<ParamFile>)
    ensures CollectRecords(files).Success? <==>
              forall i :: 0 <= i < |files| ==> ReadRecord(files[i]).Success?
    ensures CollectRecords(files).Success? ==>
              |CollectRecords(files).value| == |files| &&
              forall i :: 0 <= i < |files| ==> CollectRecords(files).value[i] == ReadRecord(files[i]).value
    ensures CollectRecords(files).Failure? ==>
              exists i :: 0 <= i < |files| && ReadRecord(files[i]).Failure? &&
                          CollectRecords(files).error == ReadRecord(files[i]).error &&
                          forall j :: 0 <= j < i ==> ReadRecord(files[j]).Success?
  {
    if files != [] {
      var init := files[..|files| - 1];
      CollectRecordsSpec(init);
      assert forall i :: 0 <= i < |init| ==> init[i] == files[i];
      if CollectRecords(init).Failure? {
        var i :| 0 <= i < |init| && ReadRecord(init[i]).Failure? &&
                 CollectRecords(init).error == ReadRecord(init[i]).error &&
                 forall j :: 0 <= j < i ==> ReadRecord(init[j]).Success?;
        assert CollectRecords(files).error == ReadRecord(files[i]).error;
      } else if ReadRecord(files[|files| - 1]).Failure? {
        assert CollectRecords(files).error == ReadRecord(files[|files| - 1]).error;
      }
    }
  }

  /** Once a file lacks a key, later files change nothing: the error stands. */
  lemma {:induction false} CollectFailurePersists(files: seq<ParamFile>, k: nat)
    requires k <= |files| && CollectRecords(files[..k]).Failure?
    ensures CollectRecords(files) == CollectRecords(files[..k])
    decreases |files|
  {
    if k < |files| {
      var init := files[..|files| - 1];
      assert init[..k] == files[..k];
      CollectFailurePersists(init, k);
    } else {
      assert files[..k] == files;
    }
  }

  /** `main` without its I/O: collect the records, then
      `sort_values(by="SCORE", ascending=False)`. With no file at all the
      frame has no SCORE column and the sort fails. The sort promises no
      order among equal scores, so neither does this contract. */
  method TopScores(files: seq<ParamFile>) returns (r: Result<seq<ScoreRecord>>)
    ensures files == [] ==> r == Failure(MissingColumn("SCORE"))
    ensures files != [] ==> (r.Success? <==> CollectRecords(files).Success?)
    ensures r.Failure? && files != [] ==> r == CollectRecords(files)
    ensures r.Success? ==> multiset(r.value) == multiset(CollectRecords(files).value)
    ensures r.Success? ==> SortedDesc(r.value, RecordScore)
  {
    var scores: seq<ScoreRecord> := [];
    for i := 0 to |files|
      invariant CollectRecords(files[..i]) == Success(scores)
    {
      var record := ReadRecord(files[i]);
      assert files[..i + 1][..i] == files[..i];
      if record.Failure? {
        CollectFailurePersists(files, i + 1);
        return Failure(record.error);
      }
      scores := scores + [record.value];
    }
    assert files[..|files|] == files;
    if scores == [] {
      return Failure(MissingColumn("SCORE"));
    }
    var ranked := SortDesc(scores, RecordScore);
    return Success(ranked);
  }
}
