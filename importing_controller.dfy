/**
 * The default importing controller: the sub-commands an import job is
 * driven by, the job's configuration created on first use, and the state
 * guards that keep raw data from being loaded twice or parsed before it is
 * ready.  Loading the raw data and updating the file selection run the
 * format choice of the FormatSelection module.
 */
module ImportingController {
  import opened Wrappers
  import opened FormatSelection

  /** The configuration of an import job, as far as the controller and the loader use it. */
  datatype JobConfig = JobConfig(
    state: string,
    hasData: bool,
    error: Option<string>,
    files: seq<FileInfo>,
    fileSelection: seq<int>,
    rankedFormats: seq<string>,
    showsProgress: bool)

  /** The configuration a job gets when it is first asked for one. */
  const NEW_CONFIG := JobConfig("new", false, None, [], [], [], false)

  /** The states the controller and the loader ever write. */
  predicate KnownState(state: string) {
    state in {"new", "loading-raw-data", "ready", "error"}
  }

  class ImportingJob {
    var config: Option<JobConfig>

    constructor ()
      ensures config == None
    {
      config := None;
    }
  }

  /** What the importing manager's registries hold: guessers by format, format records, and how often guessing may refine. */
  datatype Registries = Registries(guessers: map<string, seq<Guesser>>, formats: map<string, FormatRecord>, fuel: nat)

  /**
   * The outcome of retrieving a request's raw data: the file records and the
   * archive count; an upload failure (a FileUploadException, raised while the
   * request is parsed, before any file is recorded); or any other exception
   * that escapes the retrieval (a bad URL, a failed connection or write, or
   * the null dereference after uncompressing), with the file records made
   * before it.
   */
  datatype Retrieval =
    | Retrieved(files: seq<FileInfo>, archiveCount: int)
    | UploadFailed
    | RetrievalFailed(partial: seq<FileInfo>, exception: string)

  /** What a handler answers: a status and message, the job's data, parser options, nothing, or an exception. */
  datatype Response =
    | Respond(status: string, message: string)
    | JobData
    | ParserOptions(format: string)
    | NoReply
    | Thrown(exception: string)

  datatype Request = Request(
    subCommand: Option<string>,
    jobID: int,
    retrieval: Retrieval,
    fileSelection: seq<int>,
    format: Option<string>)

  /** The ranked list offered for `best`: every eligible format once, in ranked order. */
  ghost predicate RanksEligible(formats: map<string, FormatRecord>, best: Option<string>, ranked: seq<string>) {
    (forall f :: f in ranked <==> f in EligibleFormats(formats)) &&
    (forall i, j :: 0 <= i < j < |ranked| ==> ranked[i] != ranked[j]) &&
    Ranked(best, ranked)
  }

  /**
   * Ranking the parser formats for `best` fails: `best` names a format that
   * is not eligible and there are at least two eligible formats to compare.
   */
  ghost predicate RankingFails(formats: map<string, FormatRecord>, best: Option<string>) {
    best.Some? && best.value !in EligibleFormats(formats) && |EligibleFormats(formats)| >= 2
  }

  /** The job's configuration, created in state "new" without data when there is none yet. */
  method GetConfig(job: ImportingJob) returns (config: JobConfig)
    modifies job
    ensures job.config == Some(config)
    ensures old(job.config).Some? ==> config == old(job.config).value
    ensures old(job.config).None? ==> config == NEW_CONFIG
  {
    if job.config.None? {
      job.config := Some(NEW_CONFIG);
    }
    config := job.config.value;
  }

  /**
   * Loads a job's raw data: the state is "loading-raw-data" while the data
   * is retrieved; an upload failure leaves it "error"; any other exception
   * from the retrieval escapes and leaves it loading, with the records made
   * so far and nothing selected or ranked; otherwise the files are selected, the format is chosen and refined, the parser formats are
   * ranked, and the job is "ready" with data.  Ranking can fail (see
   * RankFormats), which leaves the job loading with no ranked formats.
   */
  method LoadDataAndPrepareJob(job: ImportingJob, retrieval: Retrieval, regs: Registries)
    returns (r: Result<(), string>, ghost chosen: Option<string>, ghost refined: Option<string>)
    requires job.config.Some?
    modifies job
    ensures job.config.Some?
    ensures retrieval.UploadFailed? ==>
      r == Failure("Error uploading data") &&
      job.config == Some(old(job.config).value.(state := "error", error := Some("Error uploading data"), files := [],
                                                showsProgress := true))
    ensures retrieval.RetrievalFailed? ==>
      r == Failure(retrieval.exception) &&
      job.config == Some(old(job.config).value.(state := "loading-raw-data", files := retrieval.partial, showsProgress := true))
    ensures retrieval.Retrieved? ==>
      var c, files := job.config.value, retrieval.files;
      c.files == files && MostFrequentFirst(Formats(files), chosen) &&
      (retrieval.archiveCount == 0 ==> |c.fileSelection| == |files| && forall i :: 0 <= i < |files| ==> c.fileSelection[i] == i) &&
      (retrieval.archiveCount != 0 ==> c.fileSelection == MatchingIndices(Formats(files), chosen)) &&
      Refined(regs.guessers, Some(files), chosen, regs.fuel, refined) &&
      (r.Failure? <==> RankingFails(regs.formats, refined)) &&
      (r.Success? ==> c.state == "ready" && c.hasData && !c.showsProgress && RanksEligible(regs.formats, refined, c.rankedFormats)) &&
      (r.Failure? ==> r.error == "NullPointerException" && c.state == "loading-raw-data" && c.showsProgress && c.rankedFormats == [])
  {
    var config := job.config.value.(state := "loading-raw-data", files := [], showsProgress := true);
    job.config := Some(config);
    if retrieval.UploadFailed? {
      config := config.(state := "error", error := Some("Error uploading data"));
      job.config := Some(config);
      return Failure("Error uploading data"), None, None;
    }
    if retrieval.RetrievalFailed? {
      config := config.(files := retrieval.partial);
      job.config := Some(config);
      return Failure(retrieval.exception), None, None;
    }
    config := config.(files := retrieval.files);
    var best, selection := AutoSelectFiles(retrieval.files, retrieval.archiveCount);
    chosen := best;
    config := config.(fileSelection := selection);
    ghost var steps;
    best, steps := GuessBetterFormat(regs.guessers, Some(retrieval.files), best, regs.fuel);
    refined := best;
    assert Refined(regs.guessers, Some(config.files), chosen, regs.fuel, refined) by {
      if chosen.Some? && config.files != [] && config.files[0].location.Some? {
        assert RefinedIn(regs.guessers, config.files[0].location.value, GetEncoding(config.files[0]), chosen.value, regs.fuel, refined.value, steps);
      }
    }
    config := config.(rankedFormats := []);
    job.config := Some(config);
    var ranked := RankFormats(regs.formats, best);
    if ranked.Failure? {
      return Failure(ranked.error), chosen, refined;
    }
    config := config.(rankedFormats := ranked.value, state := "ready", hasData := true, showsProgress := false);
    job.config := Some(config);
    r := Success(());
  }

  /**
   * Replaces the job's file selection and ranks the parser formats again
   * for the most frequent format among the newly selected files, refined
   * by the guessers; ranking can fail as in RankFormats.
   */
  method UpdateJobWithNewFileSelection(job: ImportingJob, selection: seq<int>, regs: Registries)
    returns (r: Result<(), string>, ghost chosen: Option<string>, ghost refined: Option<string>)
    requires job.config.Some?
    modifies job
    ensures job.config.Some?
    ensures var c, c0 := job.config.value, old(job.config).value;
      c == c0.(fileSelection := selection, rankedFormats := c.rankedFormats) &&
      MostFrequentFirst(Formats(Selected(c0.files, selection)), chosen) &&
      Refined(regs.guessers, Some(c0.files), chosen, regs.fuel, refined) &&
      (r.Failure? <==> RankingFails(regs.formats, refined)) &&
      (r.Success? ==> RanksEligible(regs.formats, refined, c.rankedFormats)) &&
      (r.Failure? ==> r.error == "NullPointerException" && c.rankedFormats == [])
  {
    var config := job.config.value.(fileSelection := selection);
    var best := GetCommonFormatForSelectedFiles(config.files, selection);
    chosen := best;
    ghost var steps;
    best, steps := GuessBetterFormat(regs.guessers, Some(config.files), best, regs.fuel);
    refined := best;
    assert Refined(regs.guessers, Some(config.files), chosen, regs.fuel, refined) by {
      if chosen.Some? && config.files != [] && config.files[0].location.Some? {
        assert RefinedIn(regs.guessers, config.files[0].location.value, GetEncoding(config.files[0]), chosen.value, regs.fuel, refined.value, steps);
      }
    }
    config := config.(rankedFormats := []);
    job.config := Some(config);
    var ranked := RankFormats(regs.formats, best);
    if ranked.Failure? {
      return Failure(ranked.error), chosen, refined;
    }
    job.config := Some(config.(rankedFormats := ranked.value));
    r := Success(());
  }

  /**
   * load-raw-data: only a job in state "new" loads data, and only once.  A
   * retrieved upload fails exactly when ranking fails for the refined format
   * `refined` of LoadDataAndPrepareJob.
   */
  method DoLoadRawData(jobs: map<int, ImportingJob>, jobID: int, retrieval: Retrieval, regs: Registries)
    returns (resp: Response, ghost refined: Option<string>)
    modifies if jobID in jobs then {jobs[jobID]} else {}
    ensures jobID !in jobs ==> resp == Respond("error", "No such import job")
    ensures jobID in jobs ==>
      var job := jobs[jobID];
      var c0 := if old(job.config).Some? then old(job.config).value else NEW_CONFIG;
      job.config.Some? &&
      (c0.state != "new" ==> resp == Respond("error", "Job already started; cannot load more data") && job.config == Some(c0)) &&
      (c0.state == "new" ==>
        job.config.value.state in {"loading-raw-data", "ready", "error"} &&
        (resp == NoReply <==> job.config.value.state == "ready") &&
        (retrieval.UploadFailed? ==> resp == Thrown("Error uploading data") && job.config.value.state == "error") &&
        (retrieval.RetrievalFailed? ==>
          resp == Thrown(retrieval.exception) &&
          job.config == Some(c0.(state := "loading-raw-data", files := retrieval.partial, showsProgress := true))) &&
        (retrieval.Retrieved? ==>
          (resp == NoReply <==> !RankingFails(regs.formats, refined)) &&
          (resp != NoReply ==> resp == Thrown("NullPointerException"))))
  {
    if jobID !in jobs {
      return Respond("error", "No such import job"), None;
    }
    var job := jobs[jobID];
    var config := GetConfig(job);
    if config.state != "new" {
      return Respond("error", "Job already started; cannot load more data"), None;
    }
    var r, _, refined' := LoadDataAndPrepareJob(job, retrieval, regs);
    refined := refined';
    if r.Failure? {
      return Thrown(r.error), refined;
    }
    resp := NoReply;
  }

  /**
   * update-file-selection: only a "ready" job takes a new selection, and
   * answers with its data unless ranking fails for the refined format
   * `refined` of UpdateJobWithNewFileSelection.
   */
  method DoUpdateFileSelection(jobs: map<int, ImportingJob>, jobID: int, selection: seq<int>, regs: Registries)
    returns (resp: Response, ghost refined: Option<string>)
    modifies if jobID in jobs then {jobs[jobID]} else {}
    ensures jobID !in jobs ==> resp == Respond("error", "No such import job")
    ensures jobID in jobs ==>
      var job := jobs[jobID];
      var c0 := if old(job.config).Some? then old(job.config).value else NEW_CONFIG;
      job.config.Some? && job.config.value.state == c0.state &&
      (c0.state != "ready" ==> resp == Respond("error", "Job not ready") && job.config == Some(c0)) &&
      (c0.state == "ready" ==>
        job.config.value.fileSelection == selection &&
        (resp == JobData <==> !RankingFails(regs.formats, refined)) &&
        (resp != JobData ==> resp == Thrown("NullPointerException")))
  {
    if jobID !in jobs {
      return Respond("error", "No such import job"), None;
    }
    var job := jobs[jobID];
    var config := GetConfig(job);
    if config.state != "ready" {
      return Respond("error", "Job not ready"), None;
    }
    var r, _, refined' := UpdateJobWithNewFileSelection(job, selection, regs);
    refined := refined';
    if r.Failure? {
      return Thrown(r.error), refined;
    }
    resp := JobData;
  }

  /** update-format-and-options: only a "ready" job previews a parse. */
  method DoUpdateFormatAndOptions(jobs: map<int, ImportingJob>, jobID: int) returns (resp: Response)
    modifies if jobID in jobs then {jobs[jobID]} else {}
    ensures jobID !in jobs ==> resp == Respond("error", "No such import job")
    ensures jobID in jobs ==>
      var job := jobs[jobID];
      var c0 := if old(job.config).Some? then old(job.config).value else NEW_CONFIG;
      job.config == Some(c0) &&
      (c0.state != "ready" ==> resp == Respond("error", "Job not ready")) &&
      (c0.state == "ready" ==> resp == Respond("ok", "done"))
  {
    if jobID !in jobs {
      return Respond("error", "No such import job");
    }
    var job := jobs[jobID];
    var config := GetConfig(job);
    if config.state != "ready" {
      return Respond("error", "Job not ready");
    }
    resp := Respond("ok", "done");
  }

  /** initialize-parser-ui: no state check; the format must be registered with a parser. */
  method DoInitializeParserUI(jobs: map<int, ImportingJob>, jobID: int, format: Option<string>, regs: Registries)
    returns (resp: Response)
    ensures jobID !in jobs ==> resp == Respond("error", "No such import job")
    ensures jobID in jobs && format.Some? && format.value in regs.formats && regs.formats[format.value].hasParser ==>
      resp == ParserOptions(format.value)
    ensures jobID in jobs && !(format.Some? && format.value in regs.formats && regs.formats[format.value].hasParser) ==>
      resp == Respond("error", "Unrecognized format or format has no parser")
  {
    if jobID !in jobs {
      return Respond("error", "No such import job");
    }
    if format.Some? && format.value in regs.formats && regs.formats[format.value].hasParser {
      return ParserOptions(format.value);
    }
    resp := Respond("error", "Unrecognized format or format has no parser");
  }

  /** The sub-commands the controller answers. */
  const SUB_COMMANDS: set<string> := {"load-raw-data", "update-file-selection", "initialize-parser-ui", "update-format-and-options"}

  /**
   * Dispatches a request on its sub-command.  Nothing but the four named
   * sub-commands is answered, and no request takes a job that has left
   * state "new" back to it.
   */
  method DoPost(jobs: map<int, ImportingJob>, request: Request, regs: Registries) returns (resp: Response)
    modifies if request.jobID in jobs then {jobs[request.jobID]} else {}
    ensures request.subCommand.None? || request.subCommand.value !in SUB_COMMANDS ==>
      resp == Respond("error", "No such sub command") && (request.jobID in jobs ==> unchanged(jobs[request.jobID]))
    ensures request.subCommand.Some? && request.subCommand.value in SUB_COMMANDS && request.jobID !in jobs ==>
      resp == Respond("error", "No such import job")
    ensures request.jobID in jobs ==>
      var job := jobs[request.jobID];
      (old(job.config).Some? && old(job.config).value.state != "new" ==> job.config.Some? && job.config.value.state != "new") &&
      (old(job.config).None? || KnownState(old(job.config).value.state) ==> job.config.None? || KnownState(job.config.value.state))
  {
    if request.subCommand == Some("load-raw-data") {
      var r, _ := DoLoadRawData(jobs, request.jobID, request.retrieval, regs);
      resp := r;
    } else if request.subCommand == Some("update-file-selection") {
      var r, _ := DoUpdateFileSelection(jobs, request.jobID, request.fileSelection, regs);
      resp := r;
    } else if request.subCommand == Some("initialize-parser-ui") {
      resp := DoInitializeParserUI(jobs, request.jobID, request.format, regs);
    } else if request.subCommand == Some("update-format-and-options") {
      resp := DoUpdateFormatAndOptions(jobs, request.jobID);
    } else {
      resp := Respond("error", "No such sub command");
    }
  }
}
