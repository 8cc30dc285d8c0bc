/** The HTTP routes of the model-selection server that carry logic: the
    ".glb" normalisation of `/download-model/{model_name}`, and the in-memory
    job table filled by `/generate-model` and read by `/model-status/{job_id}`.
    The file system is a set of existing paths, the job id (a fresh uuid4 in
    the server) and the clock are parameters. */
module Server {
  import opened Wrappers
  import opened PyStr
  import opened ModelTable
  import opened Matching

  /** Directory the model files are read from, as a path prefix. */
  const ModelsDir: string := "models/"
  /** URL prefix under which the model files are served. */
  const ModelsUrl: string := "/models/"
  const Completed: string := "completed"

  /** The `HTTPException`s the routes raise. */
  datatype ApiError =
    | NoModelFound(prompt: string, keywords: seq<string>)
    | ModelFileMissing(filename: string)
    | JobNotFound
    | DownloadNotFound(modelName: string)

  /** The HTTP status each error is raised with: a matched model whose
      file is missing is a server error, everything else is "not found". */
  function StatusCode(e: ApiError): (code: int)
    ensures code == 500 <==> e.ModelFileMissing?
    ensures code == 404 <==> !e.ModelFileMissing?
  {
    match e
    case ModelFileMissing(_) => 500
    case _ => 404
  }

  // ------------------------------------------------------------ download

  /** The name `/download-model/{model_name}` looks for: ".glb" is appended
      unless the name already ends with it. */
  function DownloadName(modelName: string): (r: string)
    ensures EndsWith(r, GlbSuffix)
    ensures modelName <= r && |r| <= |modelName| + |GlbSuffix|
    ensures r == modelName || r == modelName + GlbSuffix
  {
    if EndsWith(modelName, GlbSuffix) then modelName else modelName + GlbSuffix
  }

  /** Normalisation is idempotent, and its fixed points are exactly the
      names that already end in ".glb". */
  lemma DownloadNameIdempotent(modelName: string)
    ensures DownloadName(DownloadName(modelName)) == DownloadName(modelName)
    ensures DownloadName(modelName) == modelName <==> EndsWith(modelName, GlbSuffix)
  {
  }

  datatype FileDownload = FileDownload(path: string, filename: string)

  /** `download_model(model_name)`: the file under its normalised name, or
      a not-found error when no such file exists. */
  function DownloadModel(modelName: string, existing: set<string>): (r: Result<FileDownload, ApiError>)
    ensures r.Failure? <==> ModelsDir + DownloadName(modelName) !in existing
    ensures r.Failure? ==> r.error == DownloadNotFound(DownloadName(modelName))
    ensures r.Success? ==> r.value.path in existing && r.value.path == ModelsDir + r.value.filename
    ensures r.Success? ==> EndsWith(r.value.filename, GlbSuffix)
    ensures r.Success? ==> r.value == FileDownload(ModelsDir + DownloadName(modelName), DownloadName(modelName))
    ensures r.Failure? ==> StatusCode(r.error) == 404
  {
    var name := DownloadName(modelName);
    var path := ModelsDir + name;
    if path !in existing then Failure(DownloadNotFound(name))
    else Success(FileDownload(path, name))
  }

  // ------------------------------------------------------------ jobs

  datatype GenerateModelRequest = GenerateModelRequest(prompt: string, x: Option<real>, z: Option<real>)

  datatype GenerateModelResponse =
    GenerateModelResponse(jobId: string, status: string, message: string, estimatedTime: int)

  datatype ModelStatusResponse =
    ModelStatusResponse(jobId: string, status: string, progress: Option<real>,
                        modelUrl: Option<string>, error: Option<string>)

  /** One record of `generation_jobs`. */
  datatype Job = Job(status: string, prompt: string, modelFilename: string,
                     x: Option<real>, z: Option<real>, createdAt: real,
                     progress: real, modelUrl: string)

  /** The record `generate_model` stores: finished at once, served from
      the models URL. */
  ghost predicate CompletedJob(job: Job)
  {
    job.status == Completed && job.progress == 1.0 && job.modelUrl == ModelsUrl + job.modelFilename
  }

  function ReadyMessage(filename: string, prompt: string): string
  {
    "Model '" + filename + "' ready for prompt: '" + prompt + "'"
  }

  /** The server's state: the keyword table read at start-up and the job
      table that `/generate-model` fills. */
  class ModelServer {
    const availableModels: Table
    var generationJobs: map<string, Job>

    ghost predicate Valid()
      reads this
    {
      && DistinctKeys(availableModels)
      && (forall i :: 0 <= i < |availableModels| ==> IsModelFile(availableModels[i].filename))
      && (forall id :: id in generationJobs ==> CompletedJob(generationJobs[id]))
    }

    /** Start-up: `AVAILABLE_MODELS = get_available_models()` over the
        listing of the models directory (`None` when it does not exist),
        and an empty job table. */
    constructor (listing: Option<seq<string>>)
      ensures Valid()
      ensures availableModels == if listing.Some? then Collect(listing.value) else []
      ensures generationJobs == map[]
    {
      var models := GetAvailableModels(listing);
      availableModels := models;
      generationJobs := map[];
    }

    /** `get_model_status(job_id)`: the stored record, or "Job not found". */
    function ModelStatus(jobId: string): (r: Result<ModelStatusResponse, ApiError>)
      reads this
      ensures r.Failure? <==> jobId !in generationJobs
      ensures r.Failure? ==> r.error == JobNotFound && StatusCode(r.error) == 404
      ensures r.Success? ==> r.value.jobId == jobId && r.value.error.None?
      ensures r.Success? && Valid() ==>
                && r.value.status == Completed
                && r.value.progress == Some(1.0)
                && r.value.modelUrl == Some(ModelsUrl + generationJobs[jobId].modelFilename)
    {
      if jobId !in generationJobs then Failure(JobNotFound)
      else
        var job := generationJobs[jobId];
        Success(ModelStatusResponse(jobId, job.status, Some(job.progress), Some(job.modelUrl), None))
    }

    /** `generate_model(request)`: match the prompt, check that the file is on
        disk, and record job `jobId` as completed. Nothing is recorded when
        either step fails. */
    method GenerateModel(request: GenerateModelRequest, jobId: string, existing: set<string>, now: real)
      returns (r: Result<GenerateModelResponse, ApiError>)
      requires Valid()
      modifies this
      ensures Valid()
      ensures FindModelByKeyword(availableModels, request.prompt).None? ==>
                && r == Failure(NoModelFound(request.prompt, Keys(availableModels)))
                && StatusCode(r.error) == 404
                && generationJobs == old(generationJobs)
      ensures forall f :: FindModelByKeyword(availableModels, request.prompt) == Some(f) ==>
                if ModelsDir + f !in existing then
                  && r == Failure(ModelFileMissing(f))
                  && StatusCode(r.error) == 500
                  && generationJobs == old(generationJobs)
                else
                  && r == Success(GenerateModelResponse(jobId, Completed, ReadyMessage(f, request.prompt), 0))
                  && generationJobs == old(generationJobs)[jobId :=
                       Job(Completed, request.prompt, f, request.x, request.z, now, 1.0, ModelsUrl + f)]
                  && ModelStatus(jobId) ==
                       Success(ModelStatusResponse(jobId, Completed, Some(1.0), Some(ModelsUrl + f), None))
    {
      var found := FindModelByKeyword(availableModels, request.prompt);
      if found.None? || found.value == [] {
        // `if not model_filename`: an empty name is falsy too; every
        // table entry ends in ".glb", so only None reaches here
        return Failure(NoModelFound(request.prompt, Keys(availableModels)));
      }
      var filename := found.value;
      if ModelsDir + filename !in existing {
        return Failure(ModelFileMissing(filename));
      }
      generationJobs := generationJobs[jobId :=
        Job(Completed, request.prompt, filename, request.x, request.z, now, 1.0, ModelsUrl + filename)];
      r := Success(GenerateModelResponse(jobId, Completed, ReadyMessage(filename, request.prompt), 0));
    }
  }
}
