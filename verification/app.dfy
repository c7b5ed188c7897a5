/** The job pipeline of the web service (app.py): upload validation, the job
    record, splitting the codes among four workers, the per-worker loop,
    merging, and the job-status lifecycle. The Flask request, the pool of
    processes, the spreadsheet writer and the mail server are inputs. */
module App {
  import opened Wrappers
  import opened Text
  import opened Records
  import opened RequestUtils
  import HotTonerScraper
  import opened SeleniumScraper
  import opened ExcelHandler

  // ---------------------------------------------------------------------
  // allowed_file
  // ---------------------------------------------------------------------

  const AllowedExtensions: set<string> := {"xlsx", "xls"}

  /** The index of the last '.' in `f`, if any. */
  function LastDot(f: string): (r: Option<nat>)
    ensures r.None? <==> forall i :: 0 <= i < |f| ==> f[i] != '.'
    ensures r.Some? ==> r.value < |f| && f[r.value] == '.' && forall i :: r.value < i < |f| ==> f[i] != '.'
  {
    if |f| == 0 then None
    else if f[|f| - 1] == '.' then Some(|f| - 1)
    else LastDot(f[..|f| - 1])
  }

  /** `allowed_file(filename)`: the text after the last dot, lower-cased,
      is a spreadsheet extension (`rsplit('.', 1)[1]`). */
  predicate AllowedFile(f: string) {
    var dot := LastDot(f);
    dot.Some? && Lower(f[dot.value + 1..]) in AllowedExtensions
  }

  /** `i` is the position of the last '.' in `f`. */
  predicate IsLastDot(f: string, i: int) {
    0 <= i < |f| && f[i] == '.' && forall j :: i < j < |f| ==> f[j] != '.'
  }

  /** The last dot is the dot no other dot follows. */
  lemma LastDotAt(f: string, i: int)
    requires IsLastDot(f, i)
    ensures LastDot(f) == Some(i)
  {
    var dot := LastDot(f);
    assert f[i] == '.';
    assert f[dot.value] == '.';
  }

  /** A file name is accepted exactly when it has a dot after which no other
      dot follows and the rest, lower-cased, is "xlsx" or "xls". */
  lemma AllowedFileIff(f: string)
    ensures AllowedFile(f) <==>
              exists i :: IsLastDot(f, i) && (Lower(f[i + 1..]) == "xlsx" || Lower(f[i + 1..]) == "xls")
  {
    var dot := LastDot(f);
    if dot.Some? {
      assert IsLastDot(f, dot.value);
      forall i | IsLastDot(f, i)
        ensures i == dot.value
      {
        LastDotAt(f, i);
      }
    }
  }

  /** The extension check ignores case, looks only past the last dot, and
      needs a dot. */
  lemma AllowedFileExamples()
    ensures AllowedFile("a.XLSX")
    ensures AllowedFile("report.xls")
    ensures !AllowedFile("xlsx")
    ensures !AllowedFile("a.xlsx.txt")
    ensures !AllowedFile("")
  {
    LastDotAt("a.XLSX", 1);
    assert "a.XLSX"[2..] == "XLSX";
    assert Lower("XLSX") == "xlsx";
    LastDotAt("report.xls", 6);
    assert "report.xls"[7..] == "xls";
    assert "xls"[0] == 'x' && "xls"[1] == 'l' && "xls"[2] == 's';
    assert LowerChar('x') == 'x' && LowerChar('l') == 'l' && LowerChar('s') == 's';
    assert Lower("xls") == "xls";
    LastDotAt("a.xlsx.txt", 6);
    assert "a.xlsx.txt"[7..] == "txt";
    assert |Lower("txt")| == 3 && Lower("txt")[0] == 't';
    assert "xlsx"[0] != '.' && "xlsx"[1] != '.' && "xlsx"[2] != '.' && "xlsx"[3] != '.';
  }

  // ---------------------------------------------------------------------
  // Job records, start_scrape and get_status
  // ---------------------------------------------------------------------

  datatype JobStatus = Pending | Running | Completed | Errored {
    /** The status string the service reports. */
    function Label(): string {
      match this
      case Pending => "pending"
      case Running => "running"
      case Completed => "completed"
      case Errored => "error"
    }

    /** How far along the lifecycle a status is. */
    function Rank(): nat {
      match this
      case Pending => 0
      case Running => 1
      case Completed => 2
      case Errored => 3
    }
  }

  datatype Progress = Progress(current: nat, total: nat)

  /** A job record of the `jobs` dictionary (its creation time is left out). */
  datatype Job = Job(status: JobStatus, progress: Progress, message: string)

  /** The record `start_scrape` stores for a new job. */
  function NewJob(): (j: Job)
    ensures j.status == Pending && j.progress == Progress(0, 0)
  {
    Job(Pending, Progress(0, 0), "Job queued")
  }

  /** The uploaded file part, when the request has one. */
  datatype Upload = Upload(filename: string)

  /** The parts of the POST the handler reads: the `file` part and the
      `email` form field. */
  datatype ScrapeRequest = ScrapeRequest(file: Option<Upload>, email: Option<string>)

  /** A JSON body the service answers with. */
  datatype Body =
    | ErrorBody(error: string)
    | Started(jobId: string, message: string)
    | JobBody(job: Job)

  datatype Response = Response(code: int, body: Body)

  /** A request that passes every validation check. */
  predicate Acceptable(req: ScrapeRequest) {
    && req.file.Some?
    && req.email.Some? && req.email.value != ""
    && AllowedFile(req.file.value.filename)
  }

  /** `start_scrape()`: the four 400 checks in order, then the upload is
      saved (which may raise, giving 500 with the exception text), the job
      is recorded under the fresh id `newId`, and the thread is started.
      Starting the thread may raise too (`startError`): the answer is then
      500, but the job record stays in the table, still queued. The thread
      the handler starts is `RunScraperJob`. */
  function StartScrape(jobs: map<string, Job>, req: ScrapeRequest, newId: string,
                       saveError: Option<string>, startError: Option<string>)
    : (r: (map<string, Job>, Response))
    ensures req.file.None? ==> r.1 == Response(400, ErrorBody("No file provided"))
    ensures req.file.Some? && (req.email.None? || req.email.value == "") ==>
              r.1 == Response(400, ErrorBody("No email provided"))
    ensures req.file.Some? && req.email.Some? && req.email.value != "" && req.file.value.filename == "" ==>
              r.1 == Response(400, ErrorBody("No file selected"))
    ensures req.file.Some? && req.email.Some? && req.email.value != "" && req.file.value.filename != ""
            && !AllowedFile(req.file.value.filename) ==>
              r.1 == Response(400, ErrorBody("Invalid file type. Only .xlsx and .xls allowed"))
    ensures r.1.code == 400 <==> !Acceptable(req)
    ensures Acceptable(req) && saveError.Some? ==> r.1 == Response(500, ErrorBody(saveError.value))
    ensures Acceptable(req) && saveError.None? && startError.Some? ==>
              r.1 == Response(500, ErrorBody(startError.value))
    ensures r.1.code == 200 <==> Acceptable(req) && saveError.None? && startError.None?
    ensures r.1.code == 200 ==> r.1.body == Started(newId, "Scraping job started")
    ensures newId in r.0 && r.0[newId] == NewJob() <== Acceptable(req) && saveError.None?
    ensures !Acceptable(req) || saveError.Some? ==> r.0 == jobs
    ensures forall id :: id != newId ==> (id in r.0 <==> id in jobs)
    ensures forall id :: id != newId && id in jobs ==> r.0[id] == jobs[id]
  {
    if req.file.None? then (jobs, Response(400, ErrorBody("No file provided")))
    else if req.email.None? || req.email.value == "" then (jobs, Response(400, ErrorBody("No email provided")))
    else if req.file.value.filename == "" then (jobs, Response(400, ErrorBody("No file selected")))
    else if !AllowedFile(req.file.value.filename) then
      (jobs, Response(400, ErrorBody("Invalid file type. Only .xlsx and .xls allowed")))
    else if saveError.Some? then (jobs, Response(500, ErrorBody(saveError.value)))
    else
      var stored := jobs[newId := NewJob()];
      if startError.Some? then (stored, Response(500, ErrorBody(startError.value)))
      else (stored, Response(200, Started(newId, "Scraping job started")))
  }

  /** `get_status(job_id)`. */
  function GetStatus(jobs: map<string, Job>, id: string): (r: Response)
    ensures id !in jobs <==> r == Response(404, ErrorBody("Job not found"))
    ensures id in jobs <==> r.code == 200
    ensures id in jobs ==> r.body == JobBody(jobs[id])
  {
    if id !in jobs then Response(404, ErrorBody("Job not found")) else Response(200, JobBody(jobs[id]))
  }

  /** Once the job is recorded (whether or not its thread then started),
      polling the new id reports the queued job, and the other jobs still
      report what they did before. */
  lemma StatusAfterStart(jobs: map<string, Job>, req: ScrapeRequest, newId: string,
                         saveError: Option<string>, startError: Option<string>, other: string)
    requires Acceptable(req) && saveError.None?
    ensures GetStatus(StartScrape(jobs, req, newId, saveError, startError).0, newId)
            == Response(200, JobBody(Job(Pending, Progress(0, 0), "Job queued")))
    ensures other != newId ==>
              GetStatus(StartScrape(jobs, req, newId, saveError, startError).0, other) == GetStatus(jobs, other)
  {
  }

  // ---------------------------------------------------------------------
  // Splitting the codes among the workers
  // ---------------------------------------------------------------------

  const NumWorkers := 4

  /** The slice worker `i` gets: `chunk_size` codes, the last worker taking
      the remainder as well. */
  function Chunk<T>(codes: seq<T>, i: nat): (c: seq<T>)
    requires i < NumWorkers
  {
    var size := |codes| / NumWorkers;
    codes[i * size .. if i == NumWorkers - 1 then |codes| else i * size + size]
  }

  /** The four chunks of `run_scraper_job`. */
  function SplitChunks<T>(codes: seq<T>): (chunks: seq<seq<T>>)
    ensures |chunks| == NumWorkers
    ensures forall i :: 0 <= i < NumWorkers - 1 ==> |chunks[i]| == |codes| / NumWorkers
    ensures |chunks[NumWorkers - 1]| == |codes| - (NumWorkers - 1) * (|codes| / NumWorkers)
    ensures Flatten(chunks) == codes
  {
    var chunks := [Chunk(codes, 0), Chunk(codes, 1), Chunk(codes, 2), Chunk(codes, 3)];
    var size := |codes| / NumWorkers;
    assert Flatten(chunks[3..]) == Chunk(codes, 3) + Flatten(chunks[4..]);
    assert Flatten(chunks[2..]) == codes[2 * size..] by {
      assert Flatten(chunks[2..]) == Chunk(codes, 2) + Flatten(chunks[3..]);
    }
    assert Flatten(chunks[1..]) == codes[size..] by {
      assert Flatten(chunks[1..]) == Chunk(codes, 1) + Flatten(chunks[2..]);
    }
    assert Flatten(chunks) == Chunk(codes, 0) + Flatten(chunks[1..]);
    chunks
  }

  /** With fewer than four codes, all of them go to the last worker. */
  lemma FewCodesGoToLastWorker<T>(codes: seq<T>)
    requires |codes| < NumWorkers
    ensures SplitChunks(codes) == [[], [], [], codes]
  {
    var c := SplitChunks(codes);
    assert |c[0]| == 0 && |c[1]| == 0 && |c[2]| == 0;
    assert c[3] == codes by {
      assert Flatten(c) == c[0] + Flatten(c[1..]);
      assert Flatten(c[1..]) == c[1] + Flatten(c[2..]);
      assert Flatten(c[2..]) == c[2] + Flatten(c[3..]);
      assert Flatten(c[3..]) == c[3] + Flatten(c[4..]);
    }
  }

  /** The chunking loop of the source. */
  method SplitChunksLoop<T>(codes: seq<T>) returns (chunks: seq<seq<T>>)
    ensures chunks == SplitChunks(codes)
  {
    var chunkSize := |codes| / NumWorkers;
    chunks := [];
    var i := 0;
    while i < NumWorkers
      invariant 0 <= i <= NumWorkers
      invariant |chunks| == i
      invariant forall k :: 0 <= k < i ==> chunks[k] == Chunk(codes, k)
    {
      var start := i * chunkSize;
      var end := if i == NumWorkers - 1 then |codes| else start + chunkSize;
      assert start + chunkSize <= NumWorkers * chunkSize <= |codes| by {
        assert i + 1 <= NumWorkers;
      }
      chunks := chunks + [codes[start..end]];
      i := i + 1;
    }
    assert chunks == [Chunk(codes, 0), Chunk(codes, 1), Chunk(codes, 2), Chunk(codes, 3)];
  }

  // ---------------------------------------------------------------------
  // worker_process
  // ---------------------------------------------------------------------

  /** One row of the results table: the code and one column per site. The
      Ink Station column exists only when the worker uses the browser. */
  datatype Row = Row(oemCode: string, inkStation: Option<string>, hotToner: string)

  /** What the world does when a worker looks up one code: the browser
      visit and the HotToner GET. */
  datatype CodeEnv = CodeEnv(visit: Visit, fetch: HotTonerScraper.Fetch)

  /** The browser lookups a worker makes, one per code of its chunk. */
  function WorkerJobs(chunk: seq<string>, envs: Feed<CodeEnv>): (js: seq<(string, Visit)>)
    ensures |js| == |chunk|
    ensures forall i :: 0 <= i < |chunk| ==> js[i] == (chunk[i], envs.At(i).visit)
  {
    seq(|chunk|, i requires 0 <= i < |chunk| => (chunk[i], envs.At(i).visit))
  }

  /** The HotToner records of a chunk, one per code. */
  function HotResults(chunk: seq<string>, envs: Feed<CodeEnv>): (rs: seq<ScrapeResult>)
    ensures |rs| == |chunk|
  {
    seq(|chunk|, i requires 0 <= i < |chunk| => HotTonerScraper.Scrape(chunk[i], envs.At(i).fetch))
  }

  /** The rows built from the codes and the records the scrapers returned
      for them; without a browser there are no Ink Station cells. A cell is
      the record's Price: the adapters always return a non-empty record and
      never raise, so the "N/A" and "Error" branches are never taken. */
  function MakeRows(codes: seq<string>, inks: Option<seq<Lookup>>, hots: seq<ScrapeResult>): (rows: seq<Row>)
    requires |hots| == |codes| && (inks.Some? ==> |inks.value| == |codes|)
    ensures |rows| == |codes|
    ensures forall i :: 0 <= i < |codes| ==> rows[i].oemCode == codes[i] && rows[i].hotToner == hots[i].price
    ensures forall i :: 0 <= i < |codes| ==>
              rows[i].inkStation == if inks.Some? then Some(inks.value[i].result.price) else None
  {
    seq(|codes|, i requires 0 <= i < |codes| =>
      Row(codes[i], if inks.Some? then Some(inks.value[i].result.price) else None, hots[i].price))
  }

  /** What a worker hands back: its rows, how often it bumped the job's
      counter in its own copy of `jobs`, and its browser session after the
      `finally` block, if it had one. */
  datatype WorkerOutput = WorkerOutput(rows: seq<Row>, increments: nat, session: Option<Session>)

  /** `worker_process(args)`: one row per code, in chunk order, the browser
      lookups being one run of a fresh scraper object over the chunk; one
      counter bump per code when the job is known to the worker; the
      browser, if the worker has one, closed at the end. The i-th code's
      lookups see `envs.At(i)`. */
  function Worker(chunk: seq<string>, useSelenium: bool, jobKnown: bool, envs: Feed<CodeEnv>): (w: WorkerOutput)
    ensures |w.rows| == |chunk|
    ensures forall i :: 0 <= i < |chunk| ==> w.rows[i].oemCode == chunk[i]
    ensures forall i :: 0 <= i < |chunk| ==> (w.rows[i].inkStation.Some? <==> useSelenium)
    ensures w.increments == if jobKnown then |chunk| else 0
    ensures w.session.Some? <==> useSelenium
    ensures w.session.Some? ==> !w.session.value.driverOpen
  {
    var run := Run(Fresh(), WorkerJobs(chunk, envs));
    var rows := MakeRows(chunk, if useSelenium then Some(run.1) else None, HotResults(chunk, envs));
    WorkerOutput(rows, if jobKnown then |chunk| else 0, if useSelenium then Some(Close(run.0).session) else None)
  }

  /** Every Ink Station cell a worker writes is "N/A" or a dollar amount,
      every Hot Tonner cell is "N/A" or a `clean_price` result, and each
      cell is the price its site's adapter returned for that row's code. */
  lemma WorkerCellsArePrices(chunk: seq<string>, useSelenium: bool, jobKnown: bool, envs: Feed<CodeEnv>)
    ensures var w := Worker(chunk, useSelenium, jobKnown, envs);
            forall i :: 0 <= i < |chunk| ==>
              && (w.rows[i].inkStation.Some? <==> useSelenium)
              && (useSelenium ==> w.rows[i].inkStation == Some(Run(Fresh(), WorkerJobs(chunk, envs)).1[i].result.price))
              && (w.rows[i].inkStation.Some? ==> w.rows[i].inkStation.value == NA || IsPriceToken(w.rows[i].inkStation.value))
              && w.rows[i].hotToner == HotTonerScraper.Scrape(chunk[i], envs.At(i).fetch).price
              && IsCleanedPrice(w.rows[i].hotToner)
  {
    var w := Worker(chunk, useSelenium, jobKnown, envs);
    var hots := HotResults(chunk, envs);
    RunRecords(Fresh(), WorkerJobs(chunk, envs));
    forall i | 0 <= i < |chunk|
      ensures w.rows[i].hotToner == HotTonerScraper.Scrape(chunk[i], envs.At(i).fetch).price
      ensures IsCleanedPrice(w.rows[i].hotToner)
    {
      assert hots[i] == HotTonerScraper.Scrape(chunk[i], envs.At(i).fetch);
      HotTonerScraper.PriceIsCleaned(chunk[i], envs.At(i).fetch);
    }
  }

  /** A worker waits for the challenge at most once, however many codes it
      looks up, and it starts the browser's page loads at most once per code. */
  lemma WorkerWaitsAtMostOnce(chunk: seq<string>, envs: Feed<CodeEnv>)
    ensures CountWhere(Run(Fresh(), WorkerJobs(chunk, envs)).1, Waited) <= 1
    ensures Run(Fresh(), WorkerJobs(chunk, envs)).0.requestCount <= |chunk|
  {
    AtMostOneChallengeWait(Fresh(), WorkerJobs(chunk, envs));
    RequestCountCountsDriverLookups(Fresh(), WorkerJobs(chunk, envs));
    CountWhereAtMostLength(Run(Fresh(), WorkerJobs(chunk, envs)).1, (l: Lookup) => l.session.driverOpen);
  }

  // ---------------------------------------------------------------------
  // Merging
  // ---------------------------------------------------------------------

  function CodesOf(rows: seq<Row>): (cs: seq<string>)
    ensures |cs| == |rows|
    ensures forall i :: 0 <= i < |rows| ==> cs[i] == rows[i].oemCode
  {
    seq(|rows|, i requires 0 <= i < |rows| => rows[i].oemCode)
  }

  /** The codes of the merged rows are the merged codes of each part. */
  lemma {:induction false} CodesOfFlatten(parts: seq<seq<Row>>, codeParts: seq<seq<string>>)
    requires |parts| == |codeParts|
    requires forall w :: 0 <= w < |parts| ==> CodesOf(parts[w]) == codeParts[w]
    ensures CodesOf(Flatten(parts)) == Flatten(codeParts)
    decreases |parts|
  {
    if |parts| > 0 {
      CodesOfFlatten(parts[1..], codeParts[1..]);
      assert CodesOf(Flatten(parts)) == CodesOf(parts[0]) + CodesOf(Flatten(parts[1..]));
    }
  }

  /** The pool's outputs, in chunk order (`pool.map` keeps the order). */
  function Workers(chunks: seq<seq<string>>, jobKnown: bool, envs: nat -> Feed<CodeEnv>): (ws: seq<WorkerOutput>)
    ensures |ws| == |chunks|
    ensures forall w :: 0 <= w < |chunks| ==> ws[w] == Worker(chunks[w], true, jobKnown, envs(w))
  {
    seq(|chunks|, w requires 0 <= w < |chunks| => Worker(chunks[w], true, jobKnown, envs(w)))
  }

  function RowsOf(ws: seq<WorkerOutput>): (rss: seq<seq<Row>>)
    ensures |rss| == |ws|
    ensures forall w :: 0 <= w < |ws| ==> rss[w] == ws[w].rows
  {
    seq(|ws|, w requires 0 <= w < |ws| => ws[w].rows)
  }

  /** Merging the workers' rows in chunk order gives one row per code, in
      the order of the code list. */
  lemma MergeKeepsCodeOrder(codes: seq<string>, jobKnown: bool, envs: nat -> Feed<CodeEnv>)
    ensures CodesOf(Flatten(RowsOf(Workers(SplitChunks(codes), jobKnown, envs)))) == codes
  {
    var chunks := SplitChunks(codes);
    var rss := RowsOf(Workers(chunks, jobKnown, envs));
    forall w | 0 <= w < |rss|
      ensures CodesOf(rss[w]) == chunks[w]
    {
      assert |CodesOf(rss[w])| == |chunks[w]|;
    }
    CodesOfFlatten(rss, chunks);
  }

  /** The workers' counters add up to the number of codes when each worker
      sees the job. */
  lemma IncrementsCoverCodes(codes: seq<string>, envs: nat -> Feed<CodeEnv>)
    ensures var ws := Workers(SplitChunks(codes), true, envs);
            ws[0].increments + ws[1].increments + ws[2].increments + ws[3].increments == |codes|
  {
  }

  // ---------------------------------------------------------------------
  // run_scraper_job
  // ---------------------------------------------------------------------

  /** Everything the background job depends on besides its record. */
  datatype JobEnv = JobEnv(
    inputPath: string,
    workbook: Workbook,                // what is stored at the input path
    lookups: nat -> Feed<CodeEnv>,       // what worker w sees for its i-th code
    workerSeesJob: bool,               // the job id is in the worker process's copy of `jobs`
    writeError: Option<string>,        // `to_excel` raised this
    emailError: Option<string>)        // `send_email_with_attachment` raised this

  /** What the job did: the job record after each assignment to it, in
      order, and the table written to the output file, if any. */
  datatype JobRun = JobRun(history: seq<Job>, written: Option<seq<Row>>)

  const ReadingMessage := "Reading OEM codes from file..."
  const SendingMessage := "Scraping completed! Sending email..."
  const SentMessage := "Email sent successfully!"

  function FoundMessage(n: nat): string {
    "Found " + DecimalString(n) + " OEM codes. Starting parallel scraping..."
  }

  /** The `except` block: status "error", then the message. */
  function Fail(history: seq<Job>, reason: string): (h: seq<Job>)
    requires |history| > 0
  {
    var last := history[|history| - 1];
    var errored := last.(status := Errored);
    history + [errored, errored.(message := "Error: " + reason)]
  }

  /** The reason the job failed, if it did: the first step that raised. */
  function FailureReason(read: Result<seq<string>, ReadError>, writeError: Option<string>, emailError: Option<string>)
    : Option<string>
  {
    match read
    case Failure(e) => Some(e.Message())
    case Success(_) => if writeError.Some? then writeError else emailError
  }

  /** The job record after each assignment `run_scraper_job` makes to it,
      given what reading the codes, writing the table and sending the
      e-mail did. */
  function JobHistory(job: Job, read: Result<seq<string>, ReadError>, writeError: Option<string>, emailError: Option<string>)
    : (h: seq<Job>)
    ensures |h| >= 2
    ensures h[0].status == Running && h[1].message == ReadingMessage
  {
    var running := job.(status := Running);
    var reading := running.(message := ReadingMessage);
    var h := [running, reading];
    match read
    case Failure(e) => Fail(h, e.Message())
    case Success(codes) =>
      var counted := reading.(progress := Progress(0, |codes|));
      var found := counted.(message := FoundMessage(|codes|));
      var h := h + [counted, found];
      if writeError.Some? then Fail(h, writeError.value)
      else
        var completed := found.(status := Completed);
        var sending := completed.(message := SendingMessage);
        var h := h + [completed, sending];
        if emailError.Some? then Fail(h, emailError.value)
        else h + [sending.(message := SentMessage)]
  }

  /** The merged rows of the four workers for `codes`: one row per code,
      in the order of the code list. */
  function MergedRows(codes: seq<string>, jobKnown: bool, envs: nat -> Feed<CodeEnv>): (rows: seq<Row>)
    ensures CodesOf(rows) == codes
  {
    MergeKeepsCodeOrder(codes, jobKnown, envs);
    Flatten(RowsOf(Workers(SplitChunks(codes), jobKnown, envs)))
  }

  /** `run_scraper_job(...)` on the record `job`: its history, and the
      table `to_excel` writes when reading the codes and writing succeed. */
  function RunScraperJob(job: Job, env: JobEnv): (r: JobRun)
    ensures var read := ReadOemCodes(env.inputPath, env.workbook);
            && (r.written.Some? <==> read.Success? && env.writeError.None?)
            && (r.written.Some? ==> CodesOf(r.written.value) == read.value)
  {
    var written :=
      match ReadOemCodes(env.inputPath, env.workbook)
      case Failure(_) => None
      case Success(codes) =>
        if env.writeError.Some? then None else Some(MergedRows(codes, env.workerSeesJob, env.lookups));
    JobRun(JobHistory(job, ReadOemCodes(env.inputPath, env.workbook), env.writeError, env.emailError), written)
  }

  /** The status only moves forward along pending, running, completed,
      error. */
  lemma StatusMovesForward(job: Job, read: Result<seq<string>, ReadError>, writeError: Option<string>, emailError: Option<string>)
    ensures var h := JobHistory(job, read, writeError, emailError);
            forall i, j :: 0 <= i < j < |h| ==> h[i].status.Rank() <= h[j].status.Rank()
  {
    var h := JobHistory(job, read, writeError, emailError);
    if read.Failure? {
      assert |h| == 4;
    } else if writeError.Some? {
      assert |h| == 6;
    } else if emailError.Some? {
      assert |h| == 8;
    } else {
      assert |h| == 7;
    }
  }

  /** The job ends "completed" with the e-mail message exactly when nothing
      raised, and otherwise ends "error" with the first exception's text. */
  lemma JobOutcome(job: Job, read: Result<seq<string>, ReadError>, writeError: Option<string>, emailError: Option<string>)
    ensures var h := JobHistory(job, read, writeError, emailError);
            var reason := FailureReason(read, writeError, emailError);
            && (h[|h| - 1].status == Completed <==> reason.None?)
            && (h[|h| - 1].status == Errored <==> reason.Some?)
            && (reason.Some? ==> h[|h| - 1].message == "Error: " + reason.value)
            && (reason.None? ==> h[|h| - 1].message == SentMessage)
  {
    var h := JobHistory(job, read, writeError, emailError);
    if read.Failure? {
      assert |h| == 4;
    } else if writeError.Some? {
      assert |h| == 6;
    } else if emailError.Some? {
      assert |h| == 8;
    } else {
      assert |h| == 7;
    }
  }

  /** Because "completed" is written before the e-mail is sent, a failing
      e-mail turns a completed job into an errored one, and only then is an
      errored job ever seen completed. */
  lemma CompletedThenErrored(job: Job, read: Result<seq<string>, ReadError>, writeError: Option<string>, emailError: Option<string>)
    ensures var h := JobHistory(job, read, writeError, emailError);
            (exists i :: 0 <= i < |h| && h[i].status == Completed) && h[|h| - 1].status == Errored
            <==> read.Success? && writeError.None? && emailError.Some?
  {
    var h := JobHistory(job, read, writeError, emailError);
    if read.Failure? {
      assert |h| == 4;
      assert forall i :: 0 <= i < |h| ==> h[i].status != Completed;
    } else if writeError.Some? {
      assert |h| == 6;
      assert forall i :: 0 <= i < |h| ==> h[i].status != Completed;
    } else if emailError.Some? {
      assert |h| == 8;
      assert h[4].status == Completed;
    } else {
      assert |h| == 7;
    }
  }

  /** The lifecycle of a queued job under `run_scraper_job`: pending, then
      running, then forward only; it ends "completed" exactly when reading,
      writing and mailing all succeeded, and "error" otherwise. */
  lemma JobLifecycle(job: Job, env: JobEnv)
    requires job.status == Pending
    ensures var h := RunScraperJob(job, env).history;
            var reason := FailureReason(ReadOemCodes(env.inputPath, env.workbook), env.writeError, env.emailError);
            && job.status.Rank() < h[0].status.Rank()
            && (forall i, j :: 0 <= i < j < |h| ==> h[i].status.Rank() <= h[j].status.Rank())
            && (h[|h| - 1].status == Completed <==> reason.None?)
            && (h[|h| - 1].status == Errored <==> reason.Some?)
  {
    var read := ReadOemCodes(env.inputPath, env.workbook);
    StatusMovesForward(job, read, env.writeError, env.emailError);
    JobOutcome(job, read, env.writeError, env.emailError);
  }

  /** The background job never moves the parent's progress counter: the
      workers bump their own copies of `jobs`, so `current` stays at its
      reset value 0 while `total` is the number of codes. */
  lemma ParentProgressStaysAtZero(job: Job, read: Result<seq<string>, ReadError>, writeError: Option<string>, emailError: Option<string>)
    requires job.progress.current == 0
    ensures var h := JobHistory(job, read, writeError, emailError);
            && (forall i :: 0 <= i < |h| ==> h[i].progress.current == 0)
            && (read.Success? ==> h[|h| - 1].progress.total == |read.value|)
  {
    var h := JobHistory(job, read, writeError, emailError);
    if read.Failure? {
      assert |h| == 4;
    } else if writeError.Some? {
      assert |h| == 6;
    } else if emailError.Some? {
      assert |h| == 8;
    } else {
      assert |h| == 7;
    }
  }
}
