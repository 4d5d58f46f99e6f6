/**
 * `main` of src/main.rs: one export of the knowledge base, from the export
 * request to the delete request, with the server's answers, the clock and
 * the file system's answers given as inputs. The run records the requests
 * it sends, what it writes to `outline-backup.zip`, where it moves that file
 * and how the process ends.
 */
module Backup {
  import opened Base
  import Json
  import ErrorCheck
  import Api
  import Poller
  import Fetch
  import Store

  const ExportAll := "collections.export_all"
  const Info := "fileOperations.info"
  const Redirect := "fileOperations.redirect"
  const Delete := "fileOperations.delete"

  /**
   * What the outside world answers during one run. A response is None when
   * sending it, reading its body or parsing that body as JSON fails: the
   * program unwraps each of these.
   */
  datatype Env = Env(
    exportResponse: Option<Json.Json>,  // collections.export_all
    polls: seq<Option<Json.Json>>,       // fileOperations.info, poll by poll; missing ones fail
    redirectBody: Option<seq<byte>>,     // fileOperations.redirect, as bytes
    fallbackBody: Option<seq<byte>>,     // the plain GET of the fallback path
    staleArchive: bool,                  // outline-backup.zip is already in the working directory
    timeStr: string,                     // the local time as `%Y-%m-%d-%H-%M-%S`
    locationExists: bool,                // `Path::exists` of the configured location
    locationAbsolute: bool,              // `Path::is_absolute` of the configured location
    deleteResponse: Option<Json.Json>)   // fileOperations.delete

  /** Where an `unwrap` panics. */
  datatype PanicSite =
    | ExportUnreadable
    | MissingJobId
    | PollUnreadable(at: nat)
    | RedirectUnreadable
    | RedirectNotUtf8
    | RedirectNoResource
    | FallbackUnreadable
    | NothingToMove
    | DeleteUnreadable

  /** How the process ends. */
  datatype Ending =
    | Finished                         // `main` returns
    | Classified(exit: ErrorCheck.Exit) // `validate_response` exits
    | TimedOut                         // "Timeout exceeded", exit code 1
    | Panicked(site: PanicSite)

  /** The process exit code: Rust's runtime uses 101 for a panic in `main`. */
  function ExitCode(e: Ending): int
  {
    match e
    case Finished => 0
    case Classified(exit) => exit.code
    case TimedOut => 1
    case Panicked(_) => 101
  }

  /**
   * One run: the requests in the order sent, the bytes written to
   * outline-backup.zip (None when nothing was written), the move that
   * `move_backup` performed, and the ending.
   */
  datatype Run = Run(
    requests: seq<Api.Request>,
    archive: Option<seq<byte>>,
    placement: Option<Store.Placement>,
    ending: Ending)

  /** `response["status"].to_string()` */
  function StatusText(response: Json.Json): string
  {
    Json.Render(Json.Get(response, "status"))
  }

  /** `response["error"].to_string()` */
  function ErrorText(response: Json.Json): string
  {
    Json.Render(Json.Get(response, "error"))
  }

  /** `response["data"]["fileOperation"]["id"].as_str()` */
  function JobId(response: Json.Json): Option<string>
  {
    Json.AsStr(Json.Get(Json.Get(Json.Get(response, "data"), "fileOperation"), "id"))
  }

  /** `json!({"id": id}).to_string()`: the body of the info, redirect and delete calls. */
  function IdBody(id: string): string
  {
    Json.Render(Json.Obj([("id", Json.Str(id))]))
  }

  /** The classifier's verdict on the export response, the only response it is shown. */
  function Verdict(env: Env): Option<ErrorCheck.Exit>
  {
    if env.exportResponse.None? then None
    else
      var response := env.exportResponse.value;
      ErrorCheck.ValidateResponse(StatusText(response), ErrorText(response))
  }

  /** The job id the run obtains, when it gets that far. */
  function JobIdOf(env: Env): Option<string>
  {
    if env.exportResponse.None? || Verdict(env).Some? then None
    else JobId(env.exportResponse.value)
  }

  /** The run gets past the timeout check. */
  predicate Proceeds(env: Env, cfg: Api.Config)
  {
    JobIdOf(env).Some? && !Poller.TimedOut(Poller.PollSpec(Poller.States(env.polls), cfg.timeout), cfg.timeout)
      && Poller.PollSpec(Poller.States(env.polls), cfg.timeout).Stopped?
  }

  /** The decision on the redirect body, when the run reads one. */
  function Fetched(env: Env, cfg: Api.Config): Option<Fetch.Fetch>
  {
    if Proceeds(env, cfg) && env.redirectBody.Some? then
      Some(Fetch.ClassifyRedirect(env.redirectBody.value, cfg.server))
    else None
  }


  /** `move_backup` runs: the fetch did not panic and outline-backup.zip is there to move. */
  predicate Moves(f: Fetch.Fetch, env: Env)
  {
    || f.DirectArchive?
    || (f.FallbackGet? && env.fallbackBody.Some?)
    || (f.NoArchiveWritten? && env.staleArchive)
  }

  /** A POST of one of the four operations, with the configured headers. */
  predicate IsOperation(r: Api.Request, cfg: Api.Config)
  {
    || Api.IsApiCall(r, cfg, ExportAll) || Api.IsApiCall(r, cfg, Info)
    || Api.IsApiCall(r, cfg, Redirect) || Api.IsApiCall(r, cfg, Delete)
  }

  /**
   * From index `from` on, every POST is one of the four operations and
   * carries `body`, and every GET is a bare request without headers or body.
   */
  predicate CallsFrom(rs: seq<Api.Request>, from: nat, cfg: Api.Config, body: string)
  {
    forall i | from <= i < |rs| ::
      && (rs[i].verb == Api.Post ==> IsOperation(rs[i], cfg) && rs[i].body == Some(body))
      && (rs[i].verb == Api.Get ==> rs[i].headers == [] && rs[i].body == None)
  }

  /** No GET was sent. */
  predicate PostsOnly(rs: seq<Api.Request>)
  {
    forall i | 0 <= i < |rs| :: rs[i].verb == Api.Post
  }

  /** The call of `apicall` with the job's `{"id": …}` body. */
  function IdCall(apicall: string, cfg: Api.Config, body: string): Api.Request
  {
    Api.PostRequest(apicall, cfg).WithBody(body)
  }

  /** The plain `reqwest::Client::get` of the fallback url. */
  function PlainGet(url: string): Api.Request
  {
    Api.Request(Api.Get, url, [], None)
  }

  /**
   * What `main` does, as a value: the specification `RunBackup` is proved
   * against.
   */
  function Outcome(cfg: Api.Config, env: Env): Run
  {
    var exportCall := Api.PostRequest(ExportAll, cfg);
    if env.exportResponse.None? then Run([exportCall], None, None, Panicked(ExportUnreadable))
    else if Verdict(env).Some? then Run([exportCall], None, None, Classified(Verdict(env).value))
    else if JobIdOf(env).None? then Run([exportCall], None, None, Panicked(MissingJobId))
    else
      var body := IdBody(JobIdOf(env).value);
      var polled := Poller.PollSpec(Poller.States(env.polls), cfg.timeout);
      var sent := [exportCall] + seq(polled.Sent(), _ => IdCall(Info, cfg, body));
      if polled.Unreadable? then Run(sent, None, None, Panicked(PollUnreadable(polled.at)))
      else if polled.timer >= cfg.timeout then Run(sent, None, None, TimedOut)
      else AfterPolling(cfg, env, sent, body)
  }

  /** From the redirect call on. */
  function AfterPolling(cfg: Api.Config, env: Env, sent: seq<Api.Request>, body: string): Run
  {
    var sent := sent + [IdCall(Redirect, cfg, body)];
    if env.redirectBody.None? then Run(sent, None, None, Panicked(RedirectUnreadable))
    else match Fetch.ClassifyRedirect(env.redirectBody.value, cfg.server)
      case DirectArchive(bytes) => Finishing(cfg, env, sent, Some(bytes), body)
      case FallbackGet(url) =>
        // outline-backup.zip is created, still empty, before the GET is sent
        var sent := sent + [PlainGet(url)];
        if env.fallbackBody.None? then Run(sent, Some([]), None, Panicked(FallbackUnreadable))
        else Finishing(cfg, env, sent, env.fallbackBody, body)
      case NoArchiveWritten => Finishing(cfg, env, sent, None, body)  // "Another error occured"
      case NotUtf8 => Run(sent, None, None, Panicked(RedirectNotUtf8))
      case NoResource => Run(sent, None, None, Panicked(RedirectNoResource))
  }

  /**
   * `move_backup`, then the delete call. Every branch of `move_backup`
   * renames or copies outline-backup.zip, and panics when it is not there.
   */
  function Finishing(cfg: Api.Config, env: Env, sent: seq<Api.Request>, archive: Option<seq<byte>>, body: string): Run
  {
    if archive.None? && !env.staleArchive then Run(sent, None, None, Panicked(NothingToMove))
    else
      var placement := Store.MoveBackup(cfg.location, env.timeStr, env.locationExists, env.locationAbsolute);
      Run(sent + [IdCall(Delete, cfg, body)], archive, Some(placement),
          if env.deleteResponse.Some? then Finished else Panicked(DeleteUnreadable))
  }

  /** `main`, with `cfg` the configuration that `get_config` returns. */
  method RunBackup(cfg: Api.Config, env: Env) returns (run: Run)
    ensures run == Outcome(cfg, env)
  {
    var exportCall := Api.BuildPostRequest(ExportAll, cfg);
    var requests := [exportCall];
    if env.exportResponse.None? {
      return Run(requests, None, None, Panicked(ExportUnreadable));
    }
    var response := env.exportResponse.value;
    var verdict := ErrorCheck.ValidateResponse(StatusText(response), ErrorText(response));
    if verdict.Some? {
      return Run(requests, None, None, Classified(verdict.value));
    }
    var id := JobId(response);
    if id.None? {
      return Run(requests, None, None, Panicked(MissingJobId));
    }
    var body := IdBody(id.value);

    var info := Api.BuildPostRequest(Info, cfg);
    info := info.WithBody(body);
    var polled, sent := Poller.PollJob(info, env.polls, cfg.timeout);
    requests := requests + sent;
    if polled.Unreadable? {
      return Run(requests, None, None, Panicked(PollUnreadable(polled.at)));
    }
    if polled.timer >= cfg.timeout {
      return Run(requests, None, None, TimedOut);
    }

    var redirect := Api.BuildPostRequest(Redirect, cfg);
    redirect := redirect.WithBody(body);
    requests := requests + [redirect];
    if env.redirectBody.None? {
      return Run(requests, None, None, Panicked(RedirectUnreadable));
    }
    var archive: Option<seq<byte>> := None;
    match Fetch.ClassifyRedirect(env.redirectBody.value, cfg.server) {
      case DirectArchive(bytes) =>
        archive := Some(bytes);
      case FallbackGet(url) =>
        archive := Some([]);
        requests := requests + [Api.Request(Api.Get, url, [], None)];
        if env.fallbackBody.None? {
          return Run(requests, archive, None, Panicked(FallbackUnreadable));
        }
        archive := env.fallbackBody;
      case NoArchiveWritten =>
      case NotUtf8 =>
        return Run(requests, None, None, Panicked(RedirectNotUtf8));
      case NoResource =>
        return Run(requests, None, None, Panicked(RedirectNoResource));
    }

    if archive.None? && !env.staleArchive {
      return Run(requests, None, None, Panicked(NothingToMove));
    }
    var placement := Store.MoveBackup(cfg.location, env.timeStr, env.locationExists, env.locationAbsolute);
    var deleteCall := Api.BuildPostRequest(Delete, cfg);
    deleteCall := deleteCall.WithBody(body);
    requests := requests + [deleteCall];
    if env.deleteResponse.None? {
      return Run(requests, archive, Some(placement), Panicked(DeleteUnreadable));
    }
    run := Run(requests, archive, Some(placement), Finished);
  }

  /** Appending well-formed calls keeps the calls from `from` on well-formed. */
  lemma CallsAppend(rs: seq<Api.Request>, extra: seq<Api.Request>, from: nat, cfg: Api.Config, body: string)
    requires from <= |rs| && CallsFrom(rs, from, cfg, body) && CallsFrom(extra, 0, cfg, body)
    ensures CallsFrom(rs + extra, from, cfg, body)
  {
    forall i | from <= i < |rs + extra|
      ensures (rs + extra)[i] == if i < |rs| then rs[i] else extra[i - |rs|]
    {
    }
  }

  /** The id-carrying calls and the plain GET are well-formed. */
  lemma OneCall(cfg: Api.Config, body: string, url: string)
    ensures CallsFrom([IdCall(Info, cfg, body)], 0, cfg, body)
    ensures CallsFrom([IdCall(Redirect, cfg, body)], 0, cfg, body)
    ensures CallsFrom([IdCall(Delete, cfg, body)], 0, cfg, body)
    ensures CallsFrom([PlainGet(url)], 0, cfg, body)
  {
  }

  /** `Finishing` keeps what was sent before it. */
  lemma FinishingPrefix(cfg: Api.Config, env: Env, sent: seq<Api.Request>, archive: Option<seq<byte>>, body: string)
    ensures sent <= Finishing(cfg, env, sent, archive, body).requests
  {
  }

  /** `AfterPolling` keeps what was sent before it and sends the redirect call first. */
  lemma AfterPollingPrefix(cfg: Api.Config, env: Env, sent: seq<Api.Request>, body: string)
    ensures sent + [IdCall(Redirect, cfg, body)] <= AfterPolling(cfg, env, sent, body).requests
  {
    var withRedirect := sent + [IdCall(Redirect, cfg, body)];
    if env.redirectBody.Some? {
      match Fetch.ClassifyRedirect(env.redirectBody.value, cfg.server)
      case DirectArchive(bytes) =>
        FinishingPrefix(cfg, env, withRedirect, Some(bytes), body);
      case FallbackGet(url) =>
        FinishingPrefix(cfg, env, withRedirect + [PlainGet(url)], env.fallbackBody, body);
      case NoArchiveWritten =>
        FinishingPrefix(cfg, env, withRedirect, None, body);
      case NotUtf8 =>
      case NoResource =>
    }
  }

  /** What `Finishing` appends is well-formed. */
  lemma FinishingCalls(cfg: Api.Config, env: Env, sent: seq<Api.Request>, archive: Option<seq<byte>>, body: string, from: nat)
    requires from <= |sent| && CallsFrom(sent, from, cfg, body)
    ensures CallsFrom(Finishing(cfg, env, sent, archive, body).requests, from, cfg, body)
  {
    if !(archive.None? && !env.staleArchive) {
      OneCall(cfg, body, "");
      CallsAppend(sent, [IdCall(Delete, cfg, body)], from, cfg, body);
    }
  }

  /** What `AfterPolling` appends is well-formed. */
  lemma AfterPollingCalls(cfg: Api.Config, env: Env, sent: seq<Api.Request>, body: string, from: nat)
    requires from <= |sent| && CallsFrom(sent, from, cfg, body)
    ensures CallsFrom(AfterPolling(cfg, env, sent, body).requests, from, cfg, body)
  {
    var withRedirect := sent + [IdCall(Redirect, cfg, body)];
    OneCall(cfg, body, "");
    CallsAppend(sent, [IdCall(Redirect, cfg, body)], from, cfg, body);
    if env.redirectBody.Some? {
      match Fetch.ClassifyRedirect(env.redirectBody.value, cfg.server)
      case DirectArchive(bytes) =>
        FinishingCalls(cfg, env, withRedirect, Some(bytes), body, from);
      case FallbackGet(url) =>
        var withGet := withRedirect + [PlainGet(url)];
        OneCall(cfg, body, url);
        CallsAppend(withRedirect, [PlainGet(url)], from, cfg, body);
        FinishingCalls(cfg, env, withGet, env.fallbackBody, body, from);
      case NoArchiveWritten =>
        FinishingCalls(cfg, env, withRedirect, None, body, from);
      case NotUtf8 =>
      case NoResource =>
    }
  }

  /** The requests up to and including the polls, when the run gets that far. */
  function Polled(cfg: Api.Config, env: Env): seq<Api.Request>
    requires JobIdOf(env).Some?
  {
    var body := IdBody(JobIdOf(env).value);
    [Api.PostRequest(ExportAll, cfg)]
      + seq(Poller.PollSpec(Poller.States(env.polls), cfg.timeout).Sent(), _ => IdCall(Info, cfg, body))
  }

  /**
   * The job id is reused: every request after the export call is either a
   * call of info, redirect or delete carrying `{"id": id}` for the id the
   * export returned, or the bare fallback GET. A run without a job id sends
   * nothing after the export call.
   */
  lemma JobIdReused(cfg: Api.Config, env: Env)
    ensures |Outcome(cfg, env).requests| >= 1
    ensures Outcome(cfg, env).requests[0] == Api.PostRequest(ExportAll, cfg)
    ensures JobIdOf(env).None? ==> |Outcome(cfg, env).requests| == 1
    ensures JobIdOf(env).Some? ==>
      CallsFrom(Outcome(cfg, env).requests, 1, cfg, IdBody(JobIdOf(env).value))
  {
    if JobIdOf(env).Some? {
      var body := IdBody(JobIdOf(env).value);
      var sent := Polled(cfg, env);
      assert CallsFrom(sent, 1, cfg, body) by {
        forall i | 1 <= i < |sent|
          ensures sent[i] == IdCall(Info, cfg, body)
        {
        }
      }
      var polled := Poller.PollSpec(Poller.States(env.polls), cfg.timeout);
      if !polled.Unreadable? && polled.timer < cfg.timeout {
        AfterPollingCalls(cfg, env, sent, body, 1);
        AfterPollingPrefix(cfg, env, sent, body);
        assert sent[0] == Outcome(cfg, env).requests[0];
      }
    }
  }

  /** `AfterPolling` and `Finishing` end the run by finishing or by a panic of their own. */
  lemma AfterPollingEnding(cfg: Api.Config, env: Env, sent: seq<Api.Request>, body: string)
    ensures var e := AfterPolling(cfg, env, sent, body).ending;
      e == Finished || (e.Panicked? && e.site in
        {RedirectUnreadable, FallbackUnreadable, RedirectNotUtf8, RedirectNoResource, NothingToMove, DeleteUnreadable})
  {
  }

  /**
   * The classifier fires exactly when the export response's `status` field
   * is the number 401, 403, 404, 429 or 500.
   */
  lemma VerdictNumericStatus(env: Env)
    ensures Verdict(env).Some? <==>
      && env.exportResponse.Some?
      && exists c: ErrorCheck.Cause :: Json.Get(env.exportResponse.value, "status") == Json.Num(ErrorCheck.Code(c))
  {
    if env.exportResponse.Some? {
      var response := env.exportResponse.value;
      ErrorCheck.ValidateRendered(Json.Get(response, "status"), ErrorText(response));
    }
  }

  /**
   * Only the export response is classified: the run ends in a classified
   * exit exactly when the classifier rejects that response, and then the
   * export call is all that was sent.
   */
  lemma ClassifiedAtExportOnly(cfg: Api.Config, env: Env)
    ensures Outcome(cfg, env).ending.Classified? <==> Verdict(env).Some?
    ensures Outcome(cfg, env).ending.Classified? ==>
      && Outcome(cfg, env).ending.exit == Verdict(env).value
      && Outcome(cfg, env).requests == [Api.PostRequest(ExportAll, cfg)]
      && Outcome(cfg, env).archive == None && Outcome(cfg, env).placement == None
  {
    if JobIdOf(env).Some? {
      AfterPollingEnding(cfg, env, Polled(cfg, env), IdBody(JobIdOf(env).value));
    }
  }

  /**
   * The poll loop: once the job id is known, one info call per poll
   * follows the export call, at most `timeout` of them, exactly as many as
   * the loop makes; an unreadable poll response panics right there.
   */
  lemma PollsBounded(cfg: Api.Config, env: Env)
    requires JobIdOf(env).Some?
    ensures var polled := Poller.PollSpec(Poller.States(env.polls), cfg.timeout);
      && Polled(cfg, env) <= Outcome(cfg, env).requests
      && |Polled(cfg, env)| == 1 + polled.Sent() && polled.Sent() <= cfg.timeout
      && (forall i | 1 <= i <= polled.Sent() ::
            Outcome(cfg, env).requests[i] == IdCall(Info, cfg, IdBody(JobIdOf(env).value)))
      && (polled.Unreadable? ==>
            Outcome(cfg, env) == Run(Polled(cfg, env), None, None, Panicked(PollUnreadable(polled.at))))
  {
    Poller.PollSpecSound(Poller.States(env.polls), cfg.timeout);
    var polled := Poller.PollSpec(Poller.States(env.polls), cfg.timeout);
    if !polled.Unreadable? && polled.timer < cfg.timeout {
      AfterPollingPrefix(cfg, env, Polled(cfg, env), IdBody(JobIdOf(env).value));
    }
    forall i | 1 <= i <= polled.Sent()
      ensures Outcome(cfg, env).requests[i] == Polled(cfg, env)[i]
    {
    }
  }

  /**
   * The timeout check ends the run exactly when the loop stopped with
   * `timer >= timeout`; nothing is sent after the last poll, and nothing is
   * written or moved.
   */
  lemma TimeoutEndsRun(cfg: Api.Config, env: Env)
    ensures Outcome(cfg, env).ending == TimedOut <==>
      JobIdOf(env).Some? && Poller.TimedOut(Poller.PollSpec(Poller.States(env.polls), cfg.timeout), cfg.timeout)
    ensures Outcome(cfg, env).ending == TimedOut ==>
      Outcome(cfg, env) == Run(Polled(cfg, env), None, None, TimedOut)
  {
    if JobIdOf(env).Some? {
      AfterPollingEnding(cfg, env, Polled(cfg, env), IdBody(JobIdOf(env).value));
    }
  }

  /**
   * The run gets past the timeout check exactly when it has a job id and
   * the first "complete" arrives at a poll index `i` with `i + 1 < timeout`.
   */
  lemma ProceedsIffCompleteInTime(cfg: Api.Config, env: Env)
    ensures Proceeds(env, cfg) <==>
      JobIdOf(env).Some? && exists i: nat :: Poller.FirstComplete(Poller.States(env.polls), i) && i + 1 < cfg.timeout
  {
    Poller.PollSpecSound(Poller.States(env.polls), cfg.timeout);
    var polled := Poller.PollSpec(Poller.States(env.polls), cfg.timeout);
    if Proceeds(env, cfg) {
      assert Poller.FirstComplete(Poller.States(env.polls), polled.timer - 1);
    }
    if exists i: nat :: Poller.FirstComplete(Poller.States(env.polls), i) && i + 1 < cfg.timeout {
      var i: nat :| Poller.FirstComplete(Poller.States(env.polls), i) && i + 1 < cfg.timeout;
      Poller.ProceedsIffEarlyComplete(Poller.States(env.polls), cfg.timeout, i);
    }
  }

  /** Past the timeout check, the redirect call comes right after the last poll. */
  lemma RedirectFollowsPolls(cfg: Api.Config, env: Env)
    requires Proceeds(env, cfg)
    ensures |Outcome(cfg, env).requests| > |Polled(cfg, env)|
    ensures Outcome(cfg, env).requests[|Polled(cfg, env)|] == IdCall(Redirect, cfg, IdBody(JobIdOf(env).value))
    ensures env.redirectBody.None? ==>
      Outcome(cfg, env) == Run(Polled(cfg, env) + [IdCall(Redirect, cfg, IdBody(JobIdOf(env).value))],
                               None, None, Panicked(RedirectUnreadable))
  {
    var sent := Polled(cfg, env);
    AfterPollingPrefix(cfg, env, sent, IdBody(JobIdOf(env).value));
    assert Outcome(cfg, env).requests[|sent|] == (sent + [IdCall(Redirect, cfg, IdBody(JobIdOf(env).value))])[|sent|];
  }

  /** Past the timeout check, the run is `AfterPolling` on the polled requests. */
  lemma ProceedsUnfold(cfg: Api.Config, env: Env)
    requires Proceeds(env, cfg)
    ensures Outcome(cfg, env) == AfterPolling(cfg, env, Polled(cfg, env), IdBody(JobIdOf(env).value))
    ensures PostsOnly(Polled(cfg, env))
  {
    PolledPosts(cfg, env);
  }

  /** The export and info calls are all POSTs. */
  lemma PolledPosts(cfg: Api.Config, env: Env)
    requires JobIdOf(env).Some?
    ensures PostsOnly(Polled(cfg, env))
  {
  }

  /** `AfterPolling`'s treatment of a redirect body that was read, relative to what was sent before. */
  lemma AfterPollingFetch(cfg: Api.Config, env: Env, sent: seq<Api.Request>, body: string)
    requires env.redirectBody.Some? && PostsOnly(sent)
    ensures var run := AfterPolling(cfg, env, sent, body);
      var at := |sent| + 1;
      match Fetch.ClassifyRedirect(env.redirectBody.value, cfg.server)
      case DirectArchive(bytes) => run.archive == Some(bytes) && PostsOnly(run.requests)
      case FallbackGet(url) =>
        && |run.requests| > at && run.requests[at] == PlainGet(url)
        && run.archive == Some(if env.fallbackBody.Some? then env.fallbackBody.value else [])
        && (env.fallbackBody.None? ==> run.ending == Panicked(FallbackUnreadable))
      case NoArchiveWritten =>
        && run.archive == None && PostsOnly(run.requests)
        && (!env.staleArchive ==> run.ending == Panicked(NothingToMove))
      case NotUtf8 => run.archive == None && run.ending == Panicked(RedirectNotUtf8)
      case NoResource => run.archive == None && run.ending == Panicked(RedirectNoResource)
  {
    var withRedirect := sent + [IdCall(Redirect, cfg, body)];
    assert PostsOnly(withRedirect);
    match Fetch.ClassifyRedirect(env.redirectBody.value, cfg.server)
    case DirectArchive(bytes) =>
      assert PostsOnly(withRedirect + [IdCall(Delete, cfg, body)]);
    case FallbackGet(url) =>
      FinishingPrefix(cfg, env, withRedirect + [PlainGet(url)], env.fallbackBody, body);
      assert (withRedirect + [PlainGet(url)])[|withRedirect|] == PlainGet(url);
    case NoArchiveWritten =>
      assert PostsOnly(withRedirect + [IdCall(Delete, cfg, body)]);
    case NotUtf8 =>
    case NoResource =>
  }

  /**
   * What happens to the redirect body. A body of at least 900 bytes is the
   * archive, byte for byte, and no GET is sent. A fallback url is fetched
   * with a bare GET right after the redirect call, and its body becomes the
   * archive (the file is created empty before the GET). A short body
   * without the marker writes nothing, sends no GET and does not end the
   * run: `move_backup` then panics unless an older outline-backup.zip is
   * there. A body that is not UTF-8, or has the marker but no `<Resource>`,
   * panics.
   */
  lemma RedirectOutcomes(cfg: Api.Config, env: Env)
    requires Fetched(env, cfg).Some?
    ensures var run := Outcome(cfg, env);
      var at := |Polled(cfg, env)| + 1;
      match Fetched(env, cfg).value
      case DirectArchive(bytes) => run.archive == Some(bytes) && PostsOnly(run.requests)
      case FallbackGet(url) =>
        && |run.requests| > at && run.requests[at] == PlainGet(url)
        && run.archive == Some(if env.fallbackBody.Some? then env.fallbackBody.value else [])
        && (env.fallbackBody.None? ==> run.ending == Panicked(FallbackUnreadable))
      case NoArchiveWritten =>
        && run.archive == None && PostsOnly(run.requests)
        && (!env.staleArchive ==> run.ending == Panicked(NothingToMove))
      case NotUtf8 => run.archive == None && run.ending == Panicked(RedirectNotUtf8)
      case NoResource => run.archive == None && run.ending == Panicked(RedirectNoResource)
  {
    ProceedsUnfold(cfg, env);
    AfterPollingFetch(cfg, env, Polled(cfg, env), IdBody(JobIdOf(env).value));
  }

  /** `Finishing` moves exactly when there is a file to move, and then sends the delete call last. */
  lemma FinishingMoves(cfg: Api.Config, env: Env, sent: seq<Api.Request>, archive: Option<seq<byte>>, body: string)
    ensures var run := Finishing(cfg, env, sent, archive, body);
      && (run.placement.Some? <==> archive.Some? || env.staleArchive)
      && (run.placement.Some? ==>
            && run.placement == Some(Store.MoveBackup(cfg.location, env.timeStr, env.locationExists, env.locationAbsolute))
            && |run.requests| >= 1 && run.requests[|run.requests| - 1] == IdCall(Delete, cfg, body))
      && (run.ending == Finished <==> run.placement.Some? && env.deleteResponse.Some?)
  {
  }

  /** `AfterPolling` moves exactly when the fetch did not panic and there is a file to move. */
  lemma AfterPollingMoves(cfg: Api.Config, env: Env, sent: seq<Api.Request>, body: string)
    ensures var run := AfterPolling(cfg, env, sent, body);
      && (run.placement.Some? <==>
            env.redirectBody.Some? && Moves(Fetch.ClassifyRedirect(env.redirectBody.value, cfg.server), env))
      && (run.placement.Some? ==>
            && run.placement == Some(Store.MoveBackup(cfg.location, env.timeStr, env.locationExists, env.locationAbsolute))
            && |run.requests| >= 1 && run.requests[|run.requests| - 1] == IdCall(Delete, cfg, body))
      && (run.ending == Finished <==> run.placement.Some? && env.deleteResponse.Some?)
  {
    var withRedirect := sent + [IdCall(Redirect, cfg, body)];
    if env.redirectBody.Some? {
      match Fetch.ClassifyRedirect(env.redirectBody.value, cfg.server)
      case DirectArchive(bytes) =>
        FinishingMoves(cfg, env, withRedirect, Some(bytes), body);
      case FallbackGet(url) =>
        FinishingMoves(cfg, env, withRedirect + [PlainGet(url)], env.fallbackBody, body);
      case NoArchiveWritten =>
        FinishingMoves(cfg, env, withRedirect, None, body);
      case NotUtf8 =>
      case NoResource =>
    }
  }

  /**
   * `move_backup` runs exactly when the fetch did not panic and
   * outline-backup.zip is there to move; it performs the move `MoveBackup`
   * decides, and the delete call is then the last request. The run
   * finishes exactly when the delete response is read as well.
   */
  lemma MoveThenDelete(cfg: Api.Config, env: Env)
    ensures Outcome(cfg, env).placement.Some? <==>
      Fetched(env, cfg).Some? && Moves(Fetched(env, cfg).value, env)
    ensures Outcome(cfg, env).placement.Some? ==>
      && Outcome(cfg, env).placement
           == Some(Store.MoveBackup(cfg.location, env.timeStr, env.locationExists, env.locationAbsolute))
      && JobIdOf(env).Some? && |Outcome(cfg, env).requests| >= 1
      && Outcome(cfg, env).requests[|Outcome(cfg, env).requests| - 1]
           == IdCall(Delete, cfg, IdBody(JobIdOf(env).value))
    ensures Outcome(cfg, env).ending == Finished <==>
      Outcome(cfg, env).placement.Some? && env.deleteResponse.Some?
  {
    if Proceeds(env, cfg) {
      ProceedsUnfold(cfg, env);
      AfterPollingMoves(cfg, env, Polled(cfg, env), IdBody(JobIdOf(env).value));
    }
  }

  /**
   * The exit status: 0 exactly when the run finishes, 1 for a classified
   * failure or a timeout, 101 for a panic.
   */
  lemma ExitStatus(cfg: Api.Config, env: Env)
    ensures ExitCode(Outcome(cfg, env).ending) == 0 <==> Outcome(cfg, env).ending == Finished
    ensures Outcome(cfg, env).ending.Classified? || Outcome(cfg, env).ending == TimedOut
      ==> ExitCode(Outcome(cfg, env).ending) == 1
    ensures Outcome(cfg, env).ending.Panicked? ==> ExitCode(Outcome(cfg, env).ending) == 101
  {
    ClassifiedAtExportOnly(cfg, env);
  }
}
