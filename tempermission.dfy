/**
 * tempermission.rs: the guard every game-directory write goes through. It
 * checks that the requested game root is the configured one, then reports the
 * operation on the frontend's event channel: `Started`, whatever the action
 * sends itself, and one `Finished` carrying whether the action succeeded.
 *
 * The action is given as an `ActionRun`: the progress events it sends, the
 * result it returns, and whether the frontend still listens when it returns.
 * What the action does to the game directory is modelled by the command it
 * stands for, not here.
 */
module TempPermission {
  import opened Base
  import opened Paths
  import opened Disk
  import Config

  datatype ModOperationEvent =
    | Started(operation: string, modName: string)
    | Progress(operation: string, modName: string, progress: real, message: string)
    | Finished(operation: string, modName: string, success: bool, message: string)

  datatype GuardError =
    | ConfigUnreadable(cause: Config.ConfigError)
    | ConfigMissing
    | RootMismatch(requested: Path, configured: Path)
    | StartNotSent
    | FinishNotSent
    | ActionFailed(message: string)

  /** The frontend's event channel: what it has received, and whether it still receives. */
  class Channel {
    var delivered: seq<ModOperationEvent>
    var open: bool

    constructor ()
      ensures delivered == [] && open
    {
      delivered := [];
      open := true;
    }

    /** `Channel::send`: delivered while the channel is open, an error once it is closed. */
    method Send(event: ModOperationEvent) returns (ok: bool)
      modifies this
      ensures ok == old(open) && open == old(open)
      ensures delivered == old(delivered) + (if ok then [event] else [])
    {
      ok := open;
      if open {
        delivered := delivered + [event];
      }
    }

    /** The frontend stops listening. */
    method Close()
      modifies this
      ensures !open && delivered == old(delivered)
    {
      open := false;
    }
  }

  /** One run of the guarded action, as seen from the channel and the caller. */
  datatype ActionRun<R> = ActionRun(progress: seq<ModOperationEvent>, result: Result<R, string>, openAfter: bool)

  /** The progress events of `run` that reach a channel that is `open` when the action starts. */
  function ActionEvents<R>(run: ActionRun<R>, open: bool): seq<ModOperationEvent>
  {
    if open then run.progress else []
  }

  /** The action: its progress events are sent (a failed send is not its concern), then it returns. */
  method RunAction<R>(channel: Channel, run: ActionRun<R>) returns (r: Result<R, string>)
    modifies channel
    ensures r == run.result
    ensures channel.delivered == old(channel.delivered) + ActionEvents(run, old(channel.open))
    ensures channel.open == (old(channel.open) && run.openAfter)
  {
    var i := 0;
    while i < |run.progress|
      invariant 0 <= i <= |run.progress|
      invariant channel.open == old(channel.open)
      invariant channel.delivered == old(channel.delivered) + (if channel.open then run.progress[..i] else [])
    {
      assert run.progress[..i + 1] == run.progress[..i] + [run.progress[i]];
      var sent := channel.Send(run.progress[i]);
      i := i + 1;
    }
    assert run.progress[..i] == run.progress;
    if !run.openAfter {
      channel.Close();
    }
    r := run.result;
  }

  /** The `message` of the `Finished` event. */
  function FinishMessage<R>(operation: string, modName: string, result: Result<R, string>): string
  {
    match result
    case Ok(_) => "Successfully " + operation + " mod '" + modName + "'"
    case Err(e) => "Failed to " + operation + " mod '" + modName + "': " + e
  }

  /**
   * Step 1: the configuration must be readable, present, and name `gameRoot`
   * (compared as paths, component by component, a leading `.` included).
   */
  function CheckRoot(config: Result<Option<Config.GameData>, Config.ConfigError>, gameRoot: string): (r: Result<Unit, GuardError>)
    ensures r.Ok? <==> config.Ok? && config.value.Some? && SamePath(config.value.value.gameRootPath, gameRoot)
    ensures config.Err? ==> r == Err(ConfigUnreadable(config.error))
    ensures config == Ok(None) ==> r == Err(ConfigMissing)
    ensures config.Ok? && config.value.Some? && LeadingCurDir(config.value.value.gameRootPath) != LeadingCurDir(gameRoot)
            ==> r.Err? && r.error.RootMismatch?
    ensures r.Err? && r.error.RootMismatch? ==>
      r.error.requested == Parse(gameRoot) && r.error.configured == Parse(config.value.value.gameRootPath)
  {
    match config
    case Err(e) => Err(ConfigUnreadable(e))
    case Ok(None) => Err(ConfigMissing)
    case Ok(Some(data)) =>
      if !SamePath(data.gameRootPath, gameRoot) then Err(RootMismatch(Parse(gameRoot), Parse(data.gameRootPath)))
      else Ok(Unit)
  }

  /** What one guarded call sends, returns, and whether it ran the action. */
  datatype Guarded<R> = Guarded(events: seq<ModOperationEvent>, result: Result<R, GuardError>, actionRan: bool)

  /** The result of the action as the guard reports it. */
  function Passed<R>(result: Result<R, string>): Result<R, GuardError>
  {
    match result
    case Ok(v) => Ok(v)
    case Err(m) => Err(ActionFailed(m))
  }

  /**
   * `with_game_dir_write_access` given the loaded configuration and whether the
   * channel is open on entry.
   */
  function GuardedRun<R>(config: Result<Option<Config.GameData>, Config.ConfigError>, gameRoot: string, open: bool,
                         operation: string, modName: string, run: ActionRun<R>): Guarded<R>
  {
    match CheckRoot(config, gameRoot)
    case Err(e) => Guarded([], Err(e), false)
    case Ok(_) =>
      if !open then Guarded([], Err(StartNotSent), false)
      else
        var started := [Started(operation, modName)] + run.progress;
        if !run.openAfter then Guarded(started, Err(FinishNotSent), true)
        else
          var finished := Finished(operation, modName, run.result.Ok?, FinishMessage(operation, modName, run.result));
          Guarded(started + [finished], Passed(run.result), true)
  }

  /**
   * `with_game_dir_write_access`: the configuration is loaded (a corrupt one is
   * moved aside, hence the new disk), the root checked, `Started` sent, the
   * action run, and `Finished` sent.
   */
  method WithGameDirWriteAccess<R>(fs: FileSystem, configDir: Path, decode: string -> Option<Config.GameData>, secs: nat,
                                   gameRoot: string, channel: Channel, operation: string, modName: string,
                                   run: ActionRun<R>)
    returns (fs': FileSystem, r: Result<R, GuardError>, ran: bool)
    modifies channel
    ensures fs' == Config.LoadConfig(fs, configDir, decode, secs).fs
    ensures var g := GuardedRun(Config.LoadConfig(fs, configDir, decode, secs).result, gameRoot, old(channel.open),
                                operation, modName, run);
            && channel.delivered == old(channel.delivered) + g.events
            && r == g.result
            && ran == g.actionRan
  {
    var loaded := Config.LoadConfig(fs, configDir, decode, secs);
    fs' := loaded.fs;
    ran := false;
    var check := CheckRoot(loaded.result, gameRoot);
    if check.Err? {
      return fs', Err(check.error), false;
    }
    var startSent := channel.Send(Started(operation, modName));
    if !startSent {
      return fs', Err(StartNotSent), false;
    }
    var result := RunAction(channel, run);
    ran := true;
    var finishSent := channel.Send(Finished(operation, modName, result.Ok?, FinishMessage(operation, modName, result)));
    if !finishSent {
      return fs', Err(FinishNotSent), true;
    }
    r := Passed(result);
  }

  // ---------------------------------------------------------------------------
  // Properties of the guard
  // ---------------------------------------------------------------------------

  /** The number of `Finished` events in `events`. */
  function CountFinished(events: seq<ModOperationEvent>): nat
  {
    if events == [] then 0
    else CountFinished(events[..|events| - 1]) + (if events[|events| - 1].Finished? then 1 else 0)
  }

  lemma {:induction false} CountFinishedAppend(a: seq<ModOperationEvent>, b: seq<ModOperationEvent>)
    decreases |b|
    ensures CountFinished(a + b) == CountFinished(a) + CountFinished(b)
  {
    if b != [] {
      assert (a + b)[..|a + b| - 1] == a + b[..|b| - 1];
      CountFinishedAppend(a, b[..|b| - 1]);
    } else {
      assert a + b == a;
    }
  }

  lemma {:induction false} NoFinishedAmong(events: seq<ModOperationEvent>)
    requires forall i :: 0 <= i < |events| ==> !events[i].Finished?
    ensures CountFinished(events) == 0
  {
    if events != [] {
      NoFinishedAmong(events[..|events| - 1]);
    }
  }

  /**
   * A call rejected by the configuration check sends nothing, does not run the
   * action and fails with the root check's error: no configuration, an unreadable
   * one, or a root other than the configured one.
   */
  lemma RejectedSendsNothing<R>(config: Result<Option<Config.GameData>, Config.ConfigError>, gameRoot: string, open: bool,
                                operation: string, modName: string, run: ActionRun<R>)
    requires CheckRoot(config, gameRoot).Err?
    ensures var g := GuardedRun(config, gameRoot, open, operation, modName, run);
      && g.events == []
      && !g.actionRan
      && g.result == Err(CheckRoot(config, gameRoot).error)
  {
  }

  /**
   * The action runs exactly when the root check passes and `Started` is delivered;
   * then `Started` is the first event sent, before anything the action sends.
   */
  lemma StartedBeforeAction<R>(config: Result<Option<Config.GameData>, Config.ConfigError>, gameRoot: string, open: bool,
                               operation: string, modName: string, run: ActionRun<R>)
    ensures var g := GuardedRun(config, gameRoot, open, operation, modName, run);
      && (g.actionRan <==> CheckRoot(config, gameRoot).Ok? && open)
      && (CheckRoot(config, gameRoot).Ok? && !open ==> g == Guarded([], Err(StartNotSent), false))
      && (g.actionRan ==> |g.events| > |run.progress| && g.events[0] == Started(operation, modName)
                          && g.events[1..1 + |run.progress|] == run.progress)
  {
  }

  /**
   * Once the action has run, exactly one `Finished` is sent when the channel
   * still receives, as the last event, and its `success` says whether the action
   * returned `Ok`; the caller gets the action's own result. When the channel no
   * longer receives, no `Finished` arrives and the call fails. (The action is
   * taken to send only progress, never `Finished` itself.)
   */
  lemma ExactlyOneFinished<R>(config: Result<Option<Config.GameData>, Config.ConfigError>, gameRoot: string, open: bool,
                              operation: string, modName: string, run: ActionRun<R>)
    requires forall i :: 0 <= i < |run.progress| ==> !run.progress[i].Finished?
    ensures var g := GuardedRun(config, gameRoot, open, operation, modName, run);
      && CountFinished(g.events) == (if g.actionRan && run.openAfter then 1 else 0)
      && (g.actionRan && run.openAfter ==>
            && g.events[|g.events| - 1].Finished?
            && g.events[|g.events| - 1].success == run.result.Ok?
            && (g.result.Ok? <==> run.result.Ok?)
            && (run.result.Ok? ==> g.result.value == run.result.value)
            && (run.result.Err? ==> g.result == Err(ActionFailed(run.result.error))))
      && (g.actionRan && !run.openAfter ==> g.result == Err(FinishNotSent))
  {
    var g := GuardedRun(config, gameRoot, open, operation, modName, run);
    var started := [Started(operation, modName)] + run.progress;
    NoFinishedAmong(started) by {
      forall i | 0 <= i < |started|
        ensures !started[i].Finished?
      {
        if i > 0 {
          assert started[i] == run.progress[i - 1];
        }
      }
    }
    if g.actionRan && run.openAfter {
      var finished := Finished(operation, modName, run.result.Ok?, FinishMessage(operation, modName, run.result));
      assert g.events == started + [finished];
      CountFinishedAppend(started, [finished]);
      assert [finished][..0] == [];
    } else if !g.actionRan {
      assert g.events == [];
    }
  }
}
