/** index.js: how the main process decides whether to start the Minima node,
    starts it, reads its output, answers the renderer's requests and quits.
    Everything outside the process (ports, the jar on disk, the `java -version`
    probe, the keychain, dialogs) is a parameter. */
module Supervisor {
  import opened Wrappers
  import opened Text
  import opened Ipc
  import opened Js
  import Settings

  const MinimaPort := 9001
  const MdsPort := 9003
  const SslReady := "SSL server started on port 9003"
  const DatabaseFailure := "SERIOUS ERROR loadAllDB"

  // ---------------------------------------------------------------- port probe

  /** How `server.listen(port)` ends: it listens, or it fails with an error code. */
  datatype ListenOutcome = Listening | ListenError(code: string)

  /** `isPortInUse`: in use exactly when listening failed with EADDRINUSE; a
      successful listen (the server is closed again) and every other error
      count as free. */
  function PortInUse(o: ListenOutcome): (inUse: bool)
    ensures inUse <==> o.ListenError? && o.code == "EADDRINUSE"
    ensures o.Listening? ==> !inUse
  {
    match o
    case Listening => false
    case ListenError(code) => code == "EADDRINUSE"
  }

  /** One probe of both ports, 9001 and 9003. */
  datatype PortProbe = PortProbe(minima: ListenOutcome, mds: ListenOutcome)

  /** The node counts as running when either port is in use. */
  predicate Running(p: PortProbe) {
    PortInUse(p.minima) || PortInUse(p.mds)
  }

  /** `killExistingMinima` after the kill command: probe both ports, again and
      again, until a probe finds both free. `probes` are the probe results in
      the order they come; the loop has no bound of its own, so when every
      given probe still sees a port in use it has not resolved. */
  method KillExistingMinima(probes: seq<PortProbe>) returns (resolved: bool, checks: nat)
    ensures checks <= |probes|
    ensures resolved ==> checks > 0 && !Running(probes[checks - 1])
    ensures !resolved ==> checks == |probes|
    ensures forall j :: 0 <= j < checks && !(resolved && j == checks - 1) ==> Running(probes[j])
  {
    resolved, checks := false, 0;
    while checks < |probes| && !resolved
      invariant checks <= |probes|
      invariant resolved ==> checks > 0 && !Running(probes[checks - 1])
      invariant forall j :: 0 <= j < checks && !(resolved && j == checks - 1) ==> Running(probes[j])
    {
      resolved := !Running(probes[checks]);
      checks := checks + 1;
    }
  }

  /** Some probe in the sequence finds both ports free, so the poll resolves. */
  predicate PortsFreed(probes: seq<PortProbe>) {
    exists j :: 0 <= j < |probes| && !Running(probes[j])
  }

  // ------------------------------------------------------------------ launch

  /** How the `java -version` probe ends: its `close` event comes first with an
      exit code, the 1000 ms timer fires first, or it cannot be spawned (an
      `error` event, then a `close` with a negative code). */
  datatype JavaProbe = ProbeExited(code: int) | ProbeTimedOut | ProbeSpawnError

  /** The probe lets the launch go on when it exits with 0 or times out. */
  predicate JavaUsable(j: JavaProbe) {
    j == ProbeExited(0) || j == ProbeTimedOut
  }

  /** What `runMinima` finds when it runs. */
  datatype LaunchEnv = LaunchEnv(ports: PortProbe, jarExists: bool, java: JavaProbe)

  /** The decision `runMinima` reaches before spawning anything. */
  datatype Decision = AlreadyRunning | JarMissing | JavaMissing | JavaCheckFailed | Launch

  /** The launch preconditions in their order: ports, then the jar, then java. */
  function Decide(env: LaunchEnv): (d: Decision)
    ensures d == Launch <==> !Running(env.ports) && env.jarExists && JavaUsable(env.java)
    ensures Running(env.ports) <==> d == AlreadyRunning
    ensures d == JarMissing <==> !Running(env.ports) && !env.jarExists
    ensures d == JavaMissing <==> !Running(env.ports) && env.jarExists && env.java == ProbeSpawnError
  {
    if Running(env.ports) then AlreadyRunning
    else if !env.jarExists then JarMissing
    else if env.java == ProbeSpawnError then JavaMissing
    else if !JavaUsable(env.java) then JavaCheckFailed
    else Launch
  }

  /** What `runMinima` does that the outside sees, for each decision. */
  function LaunchEffects(paths: Paths, password: string, env: LaunchEnv): (r: seq<Effect>)
    ensures Decide(env) == Launch ==> r == [Spawn(LaunchArgs(paths, password))]
    ensures Decide(env) != Launch ==> forall e :: e in r ==> !e.Spawn?
    ensures Decide(env) == AlreadyRunning ==> r == [Send(MinimaAlreadyRunning)]
    ensures Decide(env) == JarMissing ==> r == [Alert(JarNotFound)]
    ensures Decide(env) == JavaMissing ==> r == [Alert(JavaNotAvailable)]
    ensures Decide(env) == JavaCheckFailed ==> r == []
  {
    match Decide(env)
    case AlreadyRunning => [Send(MinimaAlreadyRunning)]
    case JarMissing => [Alert(JarNotFound)]
    case JavaMissing => [Alert(JavaNotAvailable)]
    case JavaCheckFailed => []
    case Launch => [Spawn(LaunchArgs(paths, password))]
  }

  /** Where the jar and the data directory are. */
  datatype Paths = Paths(jar: string, dataDir: string)

  /** `CONFIG.PATHS`: the jar beside the packaged resources or in the working
      directory; the data directory under userData when packaged or when
      `--force-user-path` is given, else `minidata1`. */
  function ConfigPaths(packaged: bool, argv: seq<string>, resourcesPath: string, userData: string): (p: Paths)
    ensures p.jar == (if packaged then resourcesPath + "/minima.jar" else "minima.jar")
    ensures p.dataDir == (if packaged || "--force-user-path" in argv then userData + "/minidata" else "minidata1")
  {
    Paths(if packaged then resourcesPath + "/minima.jar" else "minima.jar",
          if packaged || "--force-user-path" in argv then userData + "/minidata" else "minidata1")
  }

  /** The argument vector of the node process. */
  function LaunchArgs(paths: Paths, password: string): (args: seq<string>)
    ensures |args| == 9
    ensures args[0] == "-jar" && args[1] == paths.jar
    ensures args[2] == "-data" && args[3] == paths.dataDir && args[4] == "-basefolder" && args[5] == paths.dataDir
    ensures args[6] == "-mdsenable" && args[7] == "-mdspassword" && args[8] == password
  {
    ["-jar", paths.jar, "-data", paths.dataDir, "-basefolder", paths.dataDir, "-mdsenable", "-mdspassword", password]
  }

  /** The password is handed over verbatim as the last argument; nothing in the
      launch replaces it with a placeholder. */
  lemma PasswordInArguments(paths: Paths, password: string)
    ensures LaunchArgs(paths, password)[8] == password
    ensures LaunchArgs(paths, password)[7] == "-mdspassword"
    ensures password in LaunchArgs(paths, password)
  {
  }

  // ---------------------------------------------------------- alerts and output

  /** The `alert(...)` messages the main process shows in the window. */
  datatype Notice = JarNotFound | JavaNotAvailable | StartFailed(message: string) | ExitedWithCode(code: int)


  /** The node's `close` handler: an alert for every exit code except 0 and
      null (a process ended by a signal). */
  function CloseNotice(code: Option<int>): (r: Option<Notice>)
    ensures r.Some? <==> code.Some? && code.value != 0
    ensures r.Some? ==> r.value == ExitedWithCode(code.value)
  {
    match code
    case Some(c) => if c != 0 then Some(ExitedWithCode(c)) else None
    case None => None
  }

  /** The scanner's state after some chunks: the launch's `webviewAdded` flag
      and the events sent so far. */
  datatype Scan = Scan(webviewAdded: bool, sent: seq<Event>)

  /** The stdout `data` handler on one raw chunk: the database marker sends
      `database-lock-error` and ends the handler for this chunk; otherwise the
      SSL marker sends `minima-ready` once per launch. */
  function ScanChunk(webviewAdded: bool, chunk: string): (r: Scan)
    ensures r.sent == [DatabaseLockError] <==> Contains(chunk, DatabaseFailure)
    ensures r.sent == [MinimaReady] <==> !webviewAdded && ReadyChunk(chunk)
    ensures r.sent == [] <==> !Contains(chunk, DatabaseFailure) && !(!webviewAdded && ReadyChunk(chunk))
    ensures r.webviewAdded <==> webviewAdded || ReadyChunk(chunk)
  {
    if Contains(chunk, DatabaseFailure) then Scan(webviewAdded, [DatabaseLockError])
    else if !webviewAdded && Contains(chunk, SslReady) then Scan(true, [MinimaReady])
    else Scan(webviewAdded, [])
  }

  /** The handler applied to the chunks of one launch in order. */
  function ScanAll(webviewAdded: bool, chunks: seq<string>): (r: Scan)
    ensures |r.sent| <= |chunks|
    ensures webviewAdded ==> r.webviewAdded
    decreases |chunks|
  {
    if chunks == [] then Scan(webviewAdded, [])
    else
      var first := ScanChunk(webviewAdded, chunks[0]);
      var rest := ScanAll(first.webviewAdded, chunks[1..]);
      Scan(rest.webviewAdded, first.sent + rest.sent)
  }

  function Count(events: seq<Event>, e: Event): nat {
    if events == [] then 0 else (if events[0] == e then 1 else 0) + Count(events[1..], e)
  }

  lemma {:induction false} CountAppend(a: seq<Event>, b: seq<Event>, e: Event)
    ensures Count(a + b, e) == Count(a, e) + Count(b, e)
    decreases |a|
  {
    if a == [] {
      assert a + b == b;
    } else {
      CountAppend(a[1..], b, e);
      assert (a + b)[1..] == a[1..] + b;
    }
  }

  /** A chunk that ready-fires: it carries the SSL marker and not the database marker. */
  predicate ReadyChunk(chunk: string) {
    !Contains(chunk, DatabaseFailure) && Contains(chunk, SslReady)
  }

  /** Per launch, `minima-ready` is sent at most once, exactly when some chunk
      ready-fires, and never again once the flag is set. The flag ends set
      exactly when it was set or a ready event was sent. */
  lemma {:induction false} ReadyAtMostOnce(webviewAdded: bool, chunks: seq<string>)
    ensures Count(ScanAll(webviewAdded, chunks).sent, MinimaReady) ==
      (if !webviewAdded && exists i :: 0 <= i < |chunks| && ReadyChunk(chunks[i]) then 1 else 0)
    ensures ScanAll(webviewAdded, chunks).webviewAdded <==>
      webviewAdded || exists i :: 0 <= i < |chunks| && ReadyChunk(chunks[i])
    decreases |chunks|
  {
    if chunks != [] {
      var first := ScanChunk(webviewAdded, chunks[0]);
      ReadyAtMostOnce(first.webviewAdded, chunks[1..]);
      CountAppend(first.sent, ScanAll(first.webviewAdded, chunks[1..]).sent, MinimaReady);
      if exists i :: 0 <= i < |chunks[1..]| && ReadyChunk(chunks[1..][i]) {
        var i :| 0 <= i < |chunks[1..]| && ReadyChunk(chunks[1..][i]);
        assert ReadyChunk(chunks[i + 1]);
      }
      if exists i :: 0 <= i < |chunks| && ReadyChunk(chunks[i]) {
        var i :| 0 <= i < |chunks| && ReadyChunk(chunks[i]);
        if i > 0 {
          assert ReadyChunk(chunks[1..][i - 1]);
        }
      }
    }
  }

  /** Each chunk carrying the database marker sends its own `database-lock-error`. */
  function LockChunks(chunks: seq<string>): nat {
    if chunks == [] then 0 else (if Contains(chunks[0], DatabaseFailure) then 1 else 0) + LockChunks(chunks[1..])
  }

  lemma {:induction false} LockErrorPerChunk(webviewAdded: bool, chunks: seq<string>)
    ensures Count(ScanAll(webviewAdded, chunks).sent, DatabaseLockError) == LockChunks(chunks)
    decreases |chunks|
  {
    if chunks != [] {
      var first := ScanChunk(webviewAdded, chunks[0]);
      LockErrorPerChunk(first.webviewAdded, chunks[1..]);
      CountAppend(first.sent, ScanAll(first.webviewAdded, chunks[1..]).sent, DatabaseLockError);
    }
  }

  /** A database-lock chunk suppresses the ready check for itself only: a later
      chunk with the SSL marker still sends `minima-ready`. */
  lemma LockDoesNotSuppressLaterReady(lockChunk: string, readyChunk: string)
    requires Contains(lockChunk, DatabaseFailure) && ReadyChunk(readyChunk)
    ensures ScanAll(false, [lockChunk, readyChunk]).sent == [DatabaseLockError, MinimaReady]
  {
    assert ScanChunk(false, lockChunk) == Scan(false, [DatabaseLockError]);
    assert ScanChunk(false, readyChunk) == Scan(true, [MinimaReady]);
    assert [lockChunk, readyChunk][1..] == [readyChunk];
    assert [readyChunk][1..] == [];
    assert ScanAll(false, [readyChunk]) == Scan(true, [MinimaReady]);
  }

  /** Each chunk is tested on its own: the SSL marker split anywhere over two
      non-empty chunks sends no `minima-ready`, though the output as a whole
      contains it. */
  lemma SplitMarkerMissed(first: string, second: string)
    requires first != [] && second != [] && first + second == SslReady
    ensures Count(ScanAll(false, [first, second]).sent, MinimaReady) == 0
    ensures Contains(first + second, SslReady)
  {
    assert |first| < |SslReady| && |second| < |SslReady|;
    LongerNotContained(first, SslReady);
    LongerNotContained(second, SslReady);
    var chunks := [first, second];
    ReadyAtMostOnce(false, chunks);
    assert !ReadyChunk(chunks[0]) && !ReadyChunk(chunks[1]);
    assert !exists i :: 0 <= i < |chunks| && ReadyChunk(chunks[i]);
    ContainsInfix([], first + second, []);
    assert [] + (first + second) + [] == first + second;
  }

  // --------------------------------------------------------- certificates

  /** The `certificate-error` handler accepts a certificate when the URL
      contains `127.0.0.1` or `localhost` anywhere. */
  function AcceptCertificate(url: string): (ok: bool)
    ensures ok <==> exists i :: OccursAt(url, "127.0.0.1", i) || OccursAt(url, "localhost", i)
  {
    ContainsAt(url, "127.0.0.1");
    ContainsAt(url, "localhost");
    Contains(url, "127.0.0.1") || Contains(url, "localhost")
  }

  /** The webview's own address is accepted. */
  lemma WebviewCertificateAccepted()
    ensures AcceptCertificate(WebviewSrc)
  {
    ContainsInfix("https://", "127.0.0.1", ":9003");
  }

  /** Any URL that merely contains `localhost`, in its path or elsewhere, is accepted too. */
  lemma {:induction false} LocalhostAnywhereAccepted(prefix: string, suffix: string)
    ensures AcceptCertificate(prefix + "localhost" + suffix)
  {
    ContainsInfix(prefix, "localhost", suffix);
  }

  /** A text too short to hold either loopback name is refused. */
  lemma {:induction false} ShortHostRefused(host: string)
    requires |host| < 9
    ensures !AcceptCertificate(host)
  {
    LongerNotContained(host, "127.0.0.1");
    LongerNotContained(host, "localhost");
  }

  // ------------------------------------------------------------ quit choice

  /** `quitBehavior` as the `before-quit` handler reads it: `'ask'` unless the
      file exists, parses, and holds a truthy `quitBehavior`. */
  function QuitBehavior(file: Settings.SettingsFile): (q: JsValue)
    ensures Truthy(q)
    ensures !(file.Stored? && file.text.Json?) ==> q == Str("ask")
    ensures file.Stored? && file.text.Json? && Get(file.text.v, "quitBehavior").None? ==> q == Str("ask")
    ensures file.Stored? && file.text.Json? && Get(file.text.v, "quitBehavior").Some? ==>
      var b := Get(file.text.v, "quitBehavior").value;
      (Truthy(b) ==> q == b) && (!Truthy(b) ==> q == Str("ask"))
  {
    match file
    case Stored(Json(v)) =>
      (match Get(v, "quitBehavior")
       case Some(b) => Or(b, Str("ask"))
       case None => Str("ask"))
    case _ => Str("ask")
  }

  /** The saved preference as a dialog button index: minimize 0, quit 1, kill 2,
      anything else 0. */
  function PreferenceIndex(q: JsValue): (r: nat)
    ensures r <= 2
    ensures r == 1 <==> q == Str("quit")
    ensures r == 2 <==> q == Str("kill")
  {
    if q == Str("quit") then 1 else if q == Str("kill") then 2 else 0
  }

  /** The response the handler acts on: the dialog's button when asking, else the saved preference. */
  function QuitResponse(file: Settings.SettingsFile, dialogButton: int): (r: int)
    ensures QuitBehavior(file) == Str("ask") ==> r == dialogButton
    ensures QuitBehavior(file) != Str("ask") ==> 0 <= r <= 2 && r == PreferenceIndex(QuitBehavior(file))
  {
    var q := QuitBehavior(file);
    if q == Str("ask") then dialogButton else PreferenceIndex(q)
  }

  /** What the settings window saves is what the next quit acts on. */
  lemma {:induction false} SavedPreferenceDecidesQuit(f: Settings.Form, dialogButton: int)
    ensures f.quitBehavior == "minimize" ==> QuitResponse(Settings.Stored(Json(Settings.FormJson(f))), dialogButton) == 0
    ensures f.quitBehavior == "quit" ==> QuitResponse(Settings.Stored(Json(Settings.FormJson(f))), dialogButton) == 1
    ensures f.quitBehavior == "kill" ==> QuitResponse(Settings.Stored(Json(Settings.FormJson(f))), dialogButton) == 2
    ensures f.quitBehavior in {"ask", ""} ==> QuitResponse(Settings.Stored(Json(Settings.FormJson(f))), dialogButton) == dialogButton
  {
    var v := Settings.FormJson(f);
    assert Get(v, "quitBehavior") == Some(Str(f.quitBehavior));
  }

  // ------------------------------------------------------------ processes

  /** A spawned node process: its arguments, the `killed` flag, the launch's
      `webviewAdded` flag, and the termination signals sent to it. */
  class NodeProcess {
    const args: seq<string>
    var killed: bool
    var webviewAdded: bool
    var signals: nat

    constructor (args: seq<string>)
      ensures this.args == args && !killed && !webviewAdded && signals == 0
    {
      this.args := args;
      killed := false;
      webviewAdded := false;
      signals := 0;
    }

    /** `kill()`: send the termination signal and mark the process killed. */
    method Kill()
      modifies this
      ensures killed && signals == old(signals) + 1 && webviewAdded == old(webviewAdded)
    {
      killed := true;
      signals := signals + 1;
    }
  }

  /** What the main process does that the outside sees, in order. */
  datatype Effect =
    | Send(event: Event)          // `webContents.send`
    | Alert(notice: Notice)       // `alert(...)` in the window
    | Spawn(args: seq<string>)    // `spawn('java', args)` for the node
    | SavePassword(password: string)
    | KillCommand                 // `pkill`/`taskkill` of any Minima java process
    | HideWindow
    | Quit                        // `app.quit()`

  function Sends(events: seq<Event>): (r: seq<Effect>)
    ensures |r| == |events|
    ensures forall i :: 0 <= i < |events| ==> r[i] == Send(events[i])
  {
    seq(|events|, i requires 0 <= i < |events| => Send(events[i]))
  }

  /** The main process: the keychain entry, `global.java`, the quitting flag
      and the trace of effects. */
  class MainProcess {
    const paths: Paths
    var keychain: Option<string>
    var java: NodeProcess?
    var isQuitting: bool
    var effects: seq<Effect>

    constructor (paths: Paths, keychain: Option<string>)
      ensures this.paths == paths && this.keychain == keychain
      ensures java == null && !isQuitting && effects == []
    {
      this.paths := paths;
      this.keychain := keychain;
      java := null;
      isQuitting := false;
      effects := [];
    }

    /** `runMinima`: check the ports, the jar and java in that order, and
        spawn the node only when all three pass. */
    method RunMinima(password: string, env: LaunchEnv)
      modifies this
      ensures keychain == old(keychain) && isQuitting == old(isQuitting)
      ensures effects == old(effects) + LaunchEffects(paths, password, env)
      ensures Decide(env) != Launch ==> java == old(java)
      ensures Decide(env) == Launch ==>
        fresh(java) && java.args == LaunchArgs(paths, password) && !java.killed && !java.webviewAdded
    {
      if Running(env.ports) {
        effects := effects + [Send(MinimaAlreadyRunning)];
        return;
      }
      if !env.jarExists {
        effects := effects + [Alert(JarNotFound)];
        return;
      }
      var args := LaunchArgs(paths, password);
      match env.java {
        case ProbeSpawnError =>
          effects := effects + [Alert(JavaNotAvailable)];
        case ProbeExited(code) =>
          if code == 0 {
            Start(args);
          }
        case ProbeTimedOut =>
          Start(args);
      }
    }

    /** Spawn the node and store it as `global.java`. */
    method Start(args: seq<string>)
      modifies this
      ensures fresh(java) && java.args == args && !java.killed && !java.webviewAdded
      ensures effects == old(effects) + [Spawn(args)]
      ensures keychain == old(keychain) && isQuitting == old(isQuitting)
    {
      java := new NodeProcess(args);
      effects := effects + [Spawn(args)];
    }

    /** The node's stdout `data` handler, with the flag of the launch that spawned `p`. */
    method OnStdout(p: NodeProcess, chunk: string)
      modifies this, p
      ensures p.webviewAdded == ScanChunk(old(p.webviewAdded), chunk).webviewAdded
      ensures effects == old(effects) + Sends(ScanChunk(old(p.webviewAdded), chunk).sent)
      ensures p.killed == old(p.killed) && p.signals == old(p.signals)
      ensures java == old(java) && keychain == old(keychain) && isQuitting == old(isQuitting)
    {
      var r := ScanChunk(p.webviewAdded, chunk);
      p.webviewAdded := r.webviewAdded;
      effects := effects + Sends(r.sent);
    }

    /** The node's `error` handler. */
    method OnNodeError(message: string)
      modifies this
      ensures effects == old(effects) + [Alert(StartFailed(message))]
      ensures java == old(java) && keychain == old(keychain) && isQuitting == old(isQuitting)
    {
      effects := effects + [Alert(StartFailed(message))];
    }

    /** The node's `close` handler. */
    method OnNodeClose(code: Option<int>)
      modifies this
      ensures effects == old(effects) + (if CloseNotice(code).Some? then [Alert(CloseNotice(code).value)] else [])
      ensures java == old(java) && keychain == old(keychain) && isQuitting == old(isQuitting)
    {
      var n := CloseNotice(code);
      if n.Some? {
        effects := effects + [Alert(n.value)];
      }
    }

    /** `initializeMinima`: with a port in use, offer the running instance;
        else launch with the stored password, or ask for one. */
    method InitializeMinima(ports: PortProbe, readSucceeds: bool, env: LaunchEnv)
      modifies this
      ensures keychain == old(keychain) && isQuitting == old(isQuitting)
      ensures Running(ports) ==> effects == old(effects) + [Send(MinimaAlreadyRunning)] && java == old(java)
      ensures !Running(ports) && !HasPassword(readSucceeds) ==>
        effects == old(effects) + [Send(ShowPasswordPrompt)] && java == old(java)
      ensures !Running(ports) && HasPassword(readSucceeds) ==>
        effects == old(effects) + LaunchEffects(paths, keychain.value, env)
      ensures !Running(ports) && HasPassword(readSucceeds) && Decide(env) != Launch ==> java == old(java)
      ensures !Running(ports) && HasPassword(readSucceeds) && Decide(env) == Launch ==>
        fresh(java) && java.args == LaunchArgs(paths, keychain.value) && !java.killed && !java.webviewAdded
    {
      if Running(ports) {
        effects := effects + [Send(MinimaAlreadyRunning)];
        return;
      }
      LaunchWithStoredPassword(readSucceeds, env);
    }

    /** `passwordManager.get()` is truthy: the read succeeds and finds a non-empty password. */
    ghost predicate HasPassword(readSucceeds: bool)
      reads this
    {
      readSucceeds && keychain.Some? && keychain.value != ""
    }

    /** Launch with the stored password, or send `show-password-prompt`. */
    method LaunchWithStoredPassword(readSucceeds: bool, env: LaunchEnv)
      modifies this
      ensures keychain == old(keychain) && isQuitting == old(isQuitting)
      ensures !HasPassword(readSucceeds) ==>
        effects == old(effects) + [Send(ShowPasswordPrompt)] && java == old(java)
      ensures HasPassword(readSucceeds) ==>
        effects == old(effects) + LaunchEffects(paths, keychain.value, env)
      ensures HasPassword(readSucceeds) && Decide(env) != Launch ==> java == old(java)
      ensures HasPassword(readSucceeds) && Decide(env) == Launch ==>
        fresh(java) && java.args == LaunchArgs(paths, keychain.value) && !java.killed && !java.webviewAdded
    {
      var password := if readSucceeds then keychain else None;
      if password.Some? && password.value != "" {
        RunMinima(password.value, env);
      } else {
        effects := effects + [Send(ShowPasswordPrompt)];
      }
    }

    /** `connect-to-minima` and `reload-webview`: send `minima-ready`. */
    method ConnectToMinima()
      modifies this
      ensures effects == old(effects) + [Send(MinimaReady)]
      ensures java == old(java) && keychain == old(keychain) && isQuitting == old(isQuitting)
    {
      effects := effects + [Send(MinimaReady)];
    }

    method ReloadWebview()
      modifies this
      ensures effects == old(effects) + [Send(MinimaReady)]
      ensures java == old(java) && keychain == old(keychain) && isQuitting == old(isQuitting)
    {
      effects := effects + [Send(MinimaReady)];
    }

    /** `set-password`: an empty input sends `password-error`; otherwise the
        password is saved and then used to launch. A failing save ends the
        handler before the launch. */
    method SetPassword(input: string, saveSucceeds: bool, env: LaunchEnv)
      modifies this
      ensures isQuitting == old(isQuitting)
      ensures input == "" ==>
        effects == old(effects) + [Send(PasswordError(PasswordRequired))]
        && keychain == old(keychain) && java == old(java)
      ensures input != "" && !saveSucceeds ==>
        effects == old(effects) && keychain == old(keychain) && java == old(java)
      ensures input != "" && saveSucceeds ==>
        keychain == Some(input) && effects == old(effects) + [SavePassword(input)] + LaunchEffects(paths, input, env)
      ensures input != "" && saveSucceeds && Decide(env) != Launch ==> java == old(java)
      ensures input != "" && saveSucceeds && Decide(env) == Launch ==>
        fresh(java) && java.args == LaunchArgs(paths, input) && !java.killed && !java.webviewAdded
    {
      if input == "" {
        effects := effects + [Send(PasswordError(PasswordRequired))];
        return;
      }
      if !saveSucceeds {
        return;
      }
      keychain := Some(input);
      effects := effects + [SavePassword(input)];
      RunMinima(input, env);
    }

    /** `restart-minima`: run the kill command, wait until both ports are free,
        then launch with the stored password or ask for one. */
    method RestartMinima(probes: seq<PortProbe>, readSucceeds: bool, env: LaunchEnv)
      modifies this
      ensures keychain == old(keychain) && isQuitting == old(isQuitting)
      ensures (forall j :: 0 <= j < |probes| ==> Running(probes[j])) ==>
        effects == old(effects) + [KillCommand] && java == old(java)
      ensures PortsFreed(probes) && !HasPassword(readSucceeds) ==>
        effects == old(effects) + [KillCommand, Send(ShowPasswordPrompt)] && java == old(java)
      ensures PortsFreed(probes) && HasPassword(readSucceeds) ==>
        effects == old(effects) + [KillCommand] + LaunchEffects(paths, keychain.value, env)
      ensures PortsFreed(probes) && HasPassword(readSucceeds) && Decide(env) != Launch ==> java == old(java)
      ensures PortsFreed(probes) && HasPassword(readSucceeds) && Decide(env) == Launch ==>
        fresh(java) && java.args == LaunchArgs(paths, keychain.value) && !java.killed && !java.webviewAdded
    {
      effects := effects + [KillCommand];
      var resolved, checks := KillExistingMinima(probes);
      if !resolved {
        return;
      }
      LaunchWithStoredPassword(readSucceeds, env);
    }

    /** `quit-app`: ask the application to quit, which raises `before-quit`. */
    method QuitApp()
      modifies this
      ensures effects == old(effects) + [Quit]
      ensures java == old(java) && keychain == old(keychain) && isQuitting == old(isQuitting)
    {
      effects := effects + [Quit];
    }

    /** The main window's `close` event: hide instead of closing unless quitting. */
    method OnWindowClose() returns (prevented: bool)
      modifies this
      ensures prevented == !isQuitting
      ensures effects == old(effects) + (if prevented then [HideWindow] else [])
      ensures java == old(java) && keychain == old(keychain) && isQuitting == old(isQuitting)
    {
      prevented := !isQuitting;
      if prevented {
        effects := effects + [HideWindow];
      }
    }

    /** `before-quit` while not yet quitting: 0 hides the window; 1 kills
        `global.java` if it is alive and not killed, waits until both ports are
        free, then quits; 2 quits at once; other responses do nothing. */
    method BeforeQuit(file: Settings.SettingsFile, dialogButton: int, probes: seq<PortProbe>)
      modifies this, java
      ensures keychain == old(keychain) && java == old(java)
      ensures old(isQuitting) || QuitResponse(file, dialogButton) != 1 ==>
        java != null ==> java.killed == old(java.killed) && java.signals == old(java.signals)
      ensures old(isQuitting) ==> effects == old(effects) && isQuitting
      ensures !old(isQuitting) && QuitResponse(file, dialogButton) == 0 ==>
        effects == old(effects) + [HideWindow] && !isQuitting
      ensures !old(isQuitting) && QuitResponse(file, dialogButton) == 2 ==>
        effects == old(effects) + [Quit] && isQuitting
      ensures !old(isQuitting) && QuitResponse(file, dialogButton) == 1 ==>
        (java != null && !old(java.killed) ==> java.killed && java.signals == old(java.signals) + 1)
        && (java != null && old(java.killed) ==> java.signals == old(java.signals))
        && (isQuitting <==> PortsFreed(probes))
        && effects == old(effects) + (if isQuitting then [KillCommand, Quit] else [KillCommand])
      ensures !old(isQuitting) && QuitResponse(file, dialogButton) !in {0, 1, 2} ==>
        effects == old(effects) && !isQuitting
    {
      if isQuitting {
        return;
      }
      var response := QuitResponse(file, dialogButton);
      if response == 0 {
        effects := effects + [HideWindow];
      } else if response == 1 {
        if java != null && !java.killed {
          java.Kill();
        }
        effects := effects + [KillCommand];
        var resolved, checks := KillExistingMinima(probes);
        if resolved {
          isQuitting := true;
          effects := effects + [Quit];
        }
      } else if response == 2 {
        isQuitting := true;
        effects := effects + [Quit];
      }
    }
  }
}
