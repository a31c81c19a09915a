/** www/app.js: the renderer. Every handler rewrites the `#container` element;
    the first `minima-ready` removes `#container` from the document and appends
    one webview to the body. The page is a value (`Page`) with a transition
    function (`Step`); the class `RendererPage` holds the same state in fields
    and its handlers are proved to follow `Step`. */
module Renderer {
  import opened Ipc

  /** The markup `#container` holds. */
  datatype Screen =
    | Loading
    | AlreadyRunningOptions          // Connect and Restart buttons
    | LockError                      // Restart button only
    | PasswordPrompt(error: string)  // the text of `#error-message`

  /** What the user sees. */
  datatype View = LoadingView | AlreadyRunningView | DatabaseLockView | PasswordView | WebviewView

  /** The renderer's state: `#container`'s content, whether `#container` is still
      in the document, the `src` of each webview in the body, the requests sent
      to the main process and the `alert` texts shown, in order. */
  datatype Page = Page(container: Screen, attached: bool, webviews: seq<string>,
                       sent: seq<Request>, alerts: seq<string>)

  /** Everything that reaches the renderer: an event from the main process, or a
      click (or Enter in the password field, which clicks Submit). */
  datatype Input =
    | Deliver(event: Event)
    | ClickConnect
    | ClickRestart
    | SubmitPassword(value: string)

  /** The page after `DOMContentLoaded`: `showLoading()` by default. */
  const Initial := Page(Loading, true, [], [], [])

  /** A click can only happen on a button that is in the document. */
  predicate Enabled(p: Page, i: Input) {
    match i
    case Deliver(_) => true
    case ClickConnect => p.attached && p.container == AlreadyRunningOptions
    case ClickRestart => p.attached && (p.container == AlreadyRunningOptions || p.container == LockError)
    case SubmitPassword(_) => p.attached && p.container.PasswordPrompt?
  }

  function Visible(p: Page): View {
    if p.webviews != [] then WebviewView
    else match p.container
      case Loading => LoadingView
      case AlreadyRunningOptions => AlreadyRunningView
      case LockError => DatabaseLockView
      case PasswordPrompt(_) => PasswordView
  }

  /** `renderWebview`: only when no `#minima-webview` exists yet, remove
      `#container` and append the webview. */
  function RenderWebview(p: Page): (r: Page)
    ensures r.webviews != [] && r.sent == p.sent && r.alerts == p.alerts && r.container == p.container
    ensures p.webviews != [] ==> r == p
    ensures p.webviews == [] ==> !r.attached && r.webviews == [WebviewSrc]
  {
    if p.webviews == [] then p.(attached := false, webviews := [WebviewSrc]) else p
  }

  /** The `password-error` listener: nothing for an empty message; otherwise the
      text goes into `#error-message` when it is in the document, else into an alert. */
  function ShowPasswordError(p: Page, msg: string): (r: Page)
    ensures r.sent == p.sent && r.webviews == p.webviews && r.attached == p.attached
    ensures r.alerts == p.alerts || r.alerts == p.alerts + [msg]
  {
    if msg == "" then p
    else if p.attached && p.container.PasswordPrompt? then p.(container := PasswordPrompt(msg))
    else p.(alerts := p.alerts + [msg])
  }

  /** One input's effect on the page. An input that cannot happen (a click on a
      button that is not there) leaves the page as it is. */
  function Step(p: Page, i: Input): (r: Page)
    ensures !Enabled(p, i) ==> r == p
    ensures r.sent == p.sent || (!i.Deliver? && |r.sent| == |p.sent| + 1 && r.sent[..|p.sent|] == p.sent)
    ensures p.alerts <= r.alerts && |r.alerts| <= |p.alerts| + 1
    ensures p.webviews != [] ==> r.webviews == p.webviews
  {
    if !Enabled(p, i) then p
    else match i
      case Deliver(ShowPasswordPrompt) => p.(container := PasswordPrompt(""))
      case Deliver(MinimaAlreadyRunning) => p.(container := AlreadyRunningOptions)
      case Deliver(DatabaseLockError) => p.(container := LockError)
      case Deliver(MinimaReady) => RenderWebview(p)
      case Deliver(PasswordError(msg)) => ShowPasswordError(p, msg)
      case ClickConnect => p.(sent := p.sent + [ConnectToMinima], container := Loading)
      case ClickRestart => p.(sent := p.sent + [RestartMinima], container := Loading)
      case SubmitPassword(v) =>
        if v == "" then p.(container := PasswordPrompt(PasswordRequired))
        else p.(sent := p.sent + [SetPassword(v)], container := Loading)
  }

  /** Over any run, the requests and alerts only grow, by at most one per input. */
  function Run(p: Page, inputs: seq<Input>): (r: Page)
    ensures p.sent <= r.sent && |r.sent| <= |p.sent| + |inputs|
    ensures p.alerts <= r.alerts && |r.alerts| <= |p.alerts| + |inputs|
    decreases |inputs|
  {
    if inputs == [] then p else Run(Step(p, inputs[0]), inputs[1..])
  }

  /** The document holds `#container` exactly until it holds the webview, and
      at most one webview, loading the node's MDS address. */
  predicate Consistent(p: Page) {
    (p.attached <==> p.webviews == []) && (p.webviews == [] || p.webviews == [WebviewSrc])
  }

  lemma StepKeepsConsistent(p: Page, i: Input)
    requires Consistent(p)
    ensures Consistent(Step(p, i))
  {
  }

  /** However many `minima-ready` events arrive, the page never holds more than
      one webview. */
  lemma {:induction false} AtMostOneWebview(p: Page, inputs: seq<Input>)
    requires Consistent(p)
    ensures Consistent(Run(p, inputs)) && |Run(p, inputs).webviews| <= 1
    decreases |inputs|
  {
    if inputs != [] {
      StepKeepsConsistent(p, inputs[0]);
      AtMostOneWebview(Step(p, inputs[0]), inputs[1..]);
    }
  }

  /** Before the webview exists, each event from the main process selects
      exactly one view. */
  lemma EventSelectsView(p: Page, e: Event)
    requires Consistent(p) && p.attached
    ensures e == ShowPasswordPrompt ==> Visible(Step(p, Deliver(e))) == PasswordView
    ensures e == MinimaAlreadyRunning ==> Visible(Step(p, Deliver(e))) == AlreadyRunningView
    ensures e == DatabaseLockError ==> Visible(Step(p, Deliver(e))) == DatabaseLockView
    ensures e == MinimaReady ==> Visible(Step(p, Deliver(e))) == WebviewView
    ensures e.PasswordError? ==> Visible(Step(p, Deliver(e))) == Visible(p)
  {
  }

  /** `renderWebview` is idempotent. */
  lemma RenderWebviewIdempotent(p: Page)
    ensures Step(Step(p, Deliver(MinimaReady)), Deliver(MinimaReady)) == Step(p, Deliver(MinimaReady))
  {
  }

  /** Once the webview is in, it stays the view: later handlers write into the
      detached `#container`, and no button can be clicked. */
  lemma {:induction false} WebviewIsFinal(p: Page, inputs: seq<Input>)
    requires Consistent(p) && p.webviews != []
    ensures Visible(Run(p, inputs)) == WebviewView
    ensures Run(p, inputs).sent == p.sent
    decreases |inputs|
  {
    if inputs != [] {
      StepKeepsConsistent(p, inputs[0]);
      WebviewIsFinal(Step(p, inputs[0]), inputs[1..]);
    }
  }

  /** Submitting an empty password sends nothing and stays on the prompt with
      the required-password text; a non-empty one sends `set-password` with it
      and shows Loading. */
  lemma SubmitPasswordOutcome(p: Page, v: string)
    requires p.attached && p.container.PasswordPrompt?
    ensures v == "" ==> Step(p, SubmitPassword(v)) == p.(container := PasswordPrompt(PasswordRequired))
    ensures v != "" ==>
      Step(p, SubmitPassword(v)).sent == p.sent + [SetPassword(v)] && Step(p, SubmitPassword(v)).container == Loading
  {
  }

  /** The `password-error` listener: an empty message changes nothing; with
      the prompt on screen the message replaces its error text; otherwise it is
      alerted. Nothing is sent either way. */
  lemma PasswordErrorOutcome(p: Page, msg: string)
    ensures msg == "" ==> Step(p, Deliver(PasswordError(msg))) == p
    ensures msg != "" && p.attached && p.container.PasswordPrompt? ==>
      Step(p, Deliver(PasswordError(msg))) == p.(container := PasswordPrompt(msg))
    ensures msg != "" && !(p.attached && p.container.PasswordPrompt?) ==>
      Step(p, Deliver(PasswordError(msg))) == p.(alerts := p.alerts + [msg])
    ensures Step(p, Deliver(PasswordError(msg))).sent == p.sent
  {
  }

  /** The lock-error view offers Restart and not Connect; the already-running
      view offers both; each click sends its request and shows Loading. */
  lemma ButtonsPerView(p: Page)
    requires Consistent(p) && p.attached
    ensures p.container == LockError ==> !Enabled(p, ClickConnect) && Enabled(p, ClickRestart)
    ensures p.container == AlreadyRunningOptions ==> Enabled(p, ClickConnect) && Enabled(p, ClickRestart)
    ensures Enabled(p, ClickConnect) ==>
      Step(p, ClickConnect).sent == p.sent + [ConnectToMinima] && Visible(Step(p, ClickConnect)) == LoadingView
    ensures Enabled(p, ClickRestart) ==>
      Step(p, ClickRestart).sent == p.sent + [RestartMinima] && Visible(Step(p, ClickRestart)) == LoadingView
  {
  }

  /** The renderer as it runs, with the state in fields. */
  class RendererPage {
    var container: Screen
    var attached: bool
    var webviews: seq<string>
    var sent: seq<Request>
    var alerts: seq<string>

    function State(): Page
      reads this
    {
      Page(container, attached, webviews, sent, alerts)
    }

    /** `DOMContentLoaded`: the page starts on Loading. */
    constructor ()
      ensures State() == Initial
    {
      container := Loading;
      attached := true;
      webviews := [];
      sent := [];
      alerts := [];
    }

    method ShowLoading()
      modifies this
      ensures State() == old(State()).(container := Loading)
    {
      container := Loading;
    }

    /** The `show-password-prompt`, `minima-already-running` and
        `database-lock-error` listeners. */
    method OnShowPasswordPrompt()
      modifies this
      ensures State() == Step(old(State()), Deliver(ShowPasswordPrompt))
    {
      container := PasswordPrompt("");
    }

    method OnMinimaAlreadyRunning()
      modifies this
      ensures State() == Step(old(State()), Deliver(MinimaAlreadyRunning))
    {
      container := AlreadyRunningOptions;
    }

    method OnDatabaseLockError()
      modifies this
      ensures State() == Step(old(State()), Deliver(DatabaseLockError))
    {
      container := LockError;
    }

    /** The `minima-ready` listener, `renderWebview`. */
    method OnMinimaReady()
      modifies this
      ensures State() == Step(old(State()), Deliver(MinimaReady))
    {
      if webviews == [] {
        attached := false;
        webviews := webviews + [WebviewSrc];
      }
    }

    method OnPasswordError(msg: string)
      modifies this
      ensures State() == Step(old(State()), Deliver(PasswordError(msg)))
    {
      if msg != "" {
        if attached && container.PasswordPrompt? {
          container := PasswordPrompt(msg);
        } else {
          alerts := alerts + [msg];
        }
      }
    }

    method OnConnectClick()
      requires Enabled(State(), ClickConnect)
      modifies this
      ensures State() == Step(old(State()), ClickConnect)
    {
      sent := sent + [ConnectToMinima];
      ShowLoading();
    }

    method OnRestartClick()
      requires Enabled(State(), ClickRestart)
      modifies this
      ensures State() == Step(old(State()), ClickRestart)
    {
      sent := sent + [RestartMinima];
      ShowLoading();
    }

    /** The Submit button (or Enter in the password field). */
    method OnSubmitClick(value: string)
      requires Enabled(State(), SubmitPassword(value))
      modifies this
      ensures State() == Step(old(State()), SubmitPassword(value))
    {
      if value == "" {
        container := PasswordPrompt(PasswordRequired);
        return;
      }
      sent := sent + [SetPassword(value)];
      ShowLoading();
    }
  }
}
