# Minima Electron shell: supervision and UI decision logic in Dafny

This project models the decision logic of the Minima Electron shell. The shell
is a desktop wrapper that starts a local Minima node (a Java process), watches
its output, and shows one of a few screens in an embedded page. The model
covers five parts:

- **Main process** (`index.js`), in `supervisor.dfy`. The port probe, the
  kill-and-wait poll, the ordered launch checks (ports 9001/9003, then the jar,
  then `java -version`), the node's argument vector, and the stdout scanner with
  its one-shot `webviewAdded` flag. Also the close-code alerts, the IPC handlers,
  `initializeMinima`, the certificate test, and the quit flow driven by the
  saved preference. `MainProcess` holds the keychain entry, `global.java`, the
  quitting flag and the ordered trace of outside effects (events sent, alerts,
  spawns, kill commands, hide, quit). `NodeProcess` is one spawned node with its
  `killed` flag and the `webviewAdded` flag of the launch that spawned it.
- **Renderer** (`www/app.js`), in `renderer.dfy`. `Page` is the renderer's
  state: what `#container` holds, whether `#container` is still in the
  document, the webviews in the body, the requests sent and the alerts shown.
  `Step` is the transition function. The class `RendererPage` keeps the same
  state in fields, and each handler is proved to follow `Step`.
- **Installer** (`postscript.js`), in `installer.dfy`. The release-notes digest
  pattern, read exactly as a JavaScript regular expression (leftmost match, with
  the backtracking worked out). Also the redirect-following download, and the
  skip / download / verify / fall-back branches with their exit codes.
- **Reset** (`reset.js`), in `reset.dfy`. Flag parsing, the `y` answer rule,
  the data path, and the exit codes.
- **Settings** (`modules/settings.js`), in `settings.dfy`. The `get-settings`
  default record, the renderer's normalisation of a loaded record, and
  `save-settings` with the login item. Also the `settingsWindow` field kept by
  `createWindow`, the `closed` handler and `destroy`.

Shared helpers: `text.dfy` (JavaScript `includes`, ASCII lower-casing),
`js.dfy` (JSON values, truthiness, property access that throws on `null`),
`ipc.dfy` (the events and requests, the empty-password message and the webview address) and `wrappers.dfy` (Option).

Things outside the program are inputs. These are: listen outcomes on the two
ports, whether the jar exists, how the `java -version` probe ends, keychain
reads and writes that succeed or fail, dialog buttons, settings file contents,
HTTP replies and file digests.

The model follows the code where the code does less than a reader might expect:

- Each stdout chunk is tested on its own with `includes`, so a marker split over
  two chunks is never seen (`SplitMarkerMissed`).
- A database-lock chunk suppresses the ready check for that chunk only
  (`LockDoesNotSuppressLaterReady`).
- The termination poll has no bound. `KillExistingMinima` over a finite list of
  probe results reports "not resolved" when every probe still sees a port in use.
- The password goes into the node's arguments as it is (`PasswordInArguments`).
- The certificate handler accepts any URL that contains `127.0.0.1` or
  `localhost` anywhere (`LocalhostAnywhereAccepted`).
- After the first `minima-ready`, `#container` is detached. Later handlers
  write into it unseen, so the webview stays the visible view
  (`WebviewIsFinal`).
- A `closed` event for a window that `destroy()` already released sets the
  field to null even when it names a newer window. After that, `createWindow`
  opens a second window (the method `StaleClosedEvent` walks through this).
  Nothing in `index.js` calls `destroy()`.

## Model

| member | source | states |
|---|---|---|
| Text.ContainsAt | index.js:206-211 | `includes` holds exactly when the pattern occurs at some index of the chunk |
| Supervisor.PortInUse | index.js:58-73 | a port is in use exactly when listening fails with EADDRINUSE; a successful listen and every other error mean free |
| Supervisor.KillExistingMinima | index.js:95-126 | the poll resolves only at a probe that finds both 9001 and 9003 free, and every earlier probe found one in use; with no such probe it never resolves |
| Supervisor.Decide | index.js:128-181 | launch exactly when no port is in use, the jar exists and java exits 0 or times out; a busy port decides before the jar, and a missing jar before java |
| Supervisor.LaunchEffects | index.js:135-185 | a busy port sends `minima-already-running`, a missing jar or an unspawnable java raises its alert, a failed java check does nothing, and only a passed check spawns, once, with the fixed argument vector |
| Supervisor.ConfigPaths | index.js:26-27 | jar under resourcesPath when packaged, else `minima.jar`; data under userData when packaged or `--force-user-path` is given, else `minidata1` |
| Supervisor.PasswordInArguments | index.js:161-167 | the password is the ninth argument, right after `-mdspassword`, unredacted |
| Supervisor.LaunchArgs | index.js:161-167 | `-jar` with the jar path, `-data` and `-basefolder` both the data directory, then `-mdsenable -mdspassword` and the password |
| Supervisor.CloseNotice | index.js:224-231 | an exit alert exactly for a non-null, non-zero close code, carrying that code |
| Supervisor.ScanChunk | index.js:196-216 | a chunk with the lock marker sends exactly `database-lock-error`; otherwise a ready chunk before the flag is set sends exactly `minima-ready`; the flag ends set exactly when it was set or the chunk is a ready chunk |
| Supervisor.ScanAll | index.js:196-216 | at most one event per chunk, and a set flag stays set |
| Supervisor.ReadyAtMostOnce | index.js:186-215 | per launch, `minima-ready` is sent once if some chunk has the SSL marker and not the lock marker, else never; the flag ends set exactly then |
| Supervisor.LockErrorPerChunk | index.js:205-209 | every chunk with the lock marker sends its own `database-lock-error` |
| Supervisor.LockDoesNotSuppressLaterReady | index.js:205-214 | a lock chunk followed by an SSL chunk sends the lock error and then `minima-ready` |
| Supervisor.SplitMarkerMissed | index.js:196-211 | the SSL marker split over two chunks sends no `minima-ready`, though the joined output contains it |
| Supervisor.AcceptCertificate | index.js:258-264 | accepted exactly when `127.0.0.1` or `localhost` occurs at some position of the URL |
| Supervisor.WebviewCertificateAccepted | index.js:258-262 | the webview's address `https://127.0.0.1:9003` passes the certificate test |
| Supervisor.LocalhostAnywhereAccepted | index.js:258-262 | any URL with `localhost` anywhere in it passes the certificate test |
| Supervisor.ShortHostRefused | index.js:258-264 | a URL that cannot contain either loopback name is refused |
| Supervisor.QuitBehavior | index.js:566-576 | `ask` when the file is missing, unreadable or unparsable, when reading `quitBehavior` throws (a `null` record) or when the stored value is falsy; otherwise the stored value itself, whatever its type |
| Supervisor.PreferenceIndex | index.js:595-607 | `quit` gives 1 and only it; `kill` gives 2 and only it; everything else gives 0 |
| Supervisor.QuitResponse | index.js:578-608 | the dialog's button when the behaviour is `ask`, else the saved preference's index (minimize/other 0, quit 1, kill 2) |
| Supervisor.SavedPreferenceDecidesQuit | index.js:566-607 | a form saved with minimize/quit/kill makes the next quit take 0/1/2; saved with `ask` or nothing, the dialog decides |
| Supervisor.NodeProcess.Kill | index.js:618-620 | kill marks the process killed and sends one signal |
| Supervisor.MainProcess.RunMinima | index.js:128-235 | the effects are those of the decision, in order; only a launch replaces `global.java`, with a fresh process holding the launch arguments |
| Supervisor.MainProcess.Start | index.js:184-186 | `global.java` is the new process with the given arguments and a cleared `webviewAdded` flag |
| Supervisor.MainProcess.OnStdout | index.js:196-216 | the launch's flag and the sent events follow the chunk scanner for that process's own flag |
| Supervisor.MainProcess.OnNodeError | index.js:189-194 | a spawn error alerts with its message |
| Supervisor.MainProcess.OnNodeClose | index.js:224-231 | a close alerts exactly as the close-code rule says |
| Supervisor.MainProcess.InitializeMinima | index.js:344-377 | a busy port sends `minima-already-running` only; else a stored non-empty password launches, and a missing one sends `show-password-prompt`; after a launch `global.java` is a fresh process with the stored password in its arguments, and otherwise it is unchanged |
| Supervisor.MainProcess.LaunchWithStoredPassword | index.js:366-372 | launch with the stored password when the read gives a non-empty one, else send `show-password-prompt`; a launch makes `global.java` a fresh process with that password's arguments, anything else leaves it |
| Supervisor.MainProcess.ConnectToMinima | index.js:301-303 | `connect-to-minima` sends `minima-ready` |
| Supervisor.MainProcess.ReloadWebview | index.js:330-332 | `reload-webview` sends `minima-ready` |
| Supervisor.MainProcess.SetPassword | index.js:320-327 | empty input sends `password-error` "Password is required" and neither saves nor launches; otherwise save, then launch, and a launch makes `global.java` a fresh process with the new password's arguments; a failed save stops before the launch |
| Supervisor.MainProcess.RestartMinima | index.js:305-317 | run the kill command; only once a probe finds both ports free, launch with the stored password or send `show-password-prompt`; a launch then makes `global.java` a fresh process with that password's arguments, anything else leaves it |
| Supervisor.MainProcess.QuitApp | index.js:335-338 | `quit-app` asks the application to quit |
| Supervisor.MainProcess.OnWindowClose | index.js:276-287 | closing the window hides it instead, unless the app is quitting |
| Supervisor.MainProcess.BeforeQuit | index.js:559-632 | 0 hides; 1 kills `global.java` only if it exists and is not killed, then quits once the ports are free; 2 quits at once; nothing when already quitting; every response but 1 leaves `global.java` unkilled |
| Renderer.StepKeepsConsistent | www/app.js:94-110 | `#container` is in the document exactly until the webview is, and there is at most one webview, loading `https://127.0.0.1:9003` |
| Renderer.AtMostOneWebview | www/app.js:94-111 | any sequence of events and clicks leaves at most one webview |
| Renderer.EventSelectsView | www/app.js:143-160 | before the webview exists, each event selects its view: prompt, already-running, lock error, webview |
| Renderer.RenderWebviewIdempotent | www/app.js:94-98 | a second `minima-ready` changes nothing |
| Renderer.WebviewIsFinal | www/app.js:95-110 | once the webview is in, it stays the visible view and nothing more is sent |
| Renderer.SubmitPasswordOutcome | www/app.js:75-83 | an empty password shows "Password is required", sends nothing and stays on the prompt; a non-empty one sends `set-password` with it and shows Loading |
| Renderer.ButtonsPerView | www/app.js:17-58 | the lock-error view offers Restart only, the already-running view both; Connect and Restart send their request and show Loading |
| Renderer.PasswordErrorOutcome | www/app.js:163-172 | an empty message changes nothing; with the prompt on screen the message becomes its error text; otherwise it is alerted; nothing is sent |
| Renderer.Step | www/app.js:7-175 | a click on a button not in the document changes nothing; only clicks send, one request each; alerts only grow, by at most one; the webview, once in, stays |
| Renderer.Run | www/app.js:7-175 | over any run, requests and alerts only grow, by at most one per input |
| Renderer.RenderWebview | www/app.js:94-110 | afterwards a webview is in; when one already was, nothing changes; otherwise `#container` is detached and the one webview loads `https://127.0.0.1:9003` |
| Renderer.ShowPasswordError | www/app.js:163-172 | sends nothing and leaves the webview and `#container` in place; at most the message is alerted |
| Renderer.RendererPage.constructor | www/app.js:174-175 | the page starts on Loading with nothing sent |
| Renderer.RendererPage.ShowLoading | www/app.js:7-14 | `#container` shows Loading, nothing else changes |
| Renderer.RendererPage.OnShowPasswordPrompt | www/app.js:143-145 | follows `Step` for `show-password-prompt` |
| Renderer.RendererPage.OnMinimaAlreadyRunning | www/app.js:148-150 | follows `Step` for `minima-already-running` |
| Renderer.RendererPage.OnDatabaseLockError | www/app.js:153-155 | follows `Step` for `database-lock-error` |
| Renderer.RendererPage.OnMinimaReady | www/app.js:158-160 | follows `Step` for `minima-ready` (`renderWebview`) |
| Renderer.RendererPage.OnPasswordError | www/app.js:163-172 | follows `Step` for `password-error`, whose outcome `PasswordErrorOutcome` states |
| Renderer.RendererPage.OnConnectClick | www/app.js:29-32 | follows `Step` for the Connect button |
| Renderer.RendererPage.OnRestartClick | www/app.js:34-37 | follows `Step` for the Restart button |
| Renderer.RendererPage.OnSubmitClick | www/app.js:75-90 | follows `Step` for Submit or Enter |
| Installer.NameRunEnd | postscript.js:60 | the greedy `[-\w\.]*` run: every character inside is a name character, and the one after is not |
| Installer.HeaderEnd | postscript.js:60 | a header match starts with `minima` at the position, ends with `.jar: `, and everything between is a name character |
| Installer.Digits | postscript.js:60-62 | no digits exactly when neither 64 hex digits nor `0x` and 64 hex digits start the text; otherwise the 64 digits after `0x` when present, else the first 64, lower-cased |
| Installer.MatchAt | postscript.js:60-62 | a match at a position needs a header there (`minima` at that position); its result is a lower-case 64-digit digest |
| Installer.FirstMatch | postscript.js:61 | a result is a lower-case 64-digit digest, and `minima` occurs at or after the start position |
| Installer.FirstMatchNone | postscript.js:61 | the scan from a position finds nothing exactly when no position from there on matches |
| Installer.FirstMatchAt | postscript.js:61 | a match with no match before it, from the start position on, is the one the scan returns |
| Installer.FirstMatchLeftmost | postscript.js:61 | no result exactly when no position from the start matches; otherwise the match at the least matching position |
| Installer.GetHashFromReleaseBody | postscript.js:58-63 | null exactly when the pattern matches nowhere in the body; otherwise the leftmost match's digits, lower-cased |
| Installer.HashLineRoundTrip | postscript.js:58-63 | a body that starts with `minima<name>.jar: `, an optional quote, an optional `0x` and 64 digits yields those digits lower-cased, for any jar name |
| Installer.MatchShift | postscript.js:60-61 | whether and what the pattern matches at a position does not depend on the text before it |
| Installer.NoMatchInText | postscript.js:60-61 | text that never mentions `minima` and ends with a line break holds no match, whatever follows |
| Installer.HashLineAfterText | postscript.js:58-63 | a digest line after such text is found: the pattern is not anchored to the start of the body |
| Installer.NoMarkerNoDigest | postscript.js:58-63 | no `minima` in the body means no digest |
| Installer.DownloadFile | postscript.js:20-50 | `https.get` throws at once on a URL that is not `https:`, before any request; redirects with a non-empty location are followed in order, and one to a location it throws on crashes the script with the file left empty; a 200 writes the file from the last URL; any other reply or a request error hands the file to an unlink that is not awaited |
| Installer.PlainHttpRejected | postscript.js:25-27 | a redirect to any `http://` location is one `https.get` throws on |
| Installer.RelativeRejected | postscript.js:25-27 | a redirect to any relative `/…` location is one `https.get` throws on |
| Installer.DefaultJarUrlAccepted | postscript.js:8 | the default jar's URL is one `https.get` accepts |
| Installer.FindJarAsset | postscript.js:113 | a found asset is an element of the array and is named `minima.jar` |
| Installer.FindJarAssetFirst | postscript.js:113 | the search stops at the first element named `minima.jar` or with an unreadable name: found is exactly the first, throws exactly the second, not found exactly when every element has another readable name |
| Installer.ExamineRelease | postscript.js:93-120 | falls back for an unreachable or malformed reply, no `assets` array, no `minima.jar` asset, a thrown search or a truthy non-string body; otherwise the asset's `browser_download_url` with the body's digest (none for a falsy body) |
| Installer.DownloadDefaultJar | postscript.js:172-178 | the default URL is requested first; exit 0 exactly when the jar was written; exit 1 exactly when an unlink was requested or a redirect crashed the script (file left empty); no exit while a reply is outstanding |
| Installer.DownloadLatestMinima | postscript.js:84-167 | falls back exactly when the release is unusable or `https.get` throws on the asset URL, and then exits as the default download does; skips with exit 0 when the existing file has the digest, and otherwise requests the asset URL first; a failed or crashed asset download exits 1; after the download exit 1 on a digest mismatch, exit 0 on a match or without a digest |
| Reset.HasConfirmFlag | reset.js:13-14 | true exactly when `--confirm` or `-y` is among the arguments after the script |
| Reset.Confirmed | reset.js:53-54 | only `y` or `Y` confirms |
| Reset.DataPath | reset.js:19-21 | `userData/minidata` when packaged, else `./minidata1` |
| Reset.PerformReset | reset.js:16-50 | the directory is removed only if it exists; exit 1 exactly when removal or loading the keychain throws; deletion success and failure both exit 0 |
| Reset.RunReset | reset.js:52-74 | asks exactly when no flag is given; an answer other than `y` exits 0 and touches nothing; a confirmed reset attempts the password deletion exactly when it exits 0, and deletes it exactly when the keychain deletion succeeds |
| Reset.ConfirmationExamples | reset.js:13-54 | `yes` cancels, `Y` confirms, and a flag before the script's own arguments is not seen |
| Settings.GetSettings | modules/settings.js:311-331 | a parsed file is returned as is, without defaults merged in; a missing, unreadable or unparsable file gives `{startOnBoot:false, showNotifications:true, quitBehavior:'ask'}` |
| Settings.SelectValue | modules/settings.js:256-282 | the value is converted to text as the DOM does; the select holds that text when it is one of its options, and the empty string otherwise |
| Settings.WrappedOptionSelects | modules/settings.js:282 | a one-element array holding an option's value selects that option |
| Settings.Normalise | modules/settings.js:279-285 | `showNotifications` is on unless exactly `false`; `startOnBoot` is the truthiness of the stored value; the select gets the stored `quitBehavior`, or `ask` when that is falsy; a `null` record throws |
| Settings.MissingFileLoadsDefaults | modules/settings.js:314-330 | without a usable file the window shows off / on / `ask` |
| Settings.PartialRecordNotMerged | modules/settings.js:314-316 | a record with only `quitBehavior` is returned unmerged and shown with off / on |
| Settings.NullRecordKeepsMarkup | modules/settings.js:279-285 | a `null` record leaves the controls at their markup values, unlike a missing file |
| Settings.SaveLoadRoundTrip | modules/settings.js:279-296 | saving the form and loading it again gives the same form |
| Settings.LoadForm | modules/settings.js:279-285 | the loaded select value is an option or empty; a record whose reading throws leaves the markup form |
| Settings.FormJson | modules/settings.js:288-296 | the saved record holds the three controls' values under their names |
| Settings.SettingsManager.constructor | modules/settings.js:6-10 | no window at start |
| Settings.SettingsManager.CreateWindow | modules/settings.js:12-51 | with a window in the field it only focuses it; otherwise it opens exactly one new window and stores it |
| Settings.SettingsManager.UserClose | modules/settings.js:43-45 | the user closing a window leaves the field until the `closed` event |
| Settings.SettingsManager.OnClosed | modules/settings.js:43-45 | the `closed` event marks the window closed and sets the field to null |
| Settings.SettingsManager.Destroy | modules/settings.js:362-367 | closes and clears an existing window; no-op without one |
| Settings.SettingsManager.SaveSettings | modules/settings.js:333-354 | true and the record written on success, with `openAtLogin` equal to `startOnBoot`; false and nothing changed on failure |
| Settings.SettingsManager.HandleGetSettings | modules/settings.js:311-331 | answers with the record for the current file |
| Settings.OpenTwice | modules/settings.js:12-51 | two `createWindow` calls open one window and then focus it |
| Settings.StaleClosedEvent | modules/settings.js:43-45 | after `destroy`, a late `closed` event of the old window lets `createWindow` open a second window while the newer one is still open |

## Left out

- Electron windows, menus, the tray (`modules/tray.js`), dock handling, the settings page markup and CSS, and the webview CSS injection: rendering only.
- `resetApp` in `index.js` (the menu's reset): a native dialog around the same removal steps that `reset.js` performs.
- Sockets, `spawn`/`exec`, `pkill`/`taskkill`, `keytar`, `fs` and `https` are not modelled. Their outcomes are inputs.
- SHA-256 hashing is not modelled. Digests are given strings.
- Timers are not modelled. The 1000 ms java-probe timer is an outcome of the probe; the 2000 ms restart delay and the 100 ms poll interval are ordering only.
- The `catch` branch of `checkTermination` (wait 500 ms, then resolve) is left out: `isPortInUse` never rejects, so it cannot be reached.
- The `catch` of `initializeMinima` is left out too: nothing inside it can throw in this model.
- Creating the data directory before the spawn in packaged mode (`index.js:152-159`) is not modelled. A failure there is only logged.
- Logging to the console is not modelled.
- Supervisor.Decide, Supervisor.LaunchEffects, Supervisor.MainProcess.RunMinima: when `java -version` cannot be spawned, the model alerts and does not spawn the node, which is what the code evidently intends. As written, the `error` listener (`index.js:172-176`) throws while Node emits the event. Whether the probe's `close` still follows, and so whether the 1000 ms timer goes on to spawn the node after the alert, depends on Node's `child_process` internals, which are not part of this model.
- Installer.DownloadFile: a finite list of replies stands for the server. A redirect chain longer than the list ends as still waiting.
- Installer.DownloadLatestMinima: an asset `browser_download_url` that is not a string is requested as given. What Node's `https.get` makes of such a value is not modelled; the replies to that request are inputs like any other.
- Installer.DownloadFile, Installer.DownloadLatestMinima: which strings `https.get` accepts is approximated by `HttpsUrl` (`https://` and a host). The WHATWG URL parser also accepts other spellings (an upper-case scheme, surrounding spaces, `https:host`) and rejects some hosts; those cases are not modelled.
- Installer.DownloadFile, Installer.DownloadDefaultJar: after a failed download the file is left as `UnlinkPending`. The code calls `fs.unlink` without waiting and exits at once, so the model does not say whether the file is gone.
- Installer.ExamineRelease: only JSON that the model's `JsValue` can hold is covered. Numbers are integers (no fractions or NaN).
- Settings.SaveLoadRoundTrip: `JSON.stringify` followed by `JSON.parse` is taken as the identity on these records.
- Supervisor.ConfigPaths, Reset.DataPath: paths are joined with `/`, where the code uses `path.join`; its normalisation and the Windows separator are not modelled.
- Text.Lower: lower-casing covers ASCII letters only. The `y` answer test is unaffected, since no other character lower-cases to `y`.
