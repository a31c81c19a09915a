/** What the main process (index.js) and the renderer (www/app.js) share:
    the IPC channels each sends on, the message of an empty password, and the
    address the webview loads. */
module Ipc {

  /** Events the main process sends with `webContents.send`. */
  datatype Event =
    | MinimaReady
    | ShowPasswordPrompt
    | MinimaAlreadyRunning
    | DatabaseLockError
    | PasswordError(msg: string)

  /** Requests the renderer sends with `ipcRenderer.send`. */
  datatype Request =
    | ConnectToMinima
    | RestartMinima
    | SetPassword(password: string)
    | ReloadWebview
    | QuitApp

  /** The `password-error` message for an empty password, on either side. */
  const PasswordRequired := "Password is required"

  /** The `src` of the renderer's webview: the node's MDS port over HTTPS. */
  const WebviewSrc := "https://" + "127.0.0.1" + ":9003"
}
