/** modules/settings.js: the persisted settings record, the form the settings
    window shows, and the single settings window the manager keeps. */
module Settings {
  import opened Wrappers
  import opened Js

  /** What lies at `userData/settings.json` when it is read. */
  datatype SettingsFile =
    | NoFile            // `fs.existsSync` is false
    | Unreadable        // `readFileSync` throws
    | Stored(text: Parsed)

  /** The record returned when there is no usable file. */
  const Defaults: JsValue :=
    Obj(map["startOnBoot" := Bool(false), "showNotifications" := Bool(true), "quitBehavior" := Str("ask")])

  /** The `get-settings` handler: the parsed file as it is, or the defaults
      when the file is absent or cannot be read or parsed. */
  function GetSettings(file: SettingsFile): (r: JsValue)
    ensures file.Stored? && file.text.Json? ==> r == file.text.v
    ensures !(file.Stored? && file.text.Json?) ==> r == Defaults
  {
    match file
    case Stored(Json(v)) => v
    case _ => Defaults
  }

  /** The values the settings window's controls hold. */
  datatype Form = Form(startOnBoot: bool, showNotifications: bool, quitBehavior: string)

  /** The values of the `<option>` elements of the quit-behaviour `<select>`. */
  const QuitOptions: seq<string> := ["ask", "minimize", "quit", "kill"]

  /** The controls as the page markup leaves them: nothing checked, first option. */
  const MarkupForm := Form(false, false, "ask")

  /** Assigning `value` to the `<select>`: the value is converted to text; an
      option's value selects that option, any other text selects nothing and
      reads back as the empty string. */
  function SelectValue(v: JsValue): (r: string)
    ensures r in QuitOptions || r == ""
    ensures r != "" <==> ToJsString(v) in QuitOptions
    ensures r != "" ==> r == ToJsString(v)
    ensures v.Str? && v.s in QuitOptions ==> r == v.s
  {
    var text := ToJsString(v);
    if text in QuitOptions then text else ""
  }

  /** A one-element array holding an option's value selects that option, as
      the text conversion makes it that value. */
  lemma WrappedOptionSelects(quit: string)
    requires quit in QuitOptions
    ensures SelectValue(Arr([Str(quit)])) == quit
  {
    var parts := seq(1, i requires 0 <= i < 1 => if [Str(quit)][i].Undefined? || [Str(quit)][i].Null? then "" else ToJsString([Str(quit)][i]));
    assert parts == [quit];
  }

  /** The renderer's `then` callback on a loaded record: `startOnBoot || false`,
      `showNotifications !== false`, `quitBehavior || 'ask'`. None when reading
      a property throws (the record is `null`), which leaves the markup values. */
  function Normalise(settings: JsValue): (r: Option<Form>)
    ensures r.None? <==> settings.Undefined? || settings.Null?
    ensures r.Some? ==> (r.value.showNotifications <==> Get(settings, "showNotifications") != Some(Bool(false)))
    ensures r.Some? ==> (r.value.startOnBoot <==> Truthy(Get(settings, "startOnBoot").value))
    ensures r.Some? ==>
      var q := Get(settings, "quitBehavior").value;
      r.value.quitBehavior == SelectValue(if Truthy(q) then q else Str("ask"))
  {
    match (Get(settings, "startOnBoot"), Get(settings, "showNotifications"), Get(settings, "quitBehavior"))
    case (Some(boot), Some(notify), Some(quit)) =>
      Some(Form(Truthy(Or(boot, Bool(false))), notify != Bool(false), SelectValue(Or(quit, Str("ask")))))
    case _ => None
  }

  /** What the settings window shows after loading the file. */
  function LoadForm(file: SettingsFile): (f: Form)
    ensures f.quitBehavior in QuitOptions || f.quitBehavior == ""
    ensures Normalise(GetSettings(file)).None? ==> f == MarkupForm
  {
    match Normalise(GetSettings(file))
    case Some(f) => f
    case None => MarkupForm
  }

  /** The object `saveSettings()` sends, as `JSON.parse(JSON.stringify(...))` gives it back. */
  function FormJson(f: Form): (v: JsValue)
    ensures Get(v, "startOnBoot") == Some(Bool(f.startOnBoot))
    ensures Get(v, "showNotifications") == Some(Bool(f.showNotifications))
    ensures Get(v, "quitBehavior") == Some(Str(f.quitBehavior))
  {
    Obj(map["startOnBoot" := Bool(f.startOnBoot),
            "showNotifications" := Bool(f.showNotifications),
            "quitBehavior" := Str(f.quitBehavior)])
  }

  /** Without a usable file the window shows the default record. */
  lemma MissingFileLoadsDefaults(file: SettingsFile)
    requires !(file.Stored? && file.text.Json?)
    ensures LoadForm(file) == Form(false, true, "ask")
  {
    assert GetSettings(file) == Defaults;
    assert Get(Defaults, "quitBehavior") == Some(Str("ask"));
  }

  /** A stored file is not merged with the defaults: a record holding only a
      quit behaviour loads with `startOnBoot` off and `showNotifications` on
      because of the renderer's normalisation, not because of the handler. */
  lemma PartialRecordNotMerged(quit: string)
    requires quit in QuitOptions
    ensures GetSettings(Stored(Json(Obj(map["quitBehavior" := Str(quit)])))) == Obj(map["quitBehavior" := Str(quit)])
    ensures LoadForm(Stored(Json(Obj(map["quitBehavior" := Str(quit)])))) == Form(false, true, quit)
  {
    var v := Obj(map["quitBehavior" := Str(quit)]);
    assert Get(v, "startOnBoot") == Some(Undefined);
    assert Get(v, "showNotifications") == Some(Undefined);
    assert Get(v, "quitBehavior") == Some(Str(quit));
  }

  /** A file holding JSON `null` makes the renderer's callback throw, so the
      window keeps its markup values, unlike a missing file. */
  lemma NullRecordKeepsMarkup()
    ensures LoadForm(Stored(Json(Null))) == MarkupForm
    ensures LoadForm(NoFile) != MarkupForm
  {
    MissingFileLoadsDefaults(NoFile);
  }

  /** Saving the form and loading it again gives the same form back, whenever the
      quit behaviour is one of the select's options. */
  lemma {:induction false} SaveLoadRoundTrip(f: Form)
    requires f.quitBehavior in QuitOptions
    ensures LoadForm(Stored(Json(FormJson(f)))) == f
  {
    var v := FormJson(f);
    assert Get(v, "startOnBoot") == Some(Bool(f.startOnBoot));
    assert Get(v, "showNotifications") == Some(Bool(f.showNotifications));
    assert Get(v, "quitBehavior") == Some(Str(f.quitBehavior));
    assert f.quitBehavior != "" by { assert "" !in QuitOptions; }
  }

  /** The state of one settings `BrowserWindow`. */
  datatype WindowState = Open | Closing | Closed

  /** SettingsManager: the settings file it reads and writes, the login-item
      settings it applies, and the single window field `settingsWindow`. Windows
      are numbered in creation order; `windows[i]` is the state of window i. */
  class SettingsManager {
    var file: SettingsFile
    var openAtLogin: bool
    var openAsHidden: bool
    var settingsWindow: Option<nat>
    var windows: seq<WindowState>
    var focused: seq<nat>

    /** The field only ever names a window this manager created and that has
        not finished closing. */
    ghost predicate Valid()
      reads this
    {
      settingsWindow.Some? ==> settingsWindow.value < |windows| && windows[settingsWindow.value] != Closed
    }

    constructor (file: SettingsFile, openAtLogin: bool)
      ensures Valid()
      ensures this.file == file && this.openAtLogin == openAtLogin && !openAsHidden
      ensures settingsWindow == None && windows == [] && focused == []
    {
      this.file := file;
      this.openAtLogin := openAtLogin;
      openAsHidden := false;
      settingsWindow := None;
      windows := [];
      focused := [];
    }

    /** `createWindow`: focus the window the field names, or open a new one
        and store it in the field. */
    method CreateWindow()
      requires Valid()
      modifies this
      ensures Valid()
      ensures old(settingsWindow).Some? ==>
        windows == old(windows) && settingsWindow == old(settingsWindow) && focused == old(focused) + [old(settingsWindow).value]
      ensures old(settingsWindow).None? ==>
        windows == old(windows) + [Open] && settingsWindow == Some(|old(windows)|) && focused == old(focused)
      ensures file == old(file) && openAtLogin == old(openAtLogin) && openAsHidden == old(openAsHidden)
    {
      if settingsWindow.Some? {
        focused := focused + [settingsWindow.value];
        return;
      }
      windows := windows + [Open];
      settingsWindow := Some(|windows| - 1);
    }

    /** The user closes window `w`: it starts closing; the field is untouched
        until its `closed` event. */
    method UserClose(w: nat)
      requires Valid() && w < |windows| && windows[w] == Open
      modifies this
      ensures Valid()
      ensures windows == old(windows)[w := Closing]
      ensures settingsWindow == old(settingsWindow) && focused == old(focused)
      ensures file == old(file) && openAtLogin == old(openAtLogin) && openAsHidden == old(openAsHidden)
    {
      windows := windows[w := Closing];
    }

    /** The `closed` event of window `w`: it is gone, and the handler sets the
        field to null whichever window the field names. */
    method OnClosed(w: nat)
      requires Valid() && w < |windows| && windows[w] != Closed
      modifies this
      ensures Valid()
      ensures windows == old(windows)[w := Closed] && settingsWindow == None
      ensures focused == old(focused)
      ensures file == old(file) && openAtLogin == old(openAtLogin) && openAsHidden == old(openAsHidden)
    {
      windows := windows[w := Closed];
      settingsWindow := None;
    }

    /** `destroy`: close the window the field names and clear the field; nothing
        happens when the field is null. */
    method Destroy()
      requires Valid()
      modifies this
      ensures Valid() && settingsWindow == None
      ensures old(settingsWindow).Some? ==> windows == old(windows)[old(settingsWindow).value := Closing]
      ensures old(settingsWindow).None? ==> windows == old(windows)
      ensures focused == old(focused)
      ensures file == old(file) && openAtLogin == old(openAtLogin) && openAsHidden == old(openAsHidden)
    {
      if settingsWindow.Some? {
        windows := windows[settingsWindow.value := Closing];
        settingsWindow := None;
      }
    }

    /** `save-settings`: write the record and apply the login item; true on
        success, false (with nothing changed) when the write fails. */
    method SaveSettings(f: Form, writeSucceeds: bool) returns (ok: bool)
      requires Valid()
      modifies this
      ensures Valid()
      ensures ok == writeSucceeds
      ensures ok ==> file == Stored(Json(FormJson(f))) && openAtLogin == f.startOnBoot
      ensures ok && f.startOnBoot ==> openAsHidden
      ensures ok && !f.startOnBoot ==> openAsHidden == old(openAsHidden)
      ensures !ok ==> file == old(file) && openAtLogin == old(openAtLogin) && openAsHidden == old(openAsHidden)
      ensures settingsWindow == old(settingsWindow) && windows == old(windows) && focused == old(focused)
    {
      if !writeSucceeds {
        return false;
      }
      file := Stored(Json(FormJson(f)));
      if f.startOnBoot {
        openAtLogin, openAsHidden := true, true;
      } else {
        openAtLogin := false;
      }
      return true;
    }

    /** `get-settings` as the handler answers it from the current file. */
    method HandleGetSettings() returns (r: JsValue)
      ensures r == GetSettings(file)
    {
      r := GetSettings(file);
    }
  }

  /** Opening the settings window twice in a row yields one window, focused once. */
  method OpenTwice(m: SettingsManager)
    requires m.Valid() && m.settingsWindow == None
    modifies m
    ensures m.windows == old(m.windows) + [Open]
    ensures m.settingsWindow == Some(|old(m.windows)|)
    ensures m.focused == old(m.focused) + [|old(m.windows)|]
  {
    m.CreateWindow();
    m.CreateWindow();
  }

  /** A `closed` event that arrives for a window `destroy` already released
      clears the field of the newer window, so a later `createWindow` opens a
      second window while the first newer one is still open. */
  method StaleClosedEvent(m: SettingsManager) returns (second: nat, third: nat)
    requires m.Valid() && m.settingsWindow == None
    modifies m
    ensures second != third && second < |m.windows| && third < |m.windows|
    ensures m.windows[second] == Open && m.windows[third] == Open
  {
    m.CreateWindow();
    var first := m.settingsWindow.value;
    m.Destroy();
    m.CreateWindow();
    second := m.settingsWindow.value;
    m.OnClosed(first);
    m.CreateWindow();
    third := m.settingsWindow.value;
  }
}
