/**
 * The daemon's glue: turning the active application's identity into an
 * application key, resolving it, handing the result to the UI, and
 * dispatching control-socket commands. The UI is represented by the record
 * of what it was asked to do.
 */
module Daemon {
  import opened Wrappers
  import opened Ascii
  import opened Backend
  import opened SheetIndex
  import opened MappingStore
  import opened Resolver
  import opened X11Hotkey
  import opened X11Process
  import opened X11Backend

  /** `path` without its trailing '/' characters. */
  function TrimTrailingSlashes(path: string): (r: string)
    ensures HasPrefix(path, r)
    ensures r != [] ==> r[|r| - 1] != '/'
    ensures forall i :: |r| <= i < |path| ==> path[i] == '/'
  {
    if path != [] && path[|path| - 1] == '/' then
      var front := path[..|path| - 1];
      assert forall i :: 0 <= i < |front| ==> front[i] == path[i];
      TrimTrailingSlashes(front)
    else path
  }

  /** The text after the last '/'. */
  function AfterLastSlash(path: string): (r: string)
    ensures HasSuffix(path, r) && !Contains(r, '/')
  {
    if path == [] || path[|path| - 1] == '/' then []
    else AfterLastSlash(path[..|path| - 1]) + [path[|path| - 1]]
  }

  /**
   * g_path_get_basename: "." for the empty path, "/" for a path of slashes
   * only, otherwise the last component once trailing slashes are dropped.
   */
  function Basename(path: string): (b: string)
    ensures b != []
    ensures path != [] && path[|path| - 1] != '/' ==> HasSuffix(path, b) && !Contains(b, '/')
  {
    if path == [] then "."
    else
      var trimmed := TrimTrailingSlashes(path);
      if trimmed == [] then "/" else AfterLastSlash(trimmed)
  }

  /** The last component of "dir/name" is `name`. */
  lemma {:induction false} BasenameOfJoin(dir: string, name: string)
    requires name != [] && !Contains(name, '/')
    ensures Basename(dir + "/" + name) == name
  {
    var path := dir + "/" + name;
    assert path[|path| - 1] == name[|name| - 1];
    AfterLastSlashOfJoin(dir, name);
  }

  lemma {:induction false} AfterLastSlashOfJoin(dir: string, name: string)
    requires !Contains(name, '/')
    ensures AfterLastSlash(dir + "/" + name) == name
    decreases |name|
  {
    var path := dir + "/" + name;
    if name == [] {
      assert path[|path| - 1] == '/';
    } else {
      var n := |name| - 1;
      assert path[..|path| - 1] == dir + "/" + name[..n];
      assert !Contains(name[..n], '/') by {
        forall i | 0 <= i < n ensures name[..n][i] != '/' {
          assert name[..n][i] == name[i];
        }
      }
      AfterLastSlashOfJoin(dir, name[..n]);
      assert name[..n] + [name[n]] == name;
    }
  }

  const ExeScheme: string := "exe:"
  const ClassScheme: string := "class:"
  const UnknownKey: string := "unknown"

  /** A key built from a scheme starts with that scheme and with its first letter. */
  lemma SchemePrefixed(scheme: string, rest: string)
    requires |scheme| > 0
    ensures HasPrefix(scheme + rest, scheme) && (scheme + rest)[0] == scheme[0]
    ensures (scheme + rest)[|scheme|..] == rest
  {
    assert (scheme + rest)[..|scheme|] == scheme;
  }

  /**
   * The application key, by fixed priority: the executable's basename,
   * else the window class verbatim, else "unknown" (also for no identity).
   */
  function AppKey(id: Option<AppIdentity>): (key: string)
    ensures HasPrefix(key, ExeScheme) <==> id.Some? && id.value.exePath.Some?
    ensures HasPrefix(key, ClassScheme) <==> id.Some? && id.value.exePath.None? && id.value.wmClass.Some?
    ensures key == UnknownKey <==> id.None? || (id.value.exePath.None? && id.value.wmClass.None?)
    ensures id.Some? && id.value.exePath.Some? ==> key[|ExeScheme|..] == Basename(id.value.exePath.value)
    ensures id.Some? && id.value.exePath.None? && id.value.wmClass.Some? ==> key[|ClassScheme|..] == id.value.wmClass.value
  {
    if id.Some? && id.value.exePath.Some? then
      var key := ExeScheme + Basename(id.value.exePath.value);
      SchemePrefixed(ExeScheme, Basename(id.value.exePath.value));
      key
    else if id.Some? && id.value.wmClass.Some? then
      var key := ClassScheme + id.value.wmClass.value;
      SchemePrefixed(ClassScheme, id.value.wmClass.value);
      key
    else
      assert UnknownKey[0] == 'u';
      UnknownKey
  }

  /** The window class goes into the key verbatim: classes differing in any way, case included, give different keys. */
  lemma AppKeyKeepsClass(a: AppIdentity, b: AppIdentity)
    requires a.exePath.None? && b.exePath.None? && a.wmClass.Some? && b.wmClass.Some?
    ensures AppKey(Some(a)) == AppKey(Some(b)) <==> a.wmClass == b.wmClass
  {
  }

  /** "Firefox" and "firefox" are different applications to the mapping table. */
  lemma ClassCaseMatters()
    ensures AppKey(Some(AppIdentity(None, Some("Firefox"), None, None))) != AppKey(Some(AppIdentity(None, Some("firefox"), None, None)))
  {
    AppKeyKeepsClass(AppIdentity(None, Some("Firefox"), None, None), AppIdentity(None, Some("firefox"), None, None));
  }

  /** The key depends on the executable path and the window class only. */
  lemma AppKeyIgnoresTitle(a: AppIdentity, b: AppIdentity)
    requires a.exePath == b.exePath && a.wmClass == b.wmClass
    ensures AppKey(Some(a)) == AppKey(Some(b))
  {
  }

  /**
   * What the resolver's heuristic looks up for an identity: the lower-cased
   * executable basename, else the lower-cased window class, else "unknown".
   */
  lemma AppKeyQuery(id: Option<AppIdentity>)
    ensures id.Some? && id.value.exePath.Some? ==>
      NameQuery(AppKey(id)) == Lower(Basename(id.value.exePath.value))
    ensures id.Some? && id.value.exePath.None? && id.value.wmClass.Some? ==>
      NameQuery(AppKey(id)) == Lower(id.value.wmClass.value)
    ensures id.None? || (id.value.exePath.None? && id.value.wmClass.None?) ==>
      NameQuery(AppKey(id)) == UnknownKey
  {
    if id.Some? && id.value.exePath.Some? {
      assert ExeScheme == "exe" + ":";
      NameQueryAfterScheme("exe", Basename(id.value.exePath.value));
    } else if id.Some? && id.value.wmClass.Some? {
      assert ClassScheme == "class" + ":";
      NameQueryAfterScheme("class", id.value.wmClass.value);
    } else {
      assert !Contains(UnknownKey, ':');
      assert Lower(UnknownKey) == UnknownKey;
    }
  }

  /** Control commands the daemon acts on. */
  datatype Action = Toggle | Status | Quit | Ignore

  /**
   * on_ipc_command's dispatch: by case-sensitive prefix, TOGGLE, then
   * STATUS, then QUIT; anything else (SEARCH included) is ignored.
   */
  function Dispatch(command: string): (a: Action)
    ensures a == Toggle <==> HasPrefix(command, "TOGGLE")
    ensures a == Status <==> HasPrefix(command, "STATUS")
    ensures a == Quit <==> HasPrefix(command, "QUIT")
  {
    PrefixFirstChar(command, "TOGGLE");
    PrefixFirstChar(command, "STATUS");
    PrefixFirstChar(command, "QUIT");
    if HasPrefix(command, "TOGGLE") then Toggle
    else if HasPrefix(command, "STATUS") then Status
    else if HasPrefix(command, "QUIT") then Quit
    else Ignore
  }

  /** Prefixes with different first characters exclude each other. */
  lemma PrefixFirstChar(s: string, prefix: string)
    requires prefix != []
    ensures HasPrefix(s, prefix) ==> s[0] == prefix[0]
  {
    if HasPrefix(s, prefix) {
      assert s[..|prefix|][0] == s[0];
    }
  }

  lemma DispatchExamples()
    ensures Dispatch("TOGGLE") == Toggle && Dispatch("TOGGLE now") == Toggle
    ensures Dispatch("STATUS") == Status && Dispatch("QUIT") == Quit
    ensures Dispatch("SEARCH") == Ignore && Dispatch("toggle") == Ignore && Dispatch("") == Ignore
  {
    assert "TOGGLE now"[..6] == "TOGGLE";
    assert "SEARCH"[..4][0] != "QUIT"[0] && "SEARCH"[..6][1] != "STATUS"[1];
    assert "toggle"[..4][0] != "QUIT"[0] && "toggle"[..6][0] != "STATUS"[0] && "toggle"[..6][0] != "TOGGLE"[0];
  }

  class Daemon {
    /** g_index */
    const index: Index
    /** g_store */
    const store: Store
    /** g_backend: the X11 backend when it is built in, else none. */
    const backend: X11Backend?
    /** The argument of every cheeter_ui_toggle call so far, oldest first. */
    var shown: seq<Option<string>>
    /** Whether cheeter_ui_quit has been called. */
    var quitRequested: bool

    ghost predicate Valid()
      reads this, index
    {
      index.Valid()
    }

    /**
     * What main sets up: one scan of the sheet directory (`listing` None
     * when it cannot be opened), the mappings file loaded from `mapPath`
     * (`mapContents` None when it cannot be opened), and, when X11 support
     * is built in, an X11 backend initialised with the configured hotkey
     * and handle_toggle as its callback; a failed init is not fatal.
     */
    constructor Start(sheetDir: string, listing: Option<seq<string>>, mapPath: string, mapContents: Option<string>,
                      x11Built: bool, hasDisplay: bool, hotkey: Option<string>, keycodes: map<string, KeyCode>)
      ensures Valid() && fresh(index) && fresh(store)
      ensures index.byBasename == (if listing.Some? then Inserted(map[], Scanned(sheetDir, listing.value)) else map[])
      ensures index.allSheets == (if listing.Some? then Reversed(Scanned(sheetDir, listing.value)) else [])
      ensures store.filePath == Some(mapPath)
      ensures store.table == (if mapContents.Some? then Parse(mapContents.value) else map[])
      ensures (backend != null) == x11Built
      ensures backend != null ==> fresh(backend)
      ensures backend != null ==> backend.filterInstalled == hasDisplay
      ensures backend != null ==>
        backend.priv == (if hasDisplay then Some(X11Private(ParsedCode(hotkey, keycodes), ParsedMods(hotkey), true)) else None)
      ensures backend != null ==>
        backend.grabs == (if hasDisplay then HotkeyGrabs(ParsedCode(hotkey, keycodes), ParsedMods(hotkey)) else [])
      ensures shown == [] && !quitRequested
    {
      var idx := new Index();
      idx.ScanDir(sheetDir, listing);
      var st := new Store.Load(Some(mapPath), mapContents);
      var b: X11Backend? := null;
      if x11Built {
        b := new X11Backend();
        var ok := b.Init(hasDisplay, hotkey, keycodes, true);
      }
      index := idx;
      store := st;
      backend := b;
      shown := [];
      quitRequested := false;
    }

    /** The identity handle_toggle obtains: none without a backend, else what the backend reports. */
    ghost function ActiveApp(desk: Desktop, rank: map<int, nat>): Option<AppIdentity>
      reads this, backend
      requires Ranked(desk.procs.entries, rank)
    {
      if backend == null then None else backend.ActiveAppOf(desk, rank)
    }

    /**
     * handle_toggle on the desktop `desk` (`rank` witnesses that its
     * process table has no cycle): the UI is toggled exactly once, with
     * the sheet resolved for the active application's key, possibly none;
     * the index, the store and the backend are untouched.
     */
    method HandleToggle(desk: Desktop, ghost rank: map<int, nat>)
      requires Valid() && Ranked(desk.procs.entries, rank)
      modifies this
      ensures Valid()
      ensures shown == old(shown) + [Resolve(index, store, Some(AppKey(ActiveApp(desk, rank))))]
      ensures quitRequested == old(quitRequested)
      ensures unchanged(index) && unchanged(store) && (backend != null ==> unchanged(backend))
    {
      var id: Option<AppIdentity> := None;
      if backend != null {
        id := backend.GetActiveApp(desk, rank);
      }
      var appKey := AppKey(id);
      var sheet := Resolve(index, store, Some(appKey));
      shown := shown + [sheet];
    }

    /** on_ipc_command, with `desk` the desktop a toggle would query. */
    method OnIpcCommand(command: string, desk: Desktop, ghost rank: map<int, nat>)
      requires Valid() && Ranked(desk.procs.entries, rank)
      modifies this
      ensures Valid()
      ensures Dispatch(command) == Toggle ==>
        shown == old(shown) + [Resolve(index, store, Some(AppKey(ActiveApp(desk, rank))))] && quitRequested == old(quitRequested)
      ensures Dispatch(command) == Quit ==> quitRequested && shown == old(shown)
      ensures Dispatch(command) in {Status, Ignore} ==> shown == old(shown) && quitRequested == old(quitRequested)
      ensures unchanged(index) && unchanged(store) && (backend != null ==> unchanged(backend))
    {
      match Dispatch(command) {
        case Toggle => HandleToggle(desk, rank);
        case Status =>
        case Quit => quitRequested := true;
        case Ignore =>
      }
    }

    /**
     * An X event reaching the backend's filter: the hotkey toggles the UI
     * exactly once, and every other event leaves the daemon as it was.
     */
    method OnXEvent(ev: XEvent, desk: Desktop, ghost rank: map<int, nat>)
      requires Valid() && Ranked(desk.procs.entries, rank)
      modifies this
      ensures Valid()
      ensures backend != null && backend.FilterEvent(ev).callbackRuns ==>
        shown == old(shown) + [Resolve(index, store, Some(AppKey(ActiveApp(desk, rank))))]
      ensures !(backend != null && backend.FilterEvent(ev).callbackRuns) ==> shown == old(shown)
      ensures quitRequested == old(quitRequested)
      ensures unchanged(index) && unchanged(store) && (backend != null ==> unchanged(backend))
    {
      if backend != null && backend.FilterEvent(ev).callbackRuns {
        HandleToggle(desk, rank);
      }
    }
  }
}
