/**
 * The X11 backend object: init (hotkey parsing, key grabs, event filter),
 * the event filter's key test, the active-application query and cleanup.
 * The display, the window properties, /proc and readlink are inputs.
 */
module X11Backend {
  import opened Wrappers
  import opened Ascii
  import opened Backend
  import opened X11Hotkey
  import opened X11Process

  /** The part of X11Private the model keeps: the parsed hotkey and whether a callback was given. */
  datatype X11Private = X11Private(hotkeyCode: KeyCode, hotkeyMods: Mask, hasCallback: bool)

  /** One XGrabKey call on the root window. */
  datatype Grab = Grab(keycode: KeyCode, modifiers: Mask)

  /** An X event as the filter sees it; key codes on the wire are single bytes. */
  datatype XEvent = KeyPress(keycode: KeyCode, state: Mask) | OtherEvent

  datatype FilterReturn = FilterContinue | FilterRemove

  /** What the filter returns, and whether it ran the hotkey callback. */
  datatype FilterOutcome = FilterOutcome(ret: FilterReturn, callbackRuns: bool)

  /**
   * What the X server reports about the active window: WM_CLASS's class
   * part, the _NET_WM_PID value (0 when absent) and XFetchName's title.
   */
  datatype WindowFacts = WindowFacts(wmClass: Option<string>, pid: int, title: Option<string>)

  /**
   * Everything x11_get_active_app asks the outside world: the active
   * window (0 when _NET_ACTIVE_WINDOW cannot be read), what the server says
   * about it, the /proc snapshot and the /proc/<pid>/exe link targets that
   * can be read.
   */
  datatype Desktop = Desktop(activeWindow: nat, facts: WindowFacts, procs: ProcTable, exeLinks: map<int, string>)

  /** readlink is given a 1024-byte buffer less one for the terminator. */
  const ReadlinkMax: nat := 1023

  /** The grabs x11_init makes for a parsed hotkey: none for code 0, else one per lock variant. */
  function HotkeyGrabs(code: KeyCode, mods: Mask): (g: seq<Grab>)
    ensures code == 0 ==> g == []
    ensures code != 0 ==> |g| == 4 && forall i :: 0 <= i < 4 ==> g[i] == Grab(code, GrabMasks(mods)[i])
  {
    if code == 0 then [] else seq(4, i requires 0 <= i < 4 => Grab(code, GrabMasks(mods)[i]))
  }

  /** The text readlink stores: the link target, cut to the buffer. */
  function ReadlinkText(target: string): (r: string)
    ensures |r| <= ReadlinkMax
    ensures |target| <= ReadlinkMax ==> r == target
    ensures HasPrefix(target, r)
    ensures |target| > ReadlinkMax ==> |r| == ReadlinkMax
  {
    if |target| <= ReadlinkMax then target else target[..ReadlinkMax]
  }

  /**
   * The executable reported for a window's pid: none without a positive
   * pid; otherwise that of the deepest child when there is one, else of
   * the pid itself, when /proc/<pid>/exe can be read (`exeLinks`).
   */
  ghost function ExePathOf(pid: int, window: nat, procs: ProcTable, exeLinks: map<int, string>, rank: map<int, nat>): Option<string>
    requires Ranked(procs.entries, rank)
  {
    if pid <= 0 then None
    else
      var child := DeepestChildOf(procs, pid, window, rank);
      var owner := if child > 0 then child else pid;
      if owner in exeLinks then Some(ReadlinkText(exeLinks[owner])) else None
  }

  class X11Backend {
    /** self->priv */
    var priv: Option<X11Private>
    /** Whether x11_event_filter is registered and g_x11_backend is this backend. */
    var filterInstalled: bool
    /** The XGrabKey calls made so far, in order. */
    var grabs: seq<Grab>

    /** cheeter_backend_x11_new. */
    constructor ()
      ensures priv.None? && !filterInstalled && grabs == []
    {
      priv := None;
      filterInstalled := false;
      grabs := [];
    }

    /**
     * x11_init. `hasDisplay` says whether GDK has an X11 display; without
     * one the private state is dropped again and init fails. Otherwise it
     * succeeds even when the hotkey did not parse to a key code.
     */
    method Init(hasDisplay: bool, hotkey: Option<string>, keycodes: map<string, KeyCode>, hasCallback: bool) returns (ok: bool)
      modifies this
      ensures ok == hasDisplay
      ensures !hasDisplay ==> priv.None? && !filterInstalled && grabs == old(grabs)
      ensures hasDisplay ==> priv == Some(X11Private(ParsedCode(hotkey, keycodes), ParsedMods(hotkey), hasCallback))
      ensures hasDisplay ==> priv.value.hotkeyMods !! LockBits
      ensures hasDisplay ==> filterInstalled
      ensures hasDisplay ==> grabs == old(grabs) + HotkeyGrabs(ParsedCode(hotkey, keycodes), ParsedMods(hotkey))
    {
      priv := Some(X11Private(0, {}, false));
      if !hasDisplay {
        Cleanup();
        return false;
      }
      var code, mods := ParseHotkey(hotkey, keycodes);
      ParsedModsHaveNoLocks(hotkey);
      priv := Some(X11Private(code, mods, hasCallback));
      if code != 0 {
        var masks := GrabMasks(mods);
        ghost var before := grabs;
        for i := 0 to 4
          invariant grabs == before + HotkeyGrabs(code, mods)[..i]
          invariant priv == Some(X11Private(code, mods, hasCallback))
        {
          grabs := grabs + [Grab(code, masks[i])];
          assert HotkeyGrabs(code, mods)[..i + 1] == HotkeyGrabs(code, mods)[..i] + [Grab(code, masks[i])];
        }
        assert HotkeyGrabs(code, mods)[..4] == HotkeyGrabs(code, mods);
      }
      filterInstalled := true;
      ok := true;
    }

    /**
     * x11_cleanup: with private state, removes the filter and drops the
     * state; without, does nothing. Grabs are not released.
     */
    method Cleanup()
      modifies this
      ensures old(priv).None? ==> priv == old(priv) && filterInstalled == old(filterInstalled)
      ensures old(priv).Some? ==> priv.None? && !filterInstalled
      ensures grabs == old(grabs)
    {
      if priv.None? {
        return;
      }
      filterInstalled := false;
      priv := None;
    }

    /** x11_event_filter, for an event GDK hands to it. */
    function FilterEvent(ev: XEvent): (out: FilterOutcome)
      reads this
      ensures out.ret == FilterRemove <==>
        filterInstalled && priv.Some? && ev.KeyPress? && KeyMatches(ev.keycode, ev.state, priv.value.hotkeyCode, priv.value.hotkeyMods)
      ensures out.callbackRuns <==> out.ret == FilterRemove && priv.value.hasCallback
    {
      if !filterInstalled || priv.None? then FilterOutcome(FilterContinue, false)
      else match ev
        case OtherEvent => FilterOutcome(FilterContinue, false)
        case KeyPress(keycode, state) =>
          if keycode == priv.value.hotkeyCode && CleanState(state) == priv.value.hotkeyMods then
            FilterOutcome(FilterRemove, priv.value.hasCallback)
          else FilterOutcome(FilterContinue, false)
    }

    /** The identity x11_get_active_app reports on `desk`. */
    ghost function ActiveAppOf(desk: Desktop, rank: map<int, nat>): Option<AppIdentity>
      reads this
      requires Ranked(desk.procs.entries, rank)
    {
      if priv.None? then None
      else if desk.activeWindow == 0 then Some(EmptyIdentity)
      else Some(AppIdentity(None, desk.facts.wmClass,
        ExePathOf(desk.facts.pid, desk.activeWindow, desk.procs, desk.exeLinks, rank), desk.facts.title))
    }

    /**
     * x11_get_active_app: nothing without private state; an identity with
     * every field NULL without an active window; otherwise the window's
     * class, the executable of its deepest child process (else of its own
     * process) and its title, and never a desktop id. `rank` witnesses
     * that the process table has no cycle.
     */
    method GetActiveApp(desk: Desktop, ghost rank: map<int, nat>) returns (id: Option<AppIdentity>)
      requires Ranked(desk.procs.entries, rank)
      ensures id == ActiveAppOf(desk, rank)
      ensures id.None? <==> priv.None?
      ensures id.Some? ==> id.value.desktopId.None?
      ensures id.Some? && desk.activeWindow == 0 ==> id == Some(EmptyIdentity)
      ensures id.Some? && desk.activeWindow != 0 ==>
        id.value.wmClass == desk.facts.wmClass && id.value.title == desk.facts.title
      ensures id.Some? && desk.facts.pid <= 0 ==> id.value.exePath.None?
    {
      if priv.None? {
        return None;
      }
      var result := EmptyIdentity;
      if desk.activeWindow == 0 {
        return Some(result);
      }
      result := result.(wmClass := desk.facts.wmClass);
      var pid := desk.facts.pid;
      if pid > 0 {
        var child := DeepestChild(desk.procs, pid, desk.activeWindow, rank);
        if child > 0 {
          pid := child;
        }
        if pid in desk.exeLinks {
          result := result.(exePath := Some(ReadlinkText(desk.exeLinks[pid])));
        }
      }
      result := result.(title := desk.facts.title);
      id := Some(result);
    }
  }

  /**
   * After a successful init with a key code, the filter consumes a key
   * press exactly when its key code and state are one of the grabs.
   */
  lemma GrabsAreWhatFilterConsumes(b: X11Backend, ev: XEvent)
    requires b.filterInstalled && b.priv.Some?
    requires b.priv.value.hotkeyCode != 0 && b.priv.value.hotkeyMods !! LockBits
    ensures (ev.KeyPress? && Grab(ev.keycode, ev.state) in HotkeyGrabs(b.priv.value.hotkeyCode, b.priv.value.hotkeyMods))
      <==> b.FilterEvent(ev).ret == FilterRemove
  {
    var p := b.priv.value;
    var g := HotkeyGrabs(p.hotkeyCode, p.hotkeyMods);
    if ev.KeyPress? {
      GrabbedIffMatched(p.hotkeyCode, p.hotkeyMods, ev.keycode, ev.state);
      if ev.keycode == p.hotkeyCode && ev.state in GrabMasks(p.hotkeyMods) {
        var i :| 0 <= i < 4 && GrabMasks(p.hotkeyMods)[i] == ev.state;
        assert g[i] == Grab(ev.keycode, ev.state);
      }
    }
  }
}
