/**
 * The X11 hotkey kernel: parsing a "Mod+Mod+Key" string into a key code and
 * a modifier mask, the key-press test of the event filter, and the set of
 * modifier masks the key is grabbed with. The keysym and keycode lookups of
 * the X server are an input map.
 *
 * A modifier mask is represented by the set of its bit positions: OR is
 * union, AND-NOT is difference, and two masks are equal exactly when
 * their sets are.
 */
module X11Hotkey {
  import opened Wrappers
  import opened Ascii

  /** Bit positions of an X key-and-button state (an unsigned int). */
  type Bit = b: nat | b < 32
  type Mask = set<Bit>

  /** ShiftMask is bit 0, LockMask bit 1, ControlMask bit 2, Mod1Mask bit 3, Mod2Mask bit 4, Mod4Mask bit 6. */
  const Shift: Bit := 0
  const Lock: Bit := 1
  const Control: Bit := 2
  const Mod1: Bit := 3
  const Mod2: Bit := 4
  const Mod4: Bit := 6

  /** The bits the filter ignores: CapsLock (Lock) and NumLock (Mod2). */
  const LockBits: Mask := {Lock, Mod2}

  /** The bits a hotkey string can name. */
  const NamedBits: Mask := {Shift, Control, Mod1, Mod4}

  /** An X KeyCode (an unsigned char); 0 means "no key". */
  type KeyCode = k: int | 0 <= k < 256

  /**
   * The modifier bits a token sets, compared ASCII-case-insensitively:
   * Super, Control or Ctrl, Shift, Alt; none for any other token.
   */
  function ModifierBits(token: string): (m: Mask)
    ensures m <= NamedBits && |m| <= 1
    ensures Mod4 in m <==> CaseEqual(token, "Super")
    ensures Control in m <==> CaseEqual(token, "Control") || CaseEqual(token, "Ctrl")
    ensures Shift in m <==> CaseEqual(token, "Shift")
    ensures Mod1 in m <==> CaseEqual(token, "Alt")
  {
    assert Lower("Super")[1] != Lower("Shift")[1];
    if CaseEqual(token, "Super") then {Mod4}
    else if CaseEqual(token, "Control") || CaseEqual(token, "Ctrl") then {Control}
    else if CaseEqual(token, "Shift") then {Shift}
    else if CaseEqual(token, "Alt") then {Mod1}
    else {}
  }

  /**
   * A token that sets the key code: not a modifier name, and known to the
   * server's keysym table (`keycodes` maps each such token to the keycode
   * of its keysym, possibly 0).
   */
  predicate IsKeyToken(token: string, keycodes: map<string, KeyCode>) {
    ModifierBits(token) == {} && token in keycodes
  }

  /** The mask the tokens OR together. */
  function TokensMods(tokens: seq<string>): Mask {
    if tokens == [] then {} else TokensMods(tokens[..|tokens| - 1]) + ModifierBits(tokens[|tokens| - 1])
  }

  /** The key code the tokens leave behind: that of the last key token, else 0. */
  function TokensCode(tokens: seq<string>, keycodes: map<string, KeyCode>): KeyCode {
    if tokens == [] then 0
    else if IsKeyToken(tokens[|tokens| - 1], keycodes) then keycodes[tokens[|tokens| - 1]]
    else TokensCode(tokens[..|tokens| - 1], keycodes)
  }

  /** parse_hotkey's result: code 0 and no modifiers without a string, else those of its '+'-separated tokens. */
  function ParsedCode(hotkey: Option<string>, keycodes: map<string, KeyCode>): KeyCode {
    if hotkey.None? then 0 else TokensCode(Split(hotkey.value, '+'), keycodes)
  }

  function ParsedMods(hotkey: Option<string>): Mask {
    if hotkey.None? then {} else TokensMods(Split(hotkey.value, '+'))
  }

  /** parse_hotkey. */
  method ParseHotkey(hotkey: Option<string>, keycodes: map<string, KeyCode>) returns (code: KeyCode, mods: Mask)
    ensures code == ParsedCode(hotkey, keycodes)
    ensures mods == ParsedMods(hotkey)
  {
    code := 0;
    mods := {};
    if hotkey.None? {
      return;
    }
    var tokens := Split(hotkey.value, '+');
    for i := 0 to |tokens|
      invariant code == TokensCode(tokens[..i], keycodes)
      invariant mods == TokensMods(tokens[..i])
    {
      var t := tokens[i];
      TokensStep(tokens, i, keycodes);
      var bits := ModifierBits(t);
      if bits != {} {
        mods := mods + bits;
      } else if t in keycodes {
        code := keycodes[t];
      }
    }
    assert tokens[..|tokens|] == tokens;
  }

  /** One more token: its bits join the mask, and a key token replaces the code. */
  lemma TokensStep(tokens: seq<string>, i: nat, keycodes: map<string, KeyCode>)
    requires i < |tokens|
    ensures TokensMods(tokens[..i + 1]) == TokensMods(tokens[..i]) + ModifierBits(tokens[i])
    ensures TokensCode(tokens[..i + 1], keycodes) ==
      if IsKeyToken(tokens[i], keycodes) then keycodes[tokens[i]] else TokensCode(tokens[..i], keycodes)
  {
    assert tokens[..i + 1][..i] == tokens[..i];
    assert tokens[..i + 1][i] == tokens[i];
  }

  /** A modifier is in the mask iff some token names it. */
  lemma {:induction false} ModsHaveNamedBit(tokens: seq<string>, bit: Bit)
    ensures bit in TokensMods(tokens) <==> exists i :: 0 <= i < |tokens| && bit in ModifierBits(tokens[i])
  {
    if tokens != [] {
      var front := tokens[..|tokens| - 1];
      ModsHaveNamedBit(front, bit);
      NamedInFrontOrLast(tokens, front, bit);
    }
  }

  /** Some token names `bit` exactly when one of the front tokens or the last token does. */
  lemma NamedInFrontOrLast(tokens: seq<string>, front: seq<string>, bit: Bit)
    requires tokens != [] && front == tokens[..|tokens| - 1]
    ensures (exists i :: 0 <= i < |tokens| && bit in ModifierBits(tokens[i])) <==>
      (exists i :: 0 <= i < |front| && bit in ModifierBits(front[i])) || bit in ModifierBits(tokens[|tokens| - 1])
  {
    if exists i :: 0 <= i < |tokens| && bit in ModifierBits(tokens[i]) {
      var i :| 0 <= i < |tokens| && bit in ModifierBits(tokens[i]);
      if i < |front| {
        assert front[i] == tokens[i];
      }
    }
    if exists i :: 0 <= i < |front| && bit in ModifierBits(front[i]) {
      var i :| 0 <= i < |front| && bit in ModifierBits(front[i]);
      assert front[i] == tokens[i];
    }
  }

  /** Only the four nameable bits can be set: never CapsLock or NumLock. */
  lemma {:induction false} ModsOnlyNamedBits(tokens: seq<string>)
    ensures TokensMods(tokens) <= NamedBits
    ensures TokensMods(tokens) !! LockBits
  {
    if tokens != [] {
      ModsOnlyNamedBits(tokens[..|tokens| - 1]);
    }
  }

  /** The mask of two token lists run one after the other is the union of their masks. */
  lemma {:induction false} ModsAppend(a: seq<string>, b: seq<string>)
    ensures TokensMods(a + b) == TokensMods(a) + TokensMods(b)
    decreases |b|
  {
    if b == [] {
      assert a + b == a;
    } else {
      var n := |b| - 1;
      assert (a + b)[..|a + b| - 1] == a + b[..n];
      ModsAppend(a, b[..n]);
    }
  }

  /** Order and repetition of the modifier tokens do not matter. */
  lemma ModsIgnoreOrder(a: seq<string>, b: seq<string>)
    ensures TokensMods(a + b) == TokensMods(b + a)
    ensures TokensMods(a + a) == TokensMods(a)
  {
    ModsAppend(a, b);
    ModsAppend(b, a);
    ModsAppend(a, a);
  }

  /** The last key token wins; earlier ones and modifiers do not matter. */
  lemma {:induction false} CodeLastKeyWins(tokens: seq<string>, keycodes: map<string, KeyCode>, j: int)
    requires 0 <= j < |tokens| && IsKeyToken(tokens[j], keycodes)
    requires forall i :: j < i < |tokens| ==> !IsKeyToken(tokens[i], keycodes)
    ensures TokensCode(tokens, keycodes) == keycodes[tokens[j]]
    decreases |tokens|
  {
    if j < |tokens| - 1 {
      var front := tokens[..|tokens| - 1];
      assert front[j] == tokens[j];
      CodeLastKeyWins(front, keycodes, j);
    }
  }

  /** Without any key token (unknown names are skipped) the code stays 0. */
  lemma {:induction false} CodeWithoutKeyToken(tokens: seq<string>, keycodes: map<string, KeyCode>)
    requires forall i :: 0 <= i < |tokens| ==> !IsKeyToken(tokens[i], keycodes)
    ensures TokensCode(tokens, keycodes) == 0
  {
    if tokens != [] {
      var front := tokens[..|tokens| - 1];
      assert forall i :: 0 <= i < |front| ==> front[i] == tokens[i];
      CodeWithoutKeyToken(front, keycodes);
    }
  }

  /** A key state with CapsLock and NumLock cleared: `state & ~(LockMask | Mod2Mask)`. */
  function CleanState(state: Mask): (c: Mask)
    ensures c !! LockBits
    ensures c + (state * LockBits) == state
  {
    state - LockBits
  }

  /** x11_event_filter's test of a key press against the hotkey. */
  predicate KeyMatches(keycode: int, state: Mask, hotCode: KeyCode, hotMods: Mask) {
    keycode == hotCode && CleanState(state) == hotMods
  }

  /** The four modifier masks x11_init grabs the key with: `mods | {0, LockMask, Mod2Mask, LockMask | Mod2Mask}`. */
  function GrabMasks(mods: Mask): (g: seq<Mask>)
    ensures |g| == 4
  {
    [mods, mods + {Lock}, mods + {Mod2}, mods + {Lock, Mod2}]
  }

  /**
   * The grabs and the filter agree: for a mask without lock bits, a key
   * state is one of the grabbed masks exactly when the filter accepts it.
   */
  lemma GrabbedIffMatched(code: KeyCode, mods: Mask, keycode: int, state: Mask)
    requires mods !! LockBits
    ensures (keycode == code && state in GrabMasks(mods)) <==> KeyMatches(keycode, state, code, mods)
  {
    var g := GrabMasks(mods);
    if CleanState(state) == mods {
      var locks := state * LockBits;
      assert locks <= {Lock, Mod2};
      assert locks == {} || locks == {Lock} || locks == {Mod2} || locks == {Lock, Mod2} by {
        if Lock in locks && Mod2 in locks {
          assert locks == {Lock, Mod2};
        } else if Lock in locks {
          assert locks == {Lock};
        } else if Mod2 in locks {
          assert locks == {Mod2};
        } else {
          assert locks == {};
        }
      }
      assert state == mods + locks;
      assert state == g[0] || state == g[1] || state == g[2] || state == g[3];
      assert state in g;
    }
    if state in g {
      assert state == g[0] || state == g[1] || state == g[2] || state == g[3];
      assert (mods + {Lock}) - LockBits == mods;
      assert (mods + {Mod2}) - LockBits == mods;
      assert (mods + {Lock, Mod2}) - LockBits == mods;
      assert mods - LockBits == mods;
    }
  }

  lemma CtrlToken(t: string)
    requires t == "Ctrl" || t == "CTRL"
    ensures ModifierBits(t) == {Control}
  {
    assert Lower(t) == Lower("Ctrl") by {
      assert Lower(t)[0] == 'c' && Lower(t)[1] == 't' && Lower(t)[2] == 'r' && Lower(t)[3] == 'l';
    }
  }

  lemma AltToken(t: string)
    requires t == "Alt" || t == "alt"
    ensures ModifierBits(t) == {Mod1}
  {
    assert Lower(t) == Lower("Alt") by {
      assert Lower(t)[0] == 'a' && Lower(t)[1] == 'l' && Lower(t)[2] == 't';
    }
  }

  lemma HToken()
    ensures ModifierBits("h") == {}
  {
    assert Lower("h") == "h";
    assert |Lower("Super")| == 5 && |Lower("Control")| == 7 && |Lower("Ctrl")| == 4;
    assert |Lower("Shift")| == 5 && |Lower("Alt")| == 3;
  }

  /** "Ctrl+Alt+h" sets Control and Mod1 and the key code of h. */
  lemma HotkeyExample(keycodes: map<string, KeyCode>)
    requires "h" in keycodes
    ensures TokensMods(["Ctrl", "Alt", "h"]) == {Control, Mod1}
    ensures TokensCode(["Ctrl", "Alt", "h"], keycodes) == keycodes["h"]
  {
    var tokens := ["Ctrl", "Alt", "h"];
    CtrlToken("Ctrl");
    AltToken("Alt");
    HToken();
    assert tokens[..2] == ["Ctrl", "Alt"] && tokens[..2][..1] == ["Ctrl"] && tokens[..2][..1][..0] == [];
    assert TokensMods(tokens[..2][..1]) == {Control};
    assert TokensMods(tokens[..2]) == {Control, Mod1};
  }

  /** "alt+CTRL+h" names the same modifiers. */
  lemma HotkeyExampleReordered()
    ensures TokensMods(["alt", "CTRL", "h"]) == TokensMods(["Ctrl", "Alt", "h"])
  {
    var tokens := ["alt", "CTRL", "h"];
    CtrlToken("Ctrl");
    AltToken("Alt");
    CtrlToken("CTRL");
    AltToken("alt");
    HToken();
    var other := ["Ctrl", "Alt", "h"];
    assert tokens[..2] == ["alt", "CTRL"] && tokens[..2][..1] == ["alt"] && tokens[..2][..1][..0] == [];
    assert other[..2] == ["Ctrl", "Alt"] && other[..2][..1] == ["Ctrl"] && other[..2][..1][..0] == [];
    assert TokensMods(tokens[..2][..1]) == {Mod1};
    assert TokensMods(tokens[..2]) == {Mod1, Control};
    assert TokensMods(other[..2][..1]) == {Control};
    assert TokensMods(other[..2]) == {Control, Mod1};
  }

  /** What the parser yields can always be grabbed and matched consistently. */
  lemma ParsedModsHaveNoLocks(hotkey: Option<string>)
    ensures ParsedMods(hotkey) !! LockBits
  {
    if hotkey.Some? {
      ModsOnlyNamedBits(Split(hotkey.value, '+'));
    }
  }
}
