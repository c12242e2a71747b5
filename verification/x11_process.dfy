/**
 * The /proc side of the X11 backend: matching a process's environment
 * against a window id, and walking from a window's process down to its
 * deepest child. /proc is a fixed snapshot given as input.
 */
module X11Process {
  import opened Wrappers
  import opened Ascii

  const Nul: char := '\0'

  /** match_window_id reads at most this many bytes of /proc/<pid>/environ. */
  const EnvironReadMax: nat := 4096

  /** "WINDOWID=<n>", as snprintf writes it with "%lu". */
  function Needle(target: nat): (n: string)
    ensures |n| > 9 && !Contains(n, Nul)
  {
    "WINDOWID=" + Decimal(target)
  }

  /** The needle is "WINDOWID=" followed by the window id's decimal digits. */
  lemma NeedleText(target: nat)
    ensures HasPrefix(Needle(target), "WINDOWID=") && Needle(target)[9..] == Decimal(target)
  {
    var n := Needle(target);
    assert n[..9] == "WINDOWID=" && n[9..] == Decimal(target);
  }

  /** Each window has its own needle. */
  lemma NeedleInjective(a: nat, b: nat)
    ensures Needle(a) == Needle(b) <==> a == b
  {
    NeedleText(a);
    NeedleText(b);
    DecimalInjective(a, b);
  }

  lemma NeedleExamples()
    ensures Needle(123) == "WINDOWID=123" && Needle(1234) == "WINDOWID=1234"
  {
    DecimalExamples();
  }

  /** The bytes one fread call gets from the environ file. */
  function EnvironBuffer(contents: string): (buf: string)
    ensures |buf| == if |contents| <= EnvironReadMax then |contents| else EnvironReadMax
    ensures HasPrefix(contents, buf)
  {
    if |contents| <= EnvironReadMax then contents else contents[..EnvironReadMax]
  }

  /** The index of the first entry that begins with `needle`. */
  function FirstWithPrefix(entries: seq<string>, needle: string): (r: Option<nat>)
    ensures r.Some? ==> r.value < |entries| && HasPrefix(entries[r.value], needle)
    ensures r.Some? ==> forall i :: 0 <= i < r.value ==> !HasPrefix(entries[i], needle)
    ensures r.None? ==> forall i :: 0 <= i < |entries| ==> !HasPrefix(entries[i], needle)
  {
    if entries == [] then None
    else if HasPrefix(entries[0], needle) then Some(0)
    else match FirstWithPrefix(entries[1..], needle)
      case None => None
      case Some(i) => Some(i + 1)
  }

  /** The first entry that begins with `needle` is exactly `needle`. */
  predicate EntriesMatch(entries: seq<string>, needle: string) {
    var f := FirstWithPrefix(entries, needle);
    f.Some? && entries[f.value] == needle
  }

  /**
   * match_window_id's answer: false for window 0 or an unreadable file;
   * otherwise the first NUL-separated entry of the bytes read that starts
   * with "WINDOWID=<n>" decides, and it matches only if it is exactly that.
   */
  predicate WindowIdMatches(target: nat, environ: Option<string>) {
    target != 0 && environ.Some? && EntriesMatch(Split(EnvironBuffer(environ.value), Nul), Needle(target))
  }

  /** A match means the environment holds the exact entry "WINDOWID=<n>". */
  lemma MatchIsExactEntry(target: nat, environ: Option<string>)
    requires WindowIdMatches(target, environ)
    ensures target != 0 && environ.Some?
    ensures Needle(target) in Split(EnvironBuffer(environ.value), Nul)
  {
  }

  /**
   * An exact entry matches when no earlier entry starts with the same
   * text; an earlier longer id such as "WINDOWID=1234" for window 123 hides it.
   */
  lemma ExactEntryMatches(entries: seq<string>, needle: string, k: nat)
    requires k < |entries| && entries[k] == needle
    requires forall i :: 0 <= i < k ==> !HasPrefix(entries[i], needle)
    ensures EntriesMatch(entries, needle)
  {
    var f := FirstWithPrefix(entries, needle);
    assert HasPrefix(entries[k], needle) by {
      assert entries[k][..|needle|] == needle;
    }
  }

  lemma LongerIdHidesExact()
    ensures !EntriesMatch(["HOME=/root", Needle(1234), Needle(123)], Needle(123))
    ensures EntriesMatch(["HOME=/root", Needle(123), Needle(1234)], Needle(123))
  {
    NeedleExamples();
    var hidden := ["HOME=/root", "WINDOWID=1234", "WINDOWID=123"];
    var shown := ["HOME=/root", "WINDOWID=123", "WINDOWID=1234"];
    assert "WINDOWID=1234"[..12] == "WINDOWID=123";
    assert !HasPrefix(hidden[0], "WINDOWID=123");
    assert HasPrefix(hidden[1], "WINDOWID=123");
    assert FirstWithPrefix(hidden, "WINDOWID=123") == Some(1);
    assert hidden[1] != "WINDOWID=123";
    ExactEntryMatches(shown, "WINDOWID=123", 1);
  }

  /** strncmp(buf + pos, needle, strlen(needle)) == 0, within the bytes read. */
  predicate StartsAt(buf: string, pos: nat, needle: string) {
    pos + |needle| <= |buf| && buf[pos..pos + |needle|] == needle
  }

  /** match_window_id. */
  method MatchWindowId(target: nat, environ: Option<string>) returns (found: bool)
    ensures found == WindowIdMatches(target, environ)
  {
    if target == 0 {
      return false;
    }
    if environ.None? {
      return false;
    }
    var buf := EnvironBuffer(environ.value);
    found := false;
    if |buf| > 0 {
      found := ScanEnviron(buf, Needle(target));
    }
  }

  /** The entries from byte `pos` on decide a match. */
  predicate MatchesFrom(buf: string, pos: nat, needle: string) {
    pos <= |buf| && EntriesMatch(SplitPieces(buf[pos..], Nul), needle)
  }

  /** The scan over the bytes read: strncmp at each entry's start, then a skip past its NUL. */
  method ScanEnviron(buf: string, needle: string) returns (found: bool)
    requires |buf| > 0 && |needle| > 0 && !Contains(needle, Nul)
    ensures found == EntriesMatch(SplitPieces(buf, Nul), needle)
  {
    assert buf[0..] == buf;
    var pos := 0;
    while pos < |buf|
      invariant 0 <= pos <= |buf| + 1
      invariant EntriesMatch(SplitPieces(buf, Nul), needle) == MatchesFrom(buf, pos, needle)
      decreases |buf| + 1 - pos
    {
      var decided, next;
      decided, found, next := ScanEntry(buf, pos, needle);
      if decided {
        return;
      }
      pos := next;
    }
    found := false;
    if pos == |buf| {
      NothingAtEnd(buf, needle);
    }
  }

  /**
   * One entry of the scan: strncmp at its start decides the answer, or the
   * scan moves past the entry's NUL to `next`.
   */
  method ScanEntry(buf: string, pos: nat, needle: string) returns (decided: bool, found: bool, next: nat)
    requires pos < |buf| && !Contains(needle, Nul)
    ensures decided ==> found == MatchesFrom(buf, pos, needle)
    ensures !decided ==> pos < next <= |buf| + 1 && MatchesFrom(buf, pos, needle) == MatchesFrom(buf, next, needle)
  {
    if StartsAt(buf, pos, needle) {
      MatchEntry(buf, pos, needle);
      return true, pos + |needle| >= |buf| || buf[pos + |needle|] == Nul, pos;
    }
    var end := EntryEnd(buf, pos);
    SkipEntry(buf, pos, end, needle);
    return false, false, end + 1;
  }

  /** Past the last byte there is one empty entry, which no needle prefixes. */
  lemma NothingAtEnd(buf: string, needle: string)
    requires |needle| > 0
    ensures !MatchesFrom(buf, |buf|, needle)
  {
    assert SplitPieces(buf[|buf|..], Nul) == [[]];
  }

  /** The position of the NUL that ends the entry starting at `start`, or the end of the bytes. */
  method EntryEnd(buf: string, start: nat) returns (end: nat)
    requires start <= |buf|
    ensures start <= end <= |buf|
    ensures forall j :: start <= j < end ==> buf[j] != Nul
    ensures end == |buf| || buf[end] == Nul
  {
    end := start;
    while end < |buf| && buf[end] != Nul
      invariant start <= end <= |buf|
      invariant forall j :: start <= j < end ==> buf[j] != Nul
    {
      end := end + 1;
    }
  }

  /** An entry without the prefix is passed over. */
  lemma EntriesMatchSkip(e: string, rest: seq<string>, needle: string)
    requires !HasPrefix(e, needle)
    ensures EntriesMatch([e] + rest, needle) == EntriesMatch(rest, needle)
  {
    assert ([e] + rest)[1..] == rest;
  }

  /** An entry with the prefix decides. */
  lemma EntriesMatchHead(e: string, rest: seq<string>, needle: string)
    requires HasPrefix(e, needle)
    ensures EntriesMatch([e] + rest, needle) == (e == needle)
  {
  }

  /** At an entry that starts with the needle, the byte after the needle decides. */
  lemma MatchEntry(buf: string, start: nat, needle: string)
    requires start < |buf| && !Contains(needle, Nul)
    requires StartsAt(buf, start, needle)
    ensures MatchesFrom(buf, start, needle) == (start + |needle| >= |buf| || buf[start + |needle|] == Nul)
  {
    var rest := buf[start..];
    assert rest[..|needle|] == needle;
    match IndexOf(rest, Nul)
    case None =>
      EntriesMatchHead(rest, [], needle);
      assert SplitPieces(rest, Nul) == [rest];
      assert start + |needle| < |buf| ==> buf[start + |needle|] == rest[|needle|];
      assert rest == needle <==> |rest| == |needle|;
    case Some(i) =>
      assert forall j :: 0 <= j < |needle| ==> rest[j] != Nul by {
        forall j | 0 <= j < |needle| ensures rest[j] != Nul {
          assert rest[..|needle|][j] == rest[j];
        }
      }
      var e := rest[..i];
      assert e[..|needle|] == needle;
      EntriesMatchHead(e, SplitPieces(rest[i + 1..], Nul), needle);
      assert buf[start + |needle|] == rest[|needle|];
      assert e == needle <==> i == |needle|;
  }

  /** At an entry that does not start with the needle, the scan resumes after its NUL. */
  lemma SkipEntry(buf: string, start: nat, end: nat, needle: string)
    requires start < |buf| && start <= end <= |buf|
    requires forall j :: start <= j < end ==> buf[j] != Nul
    requires end == |buf| || buf[end] == Nul
    requires !StartsAt(buf, start, needle)
    ensures MatchesFrom(buf, start, needle) == MatchesFrom(buf, end + 1, needle)
  {
    if end == |buf| {
      SkipLastEntry(buf, start, needle);
    } else {
      SkipInnerEntry(buf, start, end, needle);
    }
  }

  /** The entry at `start` runs to the end of the bytes: without the needle, nothing matches. */
  lemma SkipLastEntry(buf: string, start: nat, needle: string)
    requires start < |buf|
    requires forall j :: start <= j < |buf| ==> buf[j] != Nul
    requires !StartsAt(buf, start, needle)
    ensures !MatchesFrom(buf, start, needle)
  {
    var rest := buf[start..];
    assert forall j :: 0 <= j < |rest| ==> rest[j] != Nul;
    assert IndexOf(rest, Nul).None?;
    assert SplitPieces(rest, Nul) == [rest] + [];
    PrefixStartsAt(buf, start, rest, needle);
    EntriesMatchSkip(rest, [], needle);
  }

  /** The entry at `start` ends at the NUL at `end`: without the needle, the scan resumes after it. */
  lemma SkipInnerEntry(buf: string, start: nat, end: nat, needle: string)
    requires start <= end < |buf|
    requires forall j :: start <= j < end ==> buf[j] != Nul
    requires buf[end] == Nul
    requires !StartsAt(buf, start, needle)
    ensures MatchesFrom(buf, start, needle) == MatchesFrom(buf, end + 1, needle)
  {
    var rest := buf[start..];
    var k := end - start;
    assert forall j :: 0 <= j < k ==> rest[j] != Nul;
    assert rest[k] == Nul;
    assert IndexOf(rest, Nul) == Some(k);
    var e := rest[..k];
    assert e == buf[start..start + |e|];
    PrefixStartsAt(buf, start, e, needle);
    assert rest[k + 1..] == buf[end + 1..];
    EntriesMatchSkip(e, SplitPieces(rest[k + 1..], Nul), needle);
  }

  /** An entry read at `start` that begins with the needle makes strncmp succeed there. */
  lemma PrefixStartsAt(buf: string, start: nat, e: string, needle: string)
    requires start + |e| <= |buf| && e == buf[start..start + |e|]
    ensures HasPrefix(e, needle) ==> StartsAt(buf, start, needle)
  {
    if |needle| <= |e| {
      assert buf[start..start + |needle|] == e[..|needle|];
    }
  }

  /** A process id as /proc lists it. */
  type Pid = p: int | p > 0 witness 1

  /**
   * One numerically named /proc entry: its pid, its parent's pid when the
   * stat line can be read and parsed, and its environ file when it can be
   * opened.
   */
  datatype ProcEntry = ProcEntry(pid: Pid, ppid: Option<int>, environ: Option<string>)

  /** /proc as the walk sees it: whether it can be opened, its entries in readdir order, and getpid(). */
  datatype ProcTable = ProcTable(listable: bool, entries: seq<ProcEntry>, selfPid: int)

  /** A child of `current` for the walk: parent `current`, and neither `current` itself nor the daemon. */
  predicate IsChild(e: ProcEntry, current: int, selfPid: int) {
    e.pid != current && e.pid != selfPid && e.ppid == Some(current)
  }

  /** A child whose environment names the window. */
  predicate Claims(e: ProcEntry, current: int, selfPid: int, window: nat) {
    IsChild(e, current, selfPid) && WindowIdMatches(window, e.environ)
  }

  /** The first child in enumeration order. */
  function FirstChild(entries: seq<ProcEntry>, current: int, selfPid: int): (r: Option<Pid>)
    ensures r.Some? ==> exists k :: 0 <= k < |entries| && IsChild(entries[k], current, selfPid) && entries[k].pid == r.value
    ensures r.None? <==> forall k :: 0 <= k < |entries| ==> !IsChild(entries[k], current, selfPid)
  {
    if entries == [] then None
    else
      var n := |entries| - 1;
      var front := FirstChild(entries[..n], current, selfPid);
      assert forall k :: 0 <= k < n ==> entries[..n][k] == entries[k];
      if front.Some? then front
      else if IsChild(entries[n], current, selfPid) then Some(entries[n].pid)
      else None
  }

  /** The first child in enumeration order whose environment names the window. */
  function FirstClaimingChild(entries: seq<ProcEntry>, current: int, selfPid: int, window: nat): Option<Pid> {
    if entries == [] then None
    else
      var n := |entries| - 1;
      var front := FirstClaimingChild(entries[..n], current, selfPid, window);
      if front.Some? then front
      else if Claims(entries[n], current, selfPid, window) then Some(entries[n].pid)
      else None
  }

  /** The claiming child found is a claiming entry; none is found only when no entry claims the window. */
  lemma FirstClaimingChildIsClaiming(entries: seq<ProcEntry>, current: int, selfPid: int, window: nat)
    ensures var r := FirstClaimingChild(entries, current, selfPid, window);
      r.Some? ==> exists k :: 0 <= k < |entries| && Claims(entries[k], current, selfPid, window) && entries[k].pid == r.value
    ensures FirstClaimingChild(entries, current, selfPid, window).None? <==>
      forall k :: 0 <= k < |entries| ==> !Claims(entries[k], current, selfPid, window)
  {
    FirstClaimingChildFound(entries, current, selfPid, window);
    FirstClaimingChildNone(entries, current, selfPid, window);
  }

  lemma {:induction false} FirstClaimingChildFound(entries: seq<ProcEntry>, current: int, selfPid: int, window: nat)
    ensures var r := FirstClaimingChild(entries, current, selfPid, window);
      r.Some? ==> exists k :: 0 <= k < |entries| && Claims(entries[k], current, selfPid, window) && entries[k].pid == r.value
  {
    if entries != [] {
      var n := |entries| - 1;
      var init := entries[..n];
      var front := FirstClaimingChild(init, current, selfPid, window);
      if front.Some? {
        FirstClaimingChildFound(init, current, selfPid, window);
        var k :| 0 <= k < n && Claims(init[k], current, selfPid, window) && init[k].pid == front.value;
        assert init[k] == entries[k];
      }
    }
  }

  lemma {:induction false} FirstClaimingChildNone(entries: seq<ProcEntry>, current: int, selfPid: int, window: nat)
    ensures FirstClaimingChild(entries, current, selfPid, window).None? <==>
      forall k :: 0 <= k < |entries| ==> !Claims(entries[k], current, selfPid, window)
  {
    if entries != [] {
      var n := |entries| - 1;
      var init := entries[..n];
      FirstClaimingChildNone(init, current, selfPid, window);
      if FirstClaimingChild(init, current, selfPid, window).None? {
        assert forall k :: 0 <= k < n ==> init[k] == entries[k];
      } else {
        var k :| 0 <= k < n && Claims(init[k], current, selfPid, window);
        assert init[k] == entries[k];
      }
    }
  }

  /** A found pid, or 0 for none, as the C code keeps it. */
  function PidOrZero(p: Option<Pid>): (r: int)
    ensures r == 0 <==> p.None?
  {
    if p.Some? then p.value else 0
  }

  /** The outcome of one level: the child descended into (0 for none) and whether the branch is now locked. */
  datatype Choice = Choice(child: int, locked: bool)

  /**
   * One level of get_deepest_child: while the branch is not locked and a
   * window is given, the first claiming child wins and locks the branch;
   * otherwise the first child is taken and the lock stays as it was.
   */
  function ChildChoice(procs: ProcTable, current: int, locked: bool, window: nat): Choice {
    var claiming := FirstClaimingChild(procs.entries, current, procs.selfPid, window);
    if !locked && window != 0 && claiming.Some? then Choice(claiming.value, true)
    else match FirstChild(procs.entries, current, procs.selfPid)
      case Some(p) => Choice(p, locked)
      case None => Choice(0, locked)
  }

  /**
   * The child chosen at a level is a child of the current process; none
   * is chosen only when there is no child at all; a locked branch stays
   * locked and then always takes the first child; an unlocked branch with
   * a window takes a child that claims it, when one does, and locks.
   */
  lemma ChildChoiceFacts(procs: ProcTable, current: int, locked: bool, window: nat)
    ensures var c := ChildChoice(procs, current, locked, window);
      c.child != 0 ==> exists k :: 0 <= k < |procs.entries| && IsChild(procs.entries[k], current, procs.selfPid) && procs.entries[k].pid == c.child
    ensures ChildChoice(procs, current, locked, window).child == 0 <==> FirstChild(procs.entries, current, procs.selfPid).None?
    ensures locked ==> ChildChoice(procs, current, locked, window).locked
    ensures var c := ChildChoice(procs, current, locked, window);
      !locked && window != 0 && (exists k :: 0 <= k < |procs.entries| && Claims(procs.entries[k], current, procs.selfPid, window)) ==>
        c.locked && exists k :: 0 <= k < |procs.entries| && Claims(procs.entries[k], current, procs.selfPid, window) && procs.entries[k].pid == c.child
    ensures locked ==> ChildChoice(procs, current, locked, window).child == PidOrZero(FirstChild(procs.entries, current, procs.selfPid))
  {
    var claiming := FirstClaimingChild(procs.entries, current, procs.selfPid, window);
    FirstClaimingChildIsClaiming(procs.entries, current, procs.selfPid, window);
    if claiming.Some? {
      var k :| 0 <= k < |procs.entries| && Claims(procs.entries[k], current, procs.selfPid, window) && procs.entries[k].pid == claiming.value;
      assert !(forall k :: 0 <= k < |procs.entries| ==> !IsChild(procs.entries[k], current, procs.selfPid));
    }
  }

  /** Within one readdir pass, a child found in a prefix stays the first child of the whole. */
  lemma {:induction false} FirstChildPrefix(entries: seq<ProcEntry>, current: int, selfPid: int, k: nat)
    requires k <= |entries| && FirstChild(entries[..k], current, selfPid).Some?
    ensures FirstChild(entries, current, selfPid) == FirstChild(entries[..k], current, selfPid)
    decreases |entries| - k
  {
    if k < |entries| {
      assert entries[..k + 1][..k] == entries[..k];
      FirstChildPrefix(entries, current, selfPid, k + 1);
    } else {
      assert entries[..k] == entries;
    }
  }

  lemma {:induction false} FirstClaimingChildPrefix(entries: seq<ProcEntry>, current: int, selfPid: int, window: nat, k: nat)
    requires k <= |entries| && FirstClaimingChild(entries[..k], current, selfPid, window).Some?
    ensures FirstClaimingChild(entries, current, selfPid, window) == FirstClaimingChild(entries[..k], current, selfPid, window)
    decreases |entries| - k
  {
    if k < |entries| {
      assert entries[..k + 1][..k] == entries[..k];
      FirstClaimingChildPrefix(entries, current, selfPid, window, k + 1);
    } else {
      assert entries[..k] == entries;
    }
  }

  /** One more /proc entry extends both searches by that entry. */
  lemma PickStep(entries: seq<ProcEntry>, k: nat, current: int, selfPid: int, window: nat)
    requires k < |entries|
    ensures FirstChild(entries[..k + 1], current, selfPid) ==
      if FirstChild(entries[..k], current, selfPid).Some? then FirstChild(entries[..k], current, selfPid)
      else if IsChild(entries[k], current, selfPid) then Some(entries[k].pid)
      else None
    ensures FirstClaimingChild(entries[..k + 1], current, selfPid, window) ==
      if FirstClaimingChild(entries[..k], current, selfPid, window).Some? then FirstClaimingChild(entries[..k], current, selfPid, window)
      else if Claims(entries[k], current, selfPid, window) then Some(entries[k].pid)
      else None
  {
    assert entries[..k + 1][..k] == entries[..k];
  }

  /**
   * The tests get_deepest_child makes on one /proc entry: whether it is a
   * child of `current`, and, when `testClaim` holds (branch unlocked and a
   * window given), whether its environment names the window.
   */
  method ExamineEntry(e: ProcEntry, current: int, selfPid: int, testClaim: bool, window: nat) returns (child: bool, claims: bool)
    ensures child == IsChild(e, current, selfPid)
    ensures claims == (testClaim && Claims(e, current, selfPid, window))
  {
    child := e.pid != current && e.pid != selfPid && e.ppid == Some(current);
    claims := false;
    if child && testClaim {
      claims := MatchWindowId(window, e.environ);
    }
  }

  /** The scan of one /proc listing in get_deepest_child. */
  method PickChild(procs: ProcTable, current: int, locked: bool, window: nat) returns (found: int, nowLocked: bool)
    ensures Choice(found, nowLocked) == ChildChoice(procs, current, locked, window)
  {
    var entries := procs.entries;
    found := 0;
    nowLocked := locked;
    var k := 0;
    while k < |entries|
      invariant 0 <= k <= |entries|
      invariant nowLocked == locked
      invariant found == PidOrZero(FirstChild(entries[..k], current, procs.selfPid))
      invariant !locked && window != 0 ==> FirstClaimingChild(entries[..k], current, procs.selfPid, window).None?
      invariant locked ==> found == 0
    {
      var e := entries[k];
      PickStep(entries, k, current, procs.selfPid, window);
      var child, claims := ExamineEntry(e, current, procs.selfPid, !nowLocked && window != 0, window);
      if claims {
        found := e.pid;
        nowLocked := true;
        FirstClaimingChildPrefix(entries, current, procs.selfPid, window, k + 1);
        break;
      }
      if child && found == 0 {
        found := e.pid;
      }
      if nowLocked && found != 0 {
        FirstChildPrefix(entries, current, procs.selfPid, k + 1);
        break;
      }
      k := k + 1;
    }
    if k == |entries| {
      assert entries[..k] == entries;
    }
  }

  /**
   * The process table is a forest: every parent link goes to a strictly
   * higher rank, so the walk cannot cycle.
   */
  ghost predicate Ranked(entries: seq<ProcEntry>, rank: map<int, nat>) {
    forall k :: 0 <= k < |entries| && entries[k].ppid.Some? ==>
      entries[k].pid in rank && entries[k].ppid.value in rank && rank[entries[k].pid] < rank[entries[k].ppid.value]
  }

  /** The measure of the walk: the rank of the current process. */
  ghost function Height(current: int, rank: map<int, nat>): nat {
    if current in rank then rank[current] + 1 else 0
  }

  /** A chosen child sits strictly lower than its parent. */
  lemma ChildIsLower(procs: ProcTable, current: int, locked: bool, window: nat, rank: map<int, nat>)
    requires Ranked(procs.entries, rank)
    requires ChildChoice(procs, current, locked, window).child != 0
    ensures Height(ChildChoice(procs, current, locked, window).child, rank) < Height(current, rank)
  {
    ChildChoiceFacts(procs, current, locked, window);
  }

  /** Where the walk from `current` stops: the first process without children along the chosen branch. */
  ghost function WalkEnd(procs: ProcTable, current: int, locked: bool, window: nat, rank: map<int, nat>): int
    requires Ranked(procs.entries, rank)
    decreases Height(current, rank)
  {
    if !procs.listable then current
    else
      var c := ChildChoice(procs, current, locked, window);
      if c.child == 0 then current
      else
        ChildIsLower(procs, current, locked, window, rank);
        WalkEnd(procs, c.child, c.locked, window, rank)
  }

  /** get_deepest_child's result: the end of the walk, or 0 when it never left the start. */
  ghost function DeepestChildOf(procs: ProcTable, start: int, window: nat, rank: map<int, nat>): int
    requires Ranked(procs.entries, rank)
  {
    var end := WalkEnd(procs, start, false, window, rank);
    if end == start then 0 else end
  }

  /** get_deepest_child; `rank` witnesses that the process table has no cycle. */
  method DeepestChild(procs: ProcTable, start: int, window: nat, ghost rank: map<int, nat>) returns (child: int)
    requires Ranked(procs.entries, rank)
    ensures child == DeepestChildOf(procs, start, window, rank)
  {
    var current := start;
    var locked := false;
    while true
      invariant WalkEnd(procs, current, locked, window, rank) == WalkEnd(procs, start, false, window, rank)
      decreases Height(current, rank)
    {
      if !procs.listable {
        break;
      }
      var found, nowLocked := PickChild(procs, current, locked, window);
      if found == 0 {
        break;
      }
      ChildIsLower(procs, current, locked, window, rank);
      current := found;
      locked := nowLocked;
    }
    child := if current == start then 0 else current;
  }

  /** The walk stops at a process that has no children. */
  lemma {:induction false} WalkEndsAtLeaf(procs: ProcTable, current: int, locked: bool, window: nat, rank: map<int, nat>)
    requires Ranked(procs.entries, rank) && procs.listable
    ensures FirstChild(procs.entries, WalkEnd(procs, current, locked, window, rank), procs.selfPid).None?
    decreases Height(current, rank)
  {
    ChildChoiceFacts(procs, current, locked, window);
    var c := ChildChoice(procs, current, locked, window);
    if c.child != 0 {
      ChildIsLower(procs, current, locked, window, rank);
      WalkEndsAtLeaf(procs, c.child, c.locked, window, rank);
    }
  }

  /** Each step goes down one rank, so the walk ends at the start or at a process strictly below it. */
  lemma {:induction false} WalkDescends(procs: ProcTable, current: int, locked: bool, window: nat, rank: map<int, nat>)
    requires Ranked(procs.entries, rank)
    ensures var end := WalkEnd(procs, current, locked, window, rank);
      end == current || (end > 0 && Height(end, rank) < Height(current, rank))
    decreases Height(current, rank)
  {
    if procs.listable {
      var c := ChildChoice(procs, current, locked, window);
      ChildChoiceFacts(procs, current, locked, window);
      if c.child != 0 {
        ChildIsLower(procs, current, locked, window, rank);
        WalkDescends(procs, c.child, c.locked, window, rank);
      }
    }
  }

  /** The result is 0 exactly when /proc cannot be listed or the start has no child. */
  lemma DeepestChildZero(procs: ProcTable, start: int, window: nat, rank: map<int, nat>)
    requires Ranked(procs.entries, rank)
    ensures DeepestChildOf(procs, start, window, rank) == 0 <==>
      !procs.listable || FirstChild(procs.entries, start, procs.selfPid).None?
  {
    ChildChoiceFacts(procs, start, false, window);
    var c := ChildChoice(procs, start, false, window);
    if procs.listable && c.child != 0 {
      var k :| 0 <= k < |procs.entries| && IsChild(procs.entries[k], start, procs.selfPid) && procs.entries[k].pid == c.child;
      assert c.child != start;
      ChildIsLower(procs, start, false, window, rank);
      WalkDescends(procs, c.child, c.locked, window, rank);
      assert WalkEnd(procs, start, false, window, rank) == WalkEnd(procs, c.child, c.locked, window, rank);
    }
  }
}
