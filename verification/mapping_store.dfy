/**
 * The mapping store: a table from application key to sheet path, loaded
 * from and saved to a tab-separated file. The file's text is an input to
 * `Load` (None when it cannot be opened) and the text `Save` writes is its
 * result (None when nothing is written).
 */
module MappingStore {
  import opened Wrappers
  import opened Ascii

  const Tab: char := '\t'
  const Newline: char := '\n'

  /** fgets into a 1024-byte buffer returns at most 1023 characters per call. */
  const FgetsMax: nat := 1023

  /**
   * The successive results of fgets on `text`: each runs through the next
   * newline, or is cut at FgetsMax characters, or runs to the end of the text.
   */
  function FgetsLines(text: string): (lines: seq<string>)
    ensures forall k :: 0 <= k < |lines| ==> 0 < |lines[k]| <= FgetsMax
    decreases |text|
  {
    if text == [] then []
    else
      var len := FgetsCut(text);
      [text[..len]] + FgetsLines(text[len..])
  }

  /** How much one fgets call takes: through the first newline, at most FgetsMax characters. */
  function FgetsCut(text: string): (len: nat)
    requires text != []
    ensures 0 < len <= |text| && len <= FgetsMax
  {
    var n := match IndexOf(text, Newline) case Some(i) => i + 1 case None => |text|;
    if n <= FgetsMax then n else FgetsMax
  }

  /** One trailing newline dropped, as the loader does before splitting. */
  function StripNewline(line: string): string {
    if |line| > 0 && line[|line| - 1] == Newline then line[..|line| - 1] else line
  }

  /**
   * One line of the file: the key is the text before the first tab, the
   * value the text after it up to the next tab (a legacy third column is
   * dropped). A line without a tab gives nothing.
   */
  function ParseLine(line: string): Option<(string, string)> {
    var text := StripNewline(line);
    match IndexOf(text, Tab)
    case None => None
    case Some(t) =>
      var rest := text[t + 1..];
      var value := match IndexOf(rest, Tab) case None => rest case Some(u) => rest[..u];
      Some((text[..t], value))
  }

  /** A line gives an entry exactly when it holds a tab, and neither field of the entry holds one. */
  lemma ParseLineTabs(line: string)
    ensures ParseLine(line).None? <==> !Contains(line, Tab)
    ensures ParseLine(line).Some? ==> !Contains(ParseLine(line).value.0, Tab) && !Contains(ParseLine(line).value.1, Tab)
  {
    var text := StripNewline(line);
    assert forall i :: 0 <= i < |text| ==> line[i] == text[i];
    match IndexOf(text, Tab)
    case None =>
      if |line| > 0 && line[|line| - 1] == Newline {
        assert |text| == |line| - 1;
      }
    case Some(t) =>
      assert line[t] == Tab;
  }

  /** The table the lines give, each line replacing what earlier lines filed under its key. */
  function ParseLines(lines: seq<string>): map<string, string> {
    if lines == [] then map[]
    else Filed(ParseLines(lines[..|lines| - 1]), ParseLine(lines[|lines| - 1]))
  }

  /** The table once one line's entry, if it has one, is filed: g_hash_table_replace. */
  function Filed(m: map<string, string>, entry: Option<(string, string)>): map<string, string> {
    if entry.Some? then m[entry.value.0 := entry.value.1] else m
  }

  /** The table a file's text loads as. */
  function Parse(text: string): map<string, string> {
    ParseLines(FgetsLines(text))
  }

  /** The line `save` writes for one entry. */
  function LineFor(key: string, value: string): string {
    key + [Tab] + value + [Newline]
  }

  /** The lines for the keys of `order`, in that order. */
  function Lines(order: seq<string>, m: map<string, string>): (lines: seq<string>)
    requires forall i :: 0 <= i < |order| ==> order[i] in m
    ensures |lines| == |order|
  {
    seq(|order|, i requires 0 <= i < |order| => LineFor(order[i], m[order[i]]))
  }

  function Concat(lines: seq<string>): string {
    if lines == [] then [] else lines[0] + Concat(lines[1..])
  }

  predicate Distinct(order: seq<string>) {
    forall i, j :: 0 <= i < j < |order| ==> order[i] != order[j]
  }

  /**
   * `text` holds one line per entry of `m` and nothing else, in some order
   * (the hash table's iteration order, which the model leaves open).
   */
  ghost predicate IsSerialisation(text: string, m: map<string, string>) {
    exists order: seq<string> ::
      && (forall i :: 0 <= i < |order| ==> order[i] in m)
      && (forall k :: k in m ==> k in order)
      && Distinct(order)
      && text == Concat(Lines(order, m))
  }

  /** A field the file format can carry: no tab and no newline. */
  predicate Plain(s: string) {
    !Contains(s, Tab) && !Contains(s, Newline)
  }

  /** Every entry survives a save and a load: plain fields, and each line fits one fgets call. */
  predicate WellFormed(m: map<string, string>) {
    forall k :: k in m ==> Plain(k) && Plain(m[k]) && |LineFor(k, m[k])| <= FgetsMax
  }

  class Store {
    /** map: key -> sheet path */
    var table: map<string, string>
    /** file_path; None stands for NULL */
    const filePath: Option<string>

    /**
     * cheeter_mapping_load. `contents` is the file's text, or None when it
     * cannot be opened; a NULL path or an unopenable file gives an empty
     * store that still records the path.
     */
    constructor Load(filePath: Option<string>, contents: Option<string>)
      ensures this.filePath == filePath
      ensures table == if filePath.Some? && contents.Some? then Parse(contents.value) else map[]
    {
      this.filePath := filePath;
      var m := map[];
      if filePath.Some? && contents.Some? {
        var lines := FgetsLines(contents.value);
        var i := 0;
        while i < |lines|
          invariant 0 <= i <= |lines|
          invariant m == ParseLines(lines[..i])
        {
          assert lines[..i + 1][..i] == lines[..i];
          match ParseLine(lines[i]) {
            case Some((k, v)) => m := m[k := v];
            case None =>
          }
          i := i + 1;
        }
        assert lines[..i] == lines;
      }
      table := m;
    }

    /** cheeter_mapping_get */
    function Get(key: string): (r: Option<string>)
      reads this
      ensures r.Some? <==> key in table
      ensures r.Some? ==> r.value == table[key]
    {
      if key in table then Some(table[key]) else None
    }

    /**
     * cheeter_mapping_save. `canOpen` says whether fopen(path, "w") succeeds.
     * Writes one line per entry and nothing else; that text loads back as
     * the same table.
     */
    method Save(canOpen: bool) returns (written: Option<string>)
      ensures written.Some? <==> filePath.Some? && canOpen
      ensures written.Some? ==> IsSerialisation(written.value, table)
      ensures written.Some? && WellFormed(table) ==> Parse(written.value) == table
    {
      if filePath.None? || !canOpen {
        return None;
      }
      var rest := table.Keys;
      ghost var order: seq<string> := [];
      var text := "";
      while rest != {}
        invariant rest <= table.Keys
        invariant forall i :: 0 <= i < |order| ==> order[i] in table && order[i] !in rest
        invariant forall k :: k in table ==> k in rest || k in order
        invariant Distinct(order)
        invariant text == Concat(Lines(order, table))
        decreases |rest|
      {
        var k :| k in rest;
        assert Lines(order + [k], table) == Lines(order, table) + [LineFor(k, table[k])];
        ConcatSnoc(Lines(order, table), LineFor(k, table[k]));
        text := text + LineFor(k, table[k]);
        order := order + [k];
        rest := rest - {k};
      }
      written := Some(text);
      if WellFormed(table) {
        RoundTrip(text, table);
      }
    }

    /** cheeter_mapping_set: replace the entry for `key`, then save the whole table. */
    method Set(key: string, value: string, canOpen: bool) returns (written: Option<string>)
      modifies this
      ensures table == old(table)[key := value]
      ensures Get(key) == Some(value)
      ensures forall k :: k != key ==> Get(k) == old(Get(k))
      ensures written.Some? <==> filePath.Some? && canOpen
      ensures written.Some? ==> IsSerialisation(written.value, table)
      ensures written.Some? && WellFormed(table) ==> Parse(written.value) == table
    {
      table := table[key := value];
      written := Save(canOpen);
    }
  }

  lemma {:induction false} ConcatSnoc(lines: seq<string>, line: string)
    ensures Concat(lines + [line]) == Concat(lines) + line
  {
    if lines != [] {
      assert (lines + [line])[1..] == lines[1..] + [line];
      ConcatSnoc(lines[1..], line);
    }
  }

  /** A line that is a whole fgets result: short enough, one newline, at its end. */
  predicate ProperLine(line: string) {
    && 0 < |line| <= FgetsMax
    && line[|line| - 1] == Newline
    && forall i :: 0 <= i < |line| - 1 ==> line[i] != Newline
  }

  /** A line holds a newline, if at all, only as its last character. */
  predicate NewlineOnlyLast(line: string) {
    forall i :: 0 <= i < |line| - 1 ==> line[i] != Newline
  }

  /** A line that ends where fgets stops early: at a newline or at a full buffer. */
  predicate EndsEarly(line: string) {
    |line| > 0 && (line[|line| - 1] == Newline || |line| == FgetsMax)
  }

  /**
   * fgets loses nothing: its results put together give back the text, none
   * holds a newline before its last character, and every result but the
   * last stops at a newline or at a full buffer. A last line without a
   * newline is still returned.
   */
  lemma FgetsLinesCover(text: string)
    ensures Concat(FgetsLines(text)) == text
    ensures forall k :: 0 <= k < |FgetsLines(text)| ==> NewlineOnlyLast(FgetsLines(text)[k])
    ensures forall k :: 0 <= k < |FgetsLines(text)| - 1 ==> EndsEarly(FgetsLines(text)[k])
  {
    FgetsLinesConcat(text);
    FgetsLinesNewlines(text);
    FgetsLinesStop(text);
  }

  /** What one fgets call returns holds no newline before its end, and stops early unless it reaches the end. */
  lemma FgetsCutFacts(text: string)
    requires text != []
    ensures NewlineOnlyLast(text[..FgetsCut(text)])
    ensures FgetsCut(text) < |text| ==> EndsEarly(text[..FgetsCut(text)])
  {
    var first := text[..FgetsCut(text)];
    forall i | 0 <= i < |first| - 1 ensures first[i] != Newline {
      assert first[i] == text[i];
    }
  }

  lemma {:induction false} FgetsLinesConcat(text: string)
    ensures Concat(FgetsLines(text)) == text
    decreases |text|
  {
    if text != [] {
      var len := FgetsCut(text);
      FgetsLinesConcat(text[len..]);
      var lines := FgetsLines(text);
      assert lines[1..] == FgetsLines(text[len..]);
      assert text == text[..len] + text[len..];
    }
  }

  lemma {:induction false} FgetsLinesNewlines(text: string)
    ensures forall k :: 0 <= k < |FgetsLines(text)| ==> NewlineOnlyLast(FgetsLines(text)[k])
    decreases |text|
  {
    if text != [] {
      var len := FgetsCut(text);
      FgetsLinesNewlines(text[len..]);
      FgetsCutFacts(text);
      var lines := FgetsLines(text);
      var tail := FgetsLines(text[len..]);
      forall k | 0 <= k < |lines| ensures NewlineOnlyLast(lines[k]) {
        if k > 0 {
          assert lines[k] == tail[k - 1];
        }
      }
    }
  }

  lemma {:induction false} FgetsLinesStop(text: string)
    ensures forall k :: 0 <= k < |FgetsLines(text)| - 1 ==> EndsEarly(FgetsLines(text)[k])
    decreases |text|
  {
    if text != [] {
      var len := FgetsCut(text);
      FgetsLinesStop(text[len..]);
      FgetsCutFacts(text);
      var lines := FgetsLines(text);
      var tail := FgetsLines(text[len..]);
      forall k | 0 <= k < |lines| - 1 ensures EndsEarly(lines[k]) {
        if k > 0 {
          assert lines[k] == tail[k - 1];
        } else {
          assert tail != [];
        }
      }
    }
  }

  /** A file whose only line has no newline still loads that line. */
  lemma UnterminatedLineRead(text: string)
    requires 0 < |text| <= FgetsMax && forall i :: 0 <= i < |text| ==> text[i] != Newline
    ensures FgetsLines(text) == [text]
  {
    assert IndexOf(text, Newline).None?;
    assert FgetsCut(text) == |text|;
    assert text[..|text|] == text;
    assert text[|text|..] == [];
    assert FgetsLines(text) == [text] + FgetsLines([]);
  }

  /** Reading back text written as whole lines gives exactly those lines. */
  lemma {:induction false} FgetsConcat(lines: seq<string>)
    requires forall k :: 0 <= k < |lines| ==> ProperLine(lines[k])
    ensures FgetsLines(Concat(lines)) == lines
  {
    if lines != [] {
      FgetsFirstLine(lines[0], Concat(lines[1..]));
      FgetsConcat(lines[1..]);
    }
  }

  /** fgets returns a whole line first, and then reads on from after it. */
  lemma FgetsFirstLine(first: string, rest: string)
    requires ProperLine(first)
    ensures FgetsLines(first + rest) == [first] + FgetsLines(rest)
  {
    var body := first[..|first| - 1];
    var text := first + rest;
    assert first == body + [Newline];
    assert text == body + ([Newline] + rest);
    IndexOfAppend(body, [Newline] + rest, Newline);
    assert IndexOf(text, Newline) == Some(|first| - 1);
    assert text[..|first|] == first;
    assert text[|first|..] == rest;
  }

  /** The first tab of "a<TAB>b", for a tab-free `a`, ends `a` and starts `b`. */
  lemma SplitAtTab(a: string, b: string)
    requires !Contains(a, Tab)
    ensures IndexOf(a + [Tab] + b, Tab) == Some(|a|)
    ensures (a + [Tab] + b)[..|a|] == a && (a + [Tab] + b)[|a| + 1..] == b
  {
    assert a + [Tab] + b == a + ([Tab] + b);
    IndexOfAppend(a, [Tab] + b, Tab);
  }

  /** A written line parses back to its key and value. */
  lemma LineForParses(key: string, value: string)
    requires Plain(key) && Plain(value)
    ensures ParseLine(LineFor(key, value)) == Some((key, value))
  {
    var text := key + [Tab] + value;
    assert StripNewline(LineFor(key, value)) == text;
    SplitAtTab(key, value);
  }

  /** A file holding one entry on a line without a final newline loads that entry. */
  lemma UnterminatedEntryLoads(key: string, value: string)
    requires Plain(key) && Plain(value) && |key| + 1 + |value| <= FgetsMax
    ensures Parse(key + [Tab] + value) == map[key := value]
  {
    var text := key + [Tab] + value;
    assert forall i :: 0 <= i < |text| ==> text[i] != Newline by {
      forall i | 0 <= i < |text| ensures text[i] != Newline {
        if i < |key| {
          assert text[i] == key[i];
        } else if i > |key| {
          assert text[i] == value[i - |key| - 1];
        }
      }
    }
    UnterminatedLineRead(text);
    assert text[|text| - 1] != Newline;
    assert StripNewline(text) == text;
    SplitAtTab(key, value);
    assert ParseLine(text) == Some((key, value));
    assert [text][..0] == [];
    assert ParseLines([text]) == Filed(ParseLines([]), ParseLine(text));
  }

  /** A legacy third column after the value is dropped, whatever it holds. */
  lemma ExtraColumnDropped(key: string, value: string, extra: string)
    requires Plain(key) && Plain(value)
    ensures ParseLine(key + [Tab] + value + [Tab] + extra + [Newline]) == Some((key, value))
  {
    var rest := value + [Tab] + extra;
    var text := key + [Tab] + rest;
    assert key + [Tab] + value + [Tab] + extra + [Newline] == text + [Newline];
    assert StripNewline(text + [Newline]) == text;
    SplitAtTab(key, rest);
    SplitAtTab(value, extra);
  }

  /** Parsing the lines written for `order` files exactly the listed keys, each under its value. */
  lemma {:induction false} ParseLinesOfLines(order: seq<string>, m: map<string, string>)
    requires forall i :: 0 <= i < |order| ==> order[i] in m
    requires forall i :: 0 <= i < |order| ==> Plain(order[i]) && Plain(m[order[i]])
    ensures forall k :: k in ParseLines(Lines(order, m)) <==> k in order
    ensures forall k :: k in ParseLines(Lines(order, m)) ==> ParseLines(Lines(order, m))[k] == m[k]
  {
    if order != [] {
      var n := |order| - 1;
      ParseLinesOfLines(order[..n], m);
      LinesSnoc(order, m);
      InSnoc(order);
    }
  }

  /** The lines of `order` parse as those of its front with the last key filed. */
  lemma LinesSnoc(order: seq<string>, m: map<string, string>)
    requires order != []
    requires forall i :: 0 <= i < |order| ==> order[i] in m
    requires forall i :: 0 <= i < |order| ==> Plain(order[i]) && Plain(m[order[i]])
    ensures var n := |order| - 1;
      ParseLines(Lines(order, m)) == ParseLines(Lines(order[..n], m))[order[n] := m[order[n]]]
  {
    var n := |order| - 1;
    assert Lines(order, m)[..n] == Lines(order[..n], m);
    LineForParses(order[n], m[order[n]]);
  }

  /** A key is in a non-empty sequence exactly when it is in its front or is its last element. */
  lemma InSnoc(order: seq<string>)
    requires order != []
    ensures forall k :: k in order <==> k in order[..|order| - 1] || k == order[|order| - 1]
  {
    assert order == order[..|order| - 1] + [order[|order| - 1]];
  }

  lemma LineForProper(key: string, value: string)
    requires Plain(key) && Plain(value) && |LineFor(key, value)| <= FgetsMax
    ensures ProperLine(LineFor(key, value))
  {
    var line := LineFor(key, value);
    forall i | 0 <= i < |line| - 1 ensures line[i] != Newline {
      if i < |key| {
        assert line[i] == key[i];
      } else if |key| < i {
        assert line[i] == value[i - |key| - 1];
      }
    }
  }

  /** Round trip: what `save` writes loads back as the table it came from. */
  lemma RoundTrip(text: string, m: map<string, string>)
    requires IsSerialisation(text, m)
    requires WellFormed(m)
    ensures Parse(text) == m
  {
    var order: seq<string> :| && (forall i :: 0 <= i < |order| ==> order[i] in m)
                              && (forall k :: k in m ==> k in order)
                              && Distinct(order)
                              && text == Concat(Lines(order, m));
    RoundTripInOrder(order, m);
  }

  /** The lines written for an order that lists every key load back as the table. */
  lemma RoundTripInOrder(order: seq<string>, m: map<string, string>)
    requires forall i :: 0 <= i < |order| ==> order[i] in m
    requires forall k :: k in m ==> k in order
    requires WellFormed(m)
    ensures Parse(Concat(Lines(order, m))) == m
  {
    var lines := Lines(order, m);
    forall k | 0 <= k < |lines| ensures ProperLine(lines[k]) {
      LineForProper(order[k], m[order[k]]);
    }
    FgetsConcat(lines);
    ParseLinesOfLines(order, m);
    SameTable(ParseLines(lines), m, order);
  }

  lemma SameTable(p: map<string, string>, m: map<string, string>, order: seq<string>)
    requires forall k :: k in p <==> k in order
    requires forall k :: k in m ==> k in order
    requires forall i :: 0 <= i < |order| ==> order[i] in m
    requires forall k :: k in p ==> p[k] == m[k]
    ensures p == m
  {
    assert p.Keys == m.Keys;
  }

  /** Whether `line` parses to an entry for `key`. */
  predicate Carries(line: string, key: string) {
    ParseLine(line).Some? && ParseLine(line).value.0 == key
  }

  /** The last line's entry, if it has one, is what the table files under its key. */
  lemma ParseLinesLast(lines: seq<string>, key: string, value: string)
    requires lines != [] && ParseLine(lines[|lines| - 1]) == Some((key, value))
    ensures key in ParseLines(lines) && ParseLines(lines)[key] == value
  {
  }

  /** A key the last line does not carry keeps the value the earlier lines gave it. */
  lemma ParseLinesKeep(lines: seq<string>, key: string)
    requires lines != [] && !Carries(lines[|lines| - 1], key) && key in ParseLines(lines[..|lines| - 1])
    ensures key in ParseLines(lines) && ParseLines(lines)[key] == ParseLines(lines[..|lines| - 1])[key]
  {
  }

  /** Dropping the last line keeps the line at `j` and the lines after it that do not carry `key`. */
  lemma NotCarriedBefore(lines: seq<string>, init: seq<string>, j: nat, key: string)
    requires j < |lines| - 1 && init == lines[..|lines| - 1]
    requires forall k :: j < k < |lines| ==> !Carries(lines[k], key)
    ensures init[j] == lines[j]
    ensures forall k :: j < k < |init| ==> !Carries(init[k], key)
    ensures !Carries(lines[|lines| - 1], key)
  {
    forall k | j < k < |init| ensures !Carries(init[k], key) {
      assert init[k] == lines[k];
    }
  }

  /** Later lines win: the last line carrying a key files it under that line's value. */
  lemma {:induction false} ParseLinesLastWins(lines: seq<string>, j: nat, key: string, value: string)
    requires j < |lines| && ParseLine(lines[j]) == Some((key, value))
    requires forall k :: j < k < |lines| ==> !Carries(lines[k], key)
    ensures key in ParseLines(lines) && ParseLines(lines)[key] == value
  {
    var n := |lines| - 1;
    if j < n {
      NotCarriedBefore(lines, lines[..n], j, key);
      ParseLinesLastWins(lines[..n], j, key, value);
      ParseLinesKeep(lines, key);
    } else {
      ParseLinesLast(lines, key, value);
    }
  }

  /** One more line changes the table at most at the key it carries. */
  lemma ParseLinesStep(lines: seq<string>, key: string)
    requires lines != []
    ensures key in ParseLines(lines) <==> key in ParseLines(lines[..|lines| - 1]) || Carries(lines[|lines| - 1], key)
  {
  }

  /** A key carried by any line is in the table. */
  lemma {:induction false} CarriedKeyIsFiled(lines: seq<string>, key: string, k: nat)
    requires k < |lines| && Carries(lines[k], key)
    ensures key in ParseLines(lines)
  {
    var n := |lines| - 1;
    if k == n {
      LastLineFiled(lines, key);
    } else {
      var init := lines[..n];
      assert init[k] == lines[k];
      CarriedKeyIsFiled(init, key, k);
      FiledKeyStays(lines, key);
    }
  }

  lemma LastLineFiled(lines: seq<string>, key: string)
    requires lines != [] && Carries(lines[|lines| - 1], key)
    ensures key in ParseLines(lines)
  {
    ParseLinesStep(lines, key);
  }

  lemma FiledKeyStays(lines: seq<string>, key: string)
    requires lines != [] && key in ParseLines(lines[..|lines| - 1])
    ensures key in ParseLines(lines)
  {
    ParseLinesStep(lines, key);
  }

  /** A key not carried by any line is not in the table. */
  lemma {:induction false} UncarriedKeyIsAbsent(lines: seq<string>, key: string)
    requires forall k :: 0 <= k < |lines| ==> !Carries(lines[k], key)
    ensures key !in ParseLines(lines)
  {
    if lines != [] {
      var n := |lines| - 1;
      forall k | 0 <= k < n ensures !Carries(lines[..n][k], key) {
        assert lines[..n][k] == lines[k];
      }
      UncarriedKeyIsAbsent(lines[..n], key);
      ParseLinesStep(lines, key);
    }
  }

  /** Only lines carrying a key put it in the table. */
  lemma ParseLinesKeys(lines: seq<string>, key: string)
    ensures key in ParseLines(lines) <==> exists k :: 0 <= k < |lines| && Carries(lines[k], key)
  {
    if exists k :: 0 <= k < |lines| && Carries(lines[k], key) {
      var k :| 0 <= k < |lines| && Carries(lines[k], key);
      CarriedKeyIsFiled(lines, key, k);
    } else {
      UncarriedKeyIsAbsent(lines, key);
    }
  }
}
