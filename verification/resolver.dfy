/**
 * Sheet resolution: an exact mapping first, then a lookup of the
 * normalised application name in the sheet index. Nothing is written back.
 */
module Resolver {
  import opened Wrappers
  import opened Ascii
  import opened SheetIndex
  import opened MappingStore

  /**
   * The name the heuristic looks up: the text after the first ':' (the
   * whole key when it has none), lower-cased.
   */
  function NameQuery(appKey: string): (q: string)
    ensures |q| <= |appKey|
    ensures forall i :: 0 <= i < |q| ==> NotUpperAscii(q[i])
    ensures !Contains(appKey, ':') ==> q == Lower(appKey)
  {
    match IndexOf(appKey, ':')
    case None => Lower(appKey)
    case Some(i) => Lower(appKey[i + 1..])
  }

  /** For a key "<scheme>:<rest>" whose scheme has no ':', the query is `rest` lower-cased, whatever `rest` holds. */
  lemma NameQueryAfterScheme(scheme: string, rest: string)
    requires !Contains(scheme, ':')
    ensures NameQuery(scheme + ":" + rest) == Lower(rest)
  {
    var key := scheme + ":" + rest;
    assert key == scheme + (":" + rest);
    IndexOfAppend(scheme, ":" + rest, ':');
    assert key[|scheme| + 1..] == rest;
  }

  /**
   * cheeter_resolve_sheet. A NULL key gives NULL; a mapped key gives its
   * mapping whatever the index holds; otherwise the path of the indexed
   * sheet whose basename is the key's query, if there is one.
   */
  function Resolve(index: Index, store: Store, appKey: Option<string>): (r: Option<string>)
    requires index.Valid()
    reads index, store
    ensures appKey.None? ==> r.None?
    ensures appKey.Some? && appKey.value in store.table ==> r == Some(store.table[appKey.value])
    ensures appKey.Some? && appKey.value !in store.table ==>
      (r.Some? <==> NameQuery(appKey.value) in index.byBasename)
    ensures appKey.Some? && appKey.value !in store.table && r.Some? ==>
      exists e :: e in index.allSheets && e.basename == NameQuery(appKey.value) && e.path == r.value
    ensures appKey.Some? && appKey.value !in store.table && NameQuery(appKey.value) in index.byBasename ==>
      r == Some(index.byBasename[NameQuery(appKey.value)].path)
  {
    if appKey.None? then None
    else match store.Get(appKey.value)
      case Some(mapped) => Some(mapped)
      case None =>
        match index.Find(NameQuery(appKey.value))
        case Some(entry) => Some(entry.path)
        case None => None
  }

  /** Whatever is resolved is either a mapped path or the path of an indexed sheet. */
  lemma ResolvedFromTables(index: Index, store: Store, appKey: Option<string>)
    requires index.Valid()
    ensures var r := Resolve(index, store, appKey);
      r.Some? ==> r.value in store.table.Values || exists e :: e in index.allSheets && e.path == r.value
  {
    var r := Resolve(index, store, appKey);
    if r.Some? {
      if appKey.value in store.table {
        assert store.table[appKey.value] in store.table.Values;
      } else {
        var e :| e in index.allSheets && e.basename == NameQuery(appKey.value) && e.path == r.value;
      }
    }
  }

  /** Only the text after the first ':' is looked up: "a:b:c" queries "b:c". */
  lemma QueryAfterFirstColon()
    ensures NameQuery("a:b:c") == "b:c"
    ensures NameQuery("exe:Foo") == "foo"
    ensures NameQuery("unknown") == "unknown"
  {
    assert IndexOf("a:b:c", ':') == Some(1) by {
      assert "a:b:c"[1] == ':';
    }
    assert "a:b:c"[2..] == "b:c";
    assert Lower("b:c") == "b:c";
    assert IndexOf("exe:Foo", ':') == Some(3) by {
      assert "exe:Foo"[3] == ':';
    }
    assert "exe:Foo"[4..] == "Foo";
    assert Lower("Foo") == "foo";
    assert !Contains("unknown", ':');
    assert Lower("unknown") == "unknown";
  }

  /** An unmapped "exe:Foo" finds the sheet indexed as "foo". */
  lemma HeuristicFallback(index: Index, store: Store)
    requires index.Valid()
    requires "exe:Foo" !in store.table
    requires "foo" in index.byBasename
    ensures Resolve(index, store, Some("exe:Foo")) == Some(index.byBasename["foo"].path)
  {
    QueryAfterFirstColon();
  }

  /**
   * The scheme is not part of the query and case does not matter: two keys
   * with the same scheme whose names agree up to ASCII case query the same name.
   */
  lemma {:induction false} QueryIgnoresCase(scheme: string, a: string, b: string)
    requires !Contains(scheme, ':')
    requires Lower(a) == Lower(b)
    ensures NameQuery(scheme + ":" + a) == NameQuery(scheme + ":" + b)
  {
    NameQueryAfterScheme(scheme, a);
    NameQueryAfterScheme(scheme, b);
  }
}
