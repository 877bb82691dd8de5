/** Translation-table construction (trans_table.py): collapse each of two
    patch lists to a path-to-value dictionary over its "replace" operations,
    then map every value of the first to the distinct values the second holds
    at the same paths. Warnings are returned rather than written out. */
module TransTable {
  import opened Wrappers
  import opened Seqs
  import opened JsonTree
  import opened Dicts

  // ---------------------------------------------------------------------------
  // Step 1: one patch list as path -> value (`parse_json_patch`).

  /** A "replace" item whose "path" is a string. */
  predicate StringPath(item: Json) {
    && Field(item, "op") == Ok(JStr("replace"))
    && Field(item, "path").Ok? && Field(item, "path").value.JStr?
  }

  /** A "replace" item whose "path" and "value" are both strings. */
  predicate ValidReplace(item: Json) {
    StringPath(item) && Field(item, "value").Ok? && Field(item, "value").value.JStr?
  }

  /** What one item contributes: nothing unless its "op" is "replace", else its
      "path" and "value"; or the error subscripting the item raises. */
  function ReplaceEntry(item: Json): (r: Result<Option<(string, string)>, LookupError>)
    ensures r == Ok(None) <==> Field(item, "op").Ok? && Field(item, "op").value != JStr("replace")
    ensures r.Ok? && r.value.Some? ==>
      && Field(item, "op") == Ok(JStr("replace"))
      && Field(item, "path") == Ok(JStr(r.value.value.0))
      && Field(item, "value") == Ok(JStr(r.value.value.1))
    ensures ValidReplace(item) ==> r == Ok(Some((Field(item, "path").value.s, Field(item, "value").value.s)))
    ensures r.Err? <==> Field(item, "op").Err? || (Field(item, "op") == Ok(JStr("replace")) && !ValidReplace(item))
    ensures Field(item, "op").Err? ==> r == Err(Field(item, "op").error)
    ensures Field(item, "op") == Ok(JStr("replace")) && Field(item, "path").Err? ==> r == Err(Field(item, "path").error)
    ensures Field(item, "op") == Ok(JStr("replace")) && Field(item, "path").Ok? && !Field(item, "path").value.JStr?
      ==> r == Err(NotAString("path"))
    ensures StringPath(item) && Field(item, "value").Err? ==> r == Err(Field(item, "value").error)
    ensures StringPath(item) && Field(item, "value").Ok? && !Field(item, "value").value.JStr? ==> r == Err(NotAString("value"))
  {
    match Field(item, "op")
    case Err(e) => Err(e)
    case Ok(op) =>
      if op != JStr("replace") then Ok(None)
      else match Field(item, "path")
        case Err(e) => Err(e)
        case Ok(path) =>
          if !path.JStr? then Err(NotAString("path"))
          else match Field(item, "value")
            case Err(e) => Err(e)
            case Ok(value) =>
              if !value.JStr? then Err(NotAString("value"))
              else Ok(Some((path.s, value.s)))
  }

  /** The (path, value) entries of the replace items, in order, or the first error. */
  function Entries(js: seq<Json>): Result<seq<(string, string)>, LookupError> {
    if js == [] then Ok([]) else Extend(Entries(js[..|js| - 1]), js[|js| - 1])
  }

  /** One more item after the entries so far: an error stays, an error of the
      item stops, a replace item adds its entry. */
  function Extend(prev: Result<seq<(string, string)>, LookupError>, item: Json): (r: Result<seq<(string, string)>, LookupError>)
    ensures prev.Err? ==> r == prev
  {
    match prev
    case Err(e) => Err(e)
    case Ok(entries) =>
      match ReplaceEntry(item)
      case Err(e) => Err(e)
      case Ok(None) => Ok(entries)
      case Ok(Some(entry)) => Ok(entries + [entry])
  }

  /** `result[path] = value` for every entry in turn. */
  function Collapse(entries: seq<(string, string)>): Dict<string> {
    if entries == [] then []
    else Put(Collapse(entries[..|entries| - 1]), entries[|entries| - 1].0, entries[|entries| - 1].1)
  }

  /** The paths already in the dictionary when their entry comes: one warning each. */
  function Repeats(entries: seq<(string, string)>): seq<string> {
    if entries == [] then []
    else
      var init := entries[..|entries| - 1];
      var path := entries[|entries| - 1].0;
      Repeats(init) + (if Has(Collapse(init), path) then [path] else [])
  }

  /** A collapsed patch list and the duplicate-path warnings met on the way. */
  datatype Collapsed = Collapsed(dict: Dict<string>, duplicates: seq<string>)

  function ParsedPatch(js: seq<Json>): Result<Collapsed, LookupError> {
    match Entries(js)
    case Err(e) => Err(e)
    case Ok(entries) => Ok(Collapsed(Collapse(entries), Repeats(entries)))
  }

  /** `parse_json_patch`, over the loaded list: for each replace item, warn if
      its path is already present, then store its value under the path. */
  method ParseJsonPatch(js: seq<Json>) returns (r: Result<Collapsed, LookupError>)
    ensures r == ParsedPatch(js)
  {
    var result: Dict<string> := [];
    var dups: seq<string> := [];
    for i := 0 to |js|
      invariant Entries(js[..i]).Ok?
      invariant result == Collapse(Entries(js[..i]).value)
      invariant dups == Repeats(Entries(js[..i]).value)
    {
      var item := js[i];
      EntriesStep(js, i);
      var op := Field(item, "op");
      if op.Err? {
        ErrorStops(js, i);
        return Err(op.error);
      }
      if op.value == JStr("replace") {
        var path := Field(item, "path");
        if path.Err? {
          ErrorStops(js, i);
          return Err(path.error);
        }
        if !path.value.JStr? {
          ErrorStops(js, i);
          return Err(NotAString("path"));
        }
        if Has(result, path.value.s) {
          dups := dups + [path.value.s];
        }
        var value := Field(item, "value");
        if value.Err? {
          ErrorStops(js, i);
          return Err(value.error);
        }
        if !value.value.JStr? {
          ErrorStops(js, i);
          return Err(NotAString("value"));
        }
        CollapseStep(Entries(js[..i]).value, (path.value.s, value.value.s));
        result := Put(result, path.value.s, value.value.s);
      }
    }
    assert js[..|js|] == js;
    return Ok(Collapsed(result, dups));
  }

  /** One more item: its entry, if any, is appended to the entries so far. */
  lemma EntriesStep(js: seq<Json>, i: nat)
    requires i < |js| && Entries(js[..i]).Ok?
    ensures ReplaceEntry(js[i]) == Ok(None) ==> Entries(js[..i + 1]) == Entries(js[..i])
    ensures ReplaceEntry(js[i]).Ok? && ReplaceEntry(js[i]).value.Some? ==>
      Entries(js[..i + 1]) == Ok(Entries(js[..i]).value + [ReplaceEntry(js[i]).value.value])
  {
    assert js[..i + 1][..i] == js[..i] && js[..i + 1][i] == js[i];
  }

  /** One more entry: stored under its path, with a warning if the path is there already. */
  lemma CollapseStep(entries: seq<(string, string)>, e: (string, string))
    ensures Collapse(entries + [e]) == Put(Collapse(entries), e.0, e.1)
    ensures Repeats(entries + [e]) == Repeats(entries) + (if Has(Collapse(entries), e.0) then [e.0] else [])
  {
    assert (entries + [e])[..|entries|] == entries;
  }

  /** Once an item raises, the items after it change nothing. */
  lemma {:induction false} EntriesErrorPersists(a: seq<Json>, b: seq<Json>)
    requires Entries(a).Err?
    ensures Entries(a + b) == Entries(a)
    decreases |b|
  {
    if b == [] {
      assert a + b == a;
    } else {
      var b' := b[..|b| - 1];
      EntriesErrorPersists(a, b');
      SplitLast(a, b);
      EntriesSnoc(a + b', b[|b| - 1]);
    }
  }

  /** The entries of one more item extend the entries so far. */
  lemma EntriesSnoc(js: seq<Json>, x: Json)
    ensures Entries(js + [x]) == Extend(Entries(js), x)
  {
    assert (js + [x])[..|js|] == js;
  }

  /** A non-empty continuation ends in its own last item. */
  lemma SplitLast(a: seq<Json>, b: seq<Json>)
    requires b != []
    ensures a + b == (a + b[..|b| - 1]) + [b[|b| - 1]]
  {
  }

  lemma ErrorStops(js: seq<Json>, i: nat)
    requires i < |js| && Entries(js[..i]).Ok? && ReplaceEntry(js[i]).Err?
    ensures Entries(js) == Err(ReplaceEntry(js[i]).error)
  {
    EntriesSnoc(js[..i], js[i]);
    ExtendError(Entries(js[..i]), js[i]);
    EntriesErrorPersists(js[..i] + [js[i]], js[i + 1..]);
    SplitAt(js, i);
  }

  /** An item that raises turns entries so far into its error. */
  lemma ExtendError(prev: Result<seq<(string, string)>, LookupError>, item: Json)
    requires prev.Ok? && ReplaceEntry(item).Err?
    ensures Extend(prev, item) == Err(ReplaceEntry(item).error)
  {
  }

  /** Lists that agree so far agree after the same continuation. */
  lemma {:induction false} EntriesCongruent(a: seq<Json>, a': seq<Json>, b: seq<Json>)
    requires Entries(a) == Entries(a')
    ensures Entries(a + b) == Entries(a' + b)
    decreases |b|
  {
    if b == [] {
      assert a + b == a && a' + b == a';
    } else {
      var b' := b[..|b| - 1];
      EntriesCongruent(a, a', b');
      SplitLast(a, b);
      SplitLast(a', b);
      EntriesSnoc(a + b', b[|b| - 1]);
      EntriesSnoc(a' + b', b[|b| - 1]);
    }
  }

  /** Items whose "op" is anything but "replace" are ignored. */
  lemma OtherOpsIgnored(a: seq<Json>, item: Json, b: seq<Json>)
    requires Field(item, "op").Ok? && Field(item, "op").value != JStr("replace")
    ensures ParsedPatch(a + [item] + b) == ParsedPatch(a + b)
  {
    assert (a + [item])[..|a|] == a;
    EntriesCongruent(a + [item], a, b);
  }

  /** The dictionary holds each path of the entries once, at the place of its
      first occurrence. */
  lemma {:induction false} CollapseKeys(entries: seq<(string, string)>)
    ensures Valid(Collapse(entries))
    ensures Keys(Collapse(entries)) == Dedup(Keys(entries))
  {
    if entries != [] {
      var init := entries[..|entries| - 1];
      var path := entries[|entries| - 1].0;
      CollapseKeys(init);
      HasKeys(Collapse(init), path);
      KeysInit(entries);
    }
  }

  lemma KeysInit<V>(d: Dict<V>)
    requires d != []
    ensures Keys(d)[..|d| - 1] == Keys(d[..|d| - 1])
    ensures Keys(d)[|d| - 1] == d[|d| - 1].0
  {
  }

  /** The value of the last entry for `path`. */
  function LastValue(entries: seq<(string, string)>, path: string): string
    requires Has(entries, path)
  {
    var last := entries[|entries| - 1];
    if last.0 == path then last.1
    else
      assert Has(entries[..|entries| - 1], path) by {
        var i :| 0 <= i < |entries| && entries[i].0 == path;
        assert entries[..|entries| - 1][i].0 == path;
      }
      LastValue(entries[..|entries| - 1], path)
  }

  /** A path is in the dictionary exactly when some entry has it, and then
      the dictionary holds the last such entry's value. */
  lemma {:induction false} CollapseLastWins(entries: seq<(string, string)>, path: string)
    ensures Has(Collapse(entries), path) <==> Has(entries, path)
    ensures Has(entries, path) ==> Get(Collapse(entries), path) == LastValue(entries, path)
  {
    if entries != [] {
      CollapseLastWins(entries[..|entries| - 1], path);
      HasInit(entries, path);
    }
  }

  lemma HasInit<V>(d: Dict<V>, k: string)
    requires d != []
    ensures Has(d, k) <==> Has(d[..|d| - 1], k) || d[|d| - 1].0 == k
  {
    var init := d[..|d| - 1];
    if Has(d, k) && d[|d| - 1].0 != k {
      var i :| 0 <= i < |d| && d[i].0 == k;
      assert init[i].0 == k;
    }
    if Has(init, k) {
      var i :| 0 <= i < |init| && init[i].0 == k;
      assert d[i].0 == k;
    }
  }

  /** Every entry either adds a path or repeats one: the warnings number the
      replace items less the distinct paths. */
  lemma {:induction false} RepeatCount(entries: seq<(string, string)>)
    ensures |Repeats(entries)| == |entries| - |Keys(Collapse(entries))|
  {
    if entries != [] {
      var init := entries[..|entries| - 1];
      RepeatCount(init);
    }
  }

  // ---------------------------------------------------------------------------
  // Step 2: the table (`create_table`).

  /** The translations `create_table` meets, in `dic1` order: the `dic1` value
      and the `dic2` value of every path in both whose values differ. */
  function Translations(d1: Dict<string>, d2: Dict<string>): seq<(string, string)> {
    if d1 == [] then []
    else
      var (k, v1) := d1[|d1| - 1];
      Translations(d1[..|d1| - 1], d2) + (if Has(d2, k) && v1 != Get(d2, k) then [(v1, Get(d2, k))] else [])
  }

  /** The table and the conflict warnings, translation by translation: a new
      value gets a one-candidate list; a known value gets an unseen candidate
      appended, with a warning; a candidate it has already changes nothing. */
  function Group(ts: seq<(string, string)>): (Dict<seq<string>>, seq<string>) {
    if ts == [] then ([], [])
    else
      var (table, conflicts) := Group(ts[..|ts| - 1]);
      var (v1, v2) := ts[|ts| - 1];
      if !Has(table, v1) then (Put(table, v1, [v2]), conflicts)
      else if v2 !in Get(table, v1) then (Put(table, v1, Get(table, v1) + [v2]), conflicts + [v1])
      else (table, conflicts)
  }

  /** `create_table`: for each path of `dic1` also in `dic2` with a different
      value, file the `dic2` value under the `dic1` value. */
  method CreateTable(d1: Dict<string>, d2: Dict<string>) returns (result: Dict<seq<string>>, conflicts: seq<string>)
    ensures (result, conflicts) == Group(Translations(d1, d2))
  {
    result := [];
    conflicts := [];
    for i := 0 to |d1|
      invariant result == Group(Translations(d1[..i], d2)).0
      invariant conflicts == Group(Translations(d1[..i], d2)).1
    {
      var k := d1[i].0;
      var v1 := d1[i].1;
      ghost var ts := Translations(d1[..i], d2);
      TranslationsStep(d1, d2, i);
      if Has(d2, k) && v1 != Get(d2, k) {
        var v2 := Get(d2, k);
        assert Translations(d1[..i + 1], d2) == ts + [(v1, v2)];
        GroupStep(ts, (v1, v2));
        if !Has(result, v1) {
          result := Put(result, v1, [v2]);
        } else if v2 !in Get(result, v1) {
          conflicts := conflicts + [v1];
          result := Put(result, v1, Get(result, v1) + [v2]);
        }
      } else {
        assert Translations(d1[..i + 1], d2) == ts;
      }
    }
    assert d1[..|d1|] == d1;
  }

  lemma TranslationsStep(d1: Dict<string>, d2: Dict<string>, i: nat)
    requires i < |d1|
    ensures Translations(d1[..i + 1], d2) == Translations(d1[..i], d2) +
      (if Has(d2, d1[i].0) && d1[i].1 != Get(d2, d1[i].0) then [(d1[i].1, Get(d2, d1[i].0))] else [])
  {
    assert d1[..i + 1][..i] == d1[..i] && d1[..i + 1][i] == d1[i];
  }

  /** One more translation: a new value, a new candidate, or nothing. */
  lemma GroupStep(ts: seq<(string, string)>, t: (string, string))
    ensures Group(ts + [t]) ==
      var (table, conflicts) := Group(ts);
      if !Has(table, t.0) then (Put(table, t.0, [t.1]), conflicts)
      else if t.1 !in Get(table, t.0) then (Put(table, t.0, Get(table, t.0) + [t.1]), conflicts + [t.0])
      else (table, conflicts)
  {
    assert (ts + [t])[..|ts|] == ts;
  }

  // ---------------------------------------------------------------------------
  // What the table means.

  /** The `dic2` values filed against `key`, in translation order, repeats included. */
  function Candidates(ts: seq<(string, string)>, key: string): seq<string> {
    if ts == [] then []
    else Candidates(ts[..|ts| - 1], key) + (if ts[|ts| - 1].0 == key then [ts[|ts| - 1].1] else [])
  }

  /** `path` is in both dictionaries with different values: a translation. */
  predicate Differs(d1: Dict<string>, d2: Dict<string>, path: string) {
    Has(d1, path) && Has(d2, path) && Get(d1, path) != Get(d2, path)
  }

  lemma {:induction false} CandidatesMember(ts: seq<(string, string)>, key: string, c: string)
    ensures c in Candidates(ts, key) <==> (key, c) in ts
  {
    if ts != [] {
      CandidatesMember(ts[..|ts| - 1], key, c);
      InInit(ts, (key, c));
    }
  }

  /** The table's keys are the `dic1` values of the translations, each once,
      in the order they first occur. */
  lemma {:induction false} GroupKeys(ts: seq<(string, string)>)
    ensures Valid(Group(ts).0)
    ensures Keys(Group(ts).0) == Dedup(Keys(ts))
  {
    if ts != [] {
      var init := ts[..|ts| - 1];
      GroupKeys(init);
      HasKeys(Group(init).0, ts[|ts| - 1].0);
      KeysInit(ts);
    }
  }

  /** A value has an entry exactly when some translation is for it, and its
      candidates are that value's translations with repeats removed, in order. */
  lemma {:induction false} GroupCandidates(ts: seq<(string, string)>, key: string)
    ensures Has(Group(ts).0, key) <==> Candidates(ts, key) != []
    ensures Has(Group(ts).0, key) ==> Get(Group(ts).0, key) == Dedup(Candidates(ts, key))
  {
    if ts != [] {
      var init := ts[..|ts| - 1];
      var t := ts[|ts| - 1];
      GroupCandidates(init, key);
      var table := Group(init).0;
      var cs := Candidates(init, key);
      if t.0 != key {
        assert Candidates(ts, key) == cs + [] == cs;
        assert Has(Group(ts).0, key) == Has(table, key);
        assert Has(table, key) ==> Get(Group(ts).0, key) == Get(table, key);
      } else {
        assert Candidates(ts, key) == cs + [t.1];
        DedupSnoc(cs, t.1);
        if !Has(table, key) {
          assert cs + [t.1] == [t.1];
          assert Dedup([t.1]) == [t.1] by {
            assert [t.1][..0] == [];
          }
          assert Get(Group(ts).0, key) == [t.1];
        } else if t.1 !in Get(table, key) {
          assert Get(Group(ts).0, key) == Get(table, key) + [t.1];
        } else {
          assert Group(ts).0 == table;
        }
      }
    }
  }

  /** The number of candidates over all entries. */
  function Total(d: Dict<seq<string>>): nat {
    if d == [] then 0 else Total(d[..|d| - 1]) + |d[|d| - 1].1|
  }

  lemma {:induction false} TotalUpdate(d: Dict<seq<string>>, i: nat, e: (string, seq<string>))
    requires i < |d|
    ensures Total(d[i := e]) + |d[i].1| == Total(d) + |e.1|
    decreases |d|
  {
    var n := |d| - 1;
    if i == n {
      assert d[i := e][..n] == d[..n];
    } else {
      assert d[i := e][..n] == d[..n][i := e];
      TotalUpdate(d[..n], i, e);
    }
  }

  lemma TotalPut(d: Dict<seq<string>>, k: string, v: seq<string>)
    ensures Total(Put(d, k, v)) == Total(d) + |v| - (if Has(d, k) then |Get(d, k)| else 0)
  {
    if Has(d, k) {
      TotalUpdate(d, IndexOf(d, k), (k, v));
    } else {
      assert (d + [(k, v)])[..|d|] == d;
    }
  }

  /** Every candidate after a value's first is announced by one warning: the
      warnings number the candidates less the entries. */
  lemma {:induction false} ConflictCount(ts: seq<(string, string)>)
    ensures |Group(ts).1| == Total(Group(ts).0) - |Group(ts).0|
  {
    if ts != [] {
      var init := ts[..|ts| - 1];
      var t := ts[|ts| - 1];
      ConflictCount(init);
      var table := Group(init).0;
      if !Has(table, t.0) {
        TotalPut(table, t.0, [t.1]);
      } else if t.1 !in Get(table, t.0) {
        TotalPut(table, t.0, Get(table, t.0) + [t.1]);
      }
    }
  }

  /** The translations are exactly the (`dic1` value, `dic2` value) pairs of
      the paths on which the two dictionaries differ. */
  lemma {:induction false} TranslationsExact(d1: Dict<string>, d2: Dict<string>, t: (string, string))
    requires Valid(d1)
    ensures t in Translations(d1, d2) <==> exists path :: Differs(d1, d2, path) && t == (Get(d1, path), Get(d2, path))
  {
    if d1 != [] {
      var init := d1[..|d1| - 1];
      var (k, v1) := d1[|d1| - 1];
      DropLast(d1);
      TranslationsExact(init, d2, t);
      if t in Translations(d1, d2) {
        if t in Translations(init, d2) {
          var path :| Differs(init, d2, path) && t == (Get(init, path), Get(d2, path));
          assert Differs(d1, d2, path);
        } else {
          assert Differs(d1, d2, k);
        }
      }
      if exists path :: Differs(d1, d2, path) && t == (Get(d1, path), Get(d2, path)) {
        var path :| Differs(d1, d2, path) && t == (Get(d1, path), Get(d2, path));
        if path != k {
          assert Differs(init, d2, path);
        }
      }
    }
  }

  /** The table `create_table` builds from two collapsed patch lists. */
  function Table(d1: Dict<string>, d2: Dict<string>): Dict<seq<string>> {
    Group(Translations(d1, d2)).0
  }

  /** A table entry `key` holds `c` exactly when some path has value `key` in
      `dic1` and value `c` in `dic2`, and the two differ. */
  lemma TableExact(d1: Dict<string>, d2: Dict<string>, key: string, c: string)
    requires Valid(d1)
    ensures (Has(Table(d1, d2), key) && c in Get(Table(d1, d2), key)) <==>
      exists path :: Differs(d1, d2, path) && Get(d1, path) == key && Get(d2, path) == c
  {
    var ts := Translations(d1, d2);
    GroupCandidates(ts, key);
    CandidatesMember(ts, key, c);
    TranslationsExact(d1, d2, (key, c));
  }

  /** No entry lists a candidate twice or lists its own key, and its first
      candidate comes from the earliest `dic1` path that translates it. */
  lemma TableCandidates(d1: Dict<string>, d2: Dict<string>, key: string)
    requires Valid(d1) && Has(Table(d1, d2), key)
    ensures NoDup(Get(Table(d1, d2), key))
    ensures key !in Get(Table(d1, d2), key)
    ensures Get(Table(d1, d2), key) != [] && Candidates(Translations(d1, d2), key) != []
    ensures Get(Table(d1, d2), key)[0] == Candidates(Translations(d1, d2), key)[0]
  {
    var ts := Translations(d1, d2);
    GroupCandidates(ts, key);
    DedupFirst(Candidates(ts, key));
    TableExact(d1, d2, key, key);
  }

  /** The table has one entry per distinct `dic1` value that is translated. */
  lemma TableKeys(d1: Dict<string>, d2: Dict<string>)
    ensures Valid(Table(d1, d2))
    ensures Keys(Table(d1, d2)) == Dedup(Keys(Translations(d1, d2)))
  {
    GroupKeys(Translations(d1, d2));
  }

  /** Nothing in common, or nothing different: an empty table and no warnings. */
  lemma {:induction false} NoTranslations(d1: Dict<string>, d2: Dict<string>)
    requires forall path :: Has(d1, path) && Has(d2, path) ==> Get(d1, path) == Get(d2, path)
    requires Valid(d1)
    ensures Group(Translations(d1, d2)) == ([], [])
  {
    if d1 != [] {
      DropLast(d1);
      NoTranslations(d1[..|d1| - 1], d2);
    }
  }
}
