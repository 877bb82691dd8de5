/** In-place replacement (replace_using_table.py): for each key of a
    translation table in order, search the current document for strings equal
    to the key and overwrite every hit with the key's first candidate. */
module ReplaceUsingTable {
  import opened Wrappers
  import opened Seqs
  import opened JsonTree
  import opened JsonPointer
  import opened SearchJson
  import opened Dicts

  /** A loaded document, updated in place by `JsonPointer.set`. */
  class Document {
    var root: Json

    constructor (doc: Json)
      ensures root == doc
    {
      root := doc;
    }

    /** `JsonPointer(path).set(doc, v)`: overwrite the node at `path`; false
        (the library raises) when the path is the root or leads nowhere. */
    method Set(path: Path, v: Json) returns (ok: bool)
      modifies this
      ensures ok == SetInPlace(old(root), path, v).Some?
      ensures root == if ok then SetInPlace(old(root), path, v).value else old(root)
    {
      var r := SetInPlace(root, path, v);
      ok := r.Some?;
      if ok {
        root := r.value;
      }
    }
  }

  /** Why a replacement stops: a key with hits but no candidate (`v[0]`
      raises), or a pointer whose `set` refuses (the root of a string document). */
  datatype ReplaceError = EmptyCandidates(key: string) | CannotSet(path: Path)

  /** The document as a run leaves it, and the error that stopped it, if any. */
  datatype Outcome = Outcome(doc: Json, error: Option<ReplaceError>)

  /** The `for p in ptrs: p.set(doc, v)` loop. */
  function SetAll(doc: Json, ptrs: seq<Path>, v: Json): Outcome
    decreases |ptrs|
  {
    if ptrs == [] then Outcome(doc, None)
    else match SetInPlace(doc, ptrs[0], v)
      case None => Outcome(doc, Some(CannotSet(ptrs[0])))
      case Some(d) => SetAll(d, ptrs[1..], v)
  }

  /** One table entry: search the document for the key, then set every hit
      to the first candidate. */
  function ReplaceKey(doc: Json, key: string, cands: seq<string>, ptrFilter: Option<Regex>): Outcome {
    var ptrs := Found(doc, JStr(key), ptrFilter);
    if ptrs == [] then Outcome(doc, None)
    else if cands == [] then Outcome(doc, Some(EmptyCandidates(key)))
    else SetAll(doc, ptrs, JStr(cands[0]))
  }

  /** `replace(doc, table, ptr_filter)`: the entries in table order, each on
      the document the previous ones left. */
  function ReplaceAll(doc: Json, table: Dict<seq<string>>, ptrFilter: Option<Regex>): Outcome
    decreases |table|
  {
    if table == [] then Outcome(doc, None)
    else
      var o := ReplaceKey(doc, table[0].0, table[0].1, ptrFilter);
      if o.error.Some? then o else ReplaceAll(o.doc, table[1..], ptrFilter)
  }

  // What "^(?!(.*/)?id$)" finds: a string that is not "id" and does not end in "/id".
  predicate NotIdPointer(s: string) {
    !(s == "id" || (|s| >= 3 && s[|s| - 3..] == "/id"))
  }

  /** The default `ptr_filter`. Its pattern is not empty, so it is compiled,
      and it passes the pointer string of a path exactly when the path is the
      root or its last token is not "id". */
  function DefaultFilter(): (r: Regex)
    ensures r.source != ""
    ensures forall p: Path :: r.search(Render(p)) <==> p == [] || p[|p| - 1] != "id"
  {
    NotIdRenderAll();
    Regex("^(?!(.*/)?id$)", NotIdPointer)
  }

  /** `replace`: for each entry, search the document as it now stands and set
      every hit to the entry's first candidate. */
  method Replace(doc: Document, table: Dict<seq<string>>, ptrFilter: Option<Regex>) returns (err: Option<ReplaceError>)
    modifies doc
    ensures doc.root == ReplaceAll(old(doc.root), table, ptrFilter).doc
    ensures err == ReplaceAll(old(doc.root), table, ptrFilter).error
  {
    for i := 0 to |table|
      invariant ReplaceAll(old(doc.root), table, ptrFilter) == ReplaceAll(doc.root, table[i..], ptrFilter)
    {
      var k := table[i].0;
      var v := table[i].1;
      ghost var start := doc.root;
      ReplaceAllCons(start, table, i, ptrFilter);
      var ptrs := Search(doc.root, JStr(k), ptrFilter);
      KeyCases(start, k, v, ptrFilter);
      for j := 0 to |ptrs|
        invariant j > 0 ==> v != []
        invariant j == 0 ==> doc.root == start
        invariant v != [] ==> SetAll(start, ptrs, JStr(v[0])) == SetAll(doc.root, ptrs[j..], JStr(v[0]))
      {
        if v == [] {
          return Some(EmptyCandidates(k));
        }
        SetAllCons(doc.root, ptrs, j, JStr(v[0]));
        var ok := doc.Set(ptrs[j], JStr(v[0]));
        if !ok {
          return Some(CannotSet(ptrs[j]));
        }
      }
    }
    return None;
  }

  /** The entry at `i` runs first on what remains of the table. */
  lemma ReplaceAllCons(doc: Json, table: Dict<seq<string>>, i: nat, ptrFilter: Option<Regex>)
    requires i < |table|
    ensures ReplaceAll(doc, table[i..], ptrFilter) ==
      var o := ReplaceKey(doc, table[i].0, table[i].1, ptrFilter);
      if o.error.Some? then o else ReplaceAll(o.doc, table[i + 1..], ptrFilter)
  {
    assert table[i..][1..] == table[i + 1..];
  }

  /** The pointer at `j` is set first on what remains of the list. */
  lemma SetAllCons(doc: Json, ptrs: seq<Path>, j: nat, v: Json)
    requires j < |ptrs|
    ensures SetAll(doc, ptrs[j..], v) ==
      if SetInPlace(doc, ptrs[j], v).None? then Outcome(doc, Some(CannotSet(ptrs[j])))
      else SetAll(SetInPlace(doc, ptrs[j], v).value, ptrs[j + 1..], v)
  {
    assert ptrs[j..][1..] == ptrs[j + 1..];
  }

  /** The three ways an entry goes: no hits, hits without a candidate, hits set. */
  lemma KeyCases(doc: Json, key: string, cands: seq<string>, ptrFilter: Option<Regex>)
    ensures Found(doc, JStr(key), ptrFilter) == [] ==> ReplaceKey(doc, key, cands, ptrFilter) == Outcome(doc, None)
    ensures Found(doc, JStr(key), ptrFilter) != [] && cands == [] ==>
      ReplaceKey(doc, key, cands, ptrFilter) == Outcome(doc, Some(EmptyCandidates(key)))
    ensures cands != [] ==>
      ReplaceKey(doc, key, cands, ptrFilter) == SetAll(doc, Found(doc, JStr(key), ptrFilter), JStr(cands[0]))
  {
  }

  // ---------------------------------------------------------------------------
  // Setting a list of pointers.

  /** Every pointer in `ptrs` addresses a string of `doc`. */
  ghost predicate AllStrings(doc: Json, ptrs: seq<Path>) {
    forall i :: 0 <= i < |ptrs| ==> Resolve(doc, ptrs[i]).Some? && Resolve(doc, ptrs[i]).value.JStr?
  }

  /** Overwriting strings with a string, however far it gets, keeps the shape. */
  lemma {:induction false} SetAllShape(doc: Json, ptrs: seq<Path>, v: Json)
    requires AllStrings(doc, ptrs) && v.JStr?
    ensures SameShape(doc, SetAll(doc, ptrs, v).doc)
    decreases |ptrs|
  {
    if ptrs == [] || ptrs[0] == [] {
      SameShapeRefl(doc);
    } else {
      AssignShape(doc, ptrs[0], v);
      var d := Assign(doc, ptrs[0], v).value;
      var rest := ptrs[1..];
      forall i | 0 <= i < |rest| ensures Resolve(d, rest[i]).Some? && Resolve(d, rest[i]).value.JStr? {
        assert rest[i] == ptrs[i + 1];
        SameShapeResolve(doc, d, rest[i]);
      }
      SetAllShape(d, rest, v);
      SameShapeTrans(doc, d, SetAll(d, rest, v).doc);
    }
  }

  /** Setting distinct string pointers below the root: no error, each ends up
      holding `v`, and every other scalar keeps its value. */
  lemma {:induction false} SetAllEffect(doc: Json, ptrs: seq<Path>, v: Json)
    requires AllStrings(doc, ptrs) && NoDup(ptrs) && v.JStr?
    requires forall i :: 0 <= i < |ptrs| ==> ptrs[i] != []
    ensures SetAll(doc, ptrs, v).error == None
    ensures forall i :: 0 <= i < |ptrs| ==> Resolve(SetAll(doc, ptrs, v).doc, ptrs[i]) == Some(v)
    ensures forall q :: q !in ptrs && Resolve(doc, q).Some? && !Resolve(doc, q).value.IsContainer() ==>
      Resolve(SetAll(doc, ptrs, v).doc, q) == Resolve(doc, q)
    decreases |ptrs|
  {
    if ptrs != [] {
      var p, rest := ptrs[0], ptrs[1..];
      forall i | 0 <= i < |rest| ensures rest[i] == ptrs[i + 1] && rest[i] != p {
        assert ptrs[0] != ptrs[i + 1];
      }
      SetOne(doc, p, v, rest);
      var d := Assign(doc, p, v).value;
      SetAllEffect(d, rest, v);
      var out := SetAll(d, rest, v).doc;
      assert SetAll(doc, ptrs, v) == SetAll(d, rest, v);
      forall i | 0 <= i < |ptrs| ensures Resolve(out, ptrs[i]) == Some(v) {
        if i > 0 {
          assert ptrs[i] == rest[i - 1];
        }
      }
    }
  }

  /** Setting one string pointer below the root: it holds `v`, every other
      scalar keeps its value, and the other pointers still address strings. */
  lemma SetOne(doc: Json, p: Path, v: Json, rest: seq<Path>)
    requires p != [] && Resolve(doc, p).Some? && Resolve(doc, p).value.JStr? && v.JStr?
    requires AllStrings(doc, rest) && p !in rest
    ensures SetInPlace(doc, p, v) == Assign(doc, p, v) && Assign(doc, p, v).Some?
    ensures Resolve(Assign(doc, p, v).value, p) == Some(v)
    ensures forall q :: q != p && Resolve(doc, q).Some? && !Resolve(doc, q).value.IsContainer() ==>
      Resolve(Assign(doc, p, v).value, q) == Resolve(doc, q)
    ensures AllStrings(Assign(doc, p, v).value, rest)
  {
    AssignHere(doc, p, v);
    forall q | q != p && Resolve(doc, q).Some? && !Resolve(doc, q).value.IsContainer()
      ensures Resolve(Assign(doc, p, v).value, q) == Resolve(doc, q)
    {
      SetOneElsewhere(doc, p, v, q);
    }
    forall i | 0 <= i < |rest|
      ensures Resolve(Assign(doc, p, v).value, rest[i]) == Resolve(doc, rest[i])
    {
      SetOneElsewhere(doc, p, v, rest[i]);
    }
  }

  /** Setting a string leaves a different scalar's value alone. */
  lemma SetOneElsewhere(doc: Json, p: Path, v: Json, q: Path)
    requires Resolve(doc, p).Some? && Resolve(doc, p).value.JStr?
    requires q != p && Resolve(doc, q).Some? && !Resolve(doc, q).value.IsContainer()
    ensures Assign(doc, p, v).Some? && Resolve(Assign(doc, p, v).value, q) == Resolve(doc, q)
  {
    AssignHere(doc, p, v);
    LeafPathsDiverge(doc, p, q);
    AssignElsewhere(doc, p, v, q);
  }

  // ---------------------------------------------------------------------------
  // One table entry.

  /** The hits of a search are distinct pointers to strings equal to the key. */
  lemma HitsAreStrings(doc: Json, key: string, ptrFilter: Option<Regex>)
    requires WellFormed(doc)
    ensures AllStrings(doc, Found(doc, JStr(key), ptrFilter))
    ensures NoDup(Found(doc, JStr(key), ptrFilter))
    ensures !doc.JStr? ==> forall i :: 0 <= i < |Found(doc, JStr(key), ptrFilter)| ==> Found(doc, JStr(key), ptrFilter)[i] != []
  {
    FoundExactlyOnce(doc, JStr(key), ptrFilter);
  }

  /** An entry with a candidate, on a document that is not a bare string: no
      error, every hit now holds the first candidate, every other scalar is
      unchanged. */
  lemma KeyHits(doc: Json, key: string, cands: seq<string>, ptrFilter: Option<Regex>)
    requires WellFormed(doc) && cands != [] && !doc.JStr?
    ensures ReplaceKey(doc, key, cands, ptrFilter).error == None
    ensures forall p :: p in Found(doc, JStr(key), ptrFilter) ==>
      Resolve(ReplaceKey(doc, key, cands, ptrFilter).doc, p) == Some(JStr(cands[0]))
    ensures forall q :: q !in Found(doc, JStr(key), ptrFilter) && Resolve(doc, q).Some? && !Resolve(doc, q).value.IsContainer() ==>
      Resolve(ReplaceKey(doc, key, cands, ptrFilter).doc, q) == Resolve(doc, q)
  {
    HitsAreStrings(doc, key, ptrFilter);
    SetAllEffect(doc, Found(doc, JStr(key), ptrFilter), JStr(cands[0]));
  }

  /** An entry never changes the shape of the document. */
  lemma KeyShape(doc: Json, key: string, cands: seq<string>, ptrFilter: Option<Regex>)
    requires WellFormed(doc)
    ensures SameShape(doc, ReplaceKey(doc, key, cands, ptrFilter).doc)
    ensures WellFormed(ReplaceKey(doc, key, cands, ptrFilter).doc)
  {
    var ptrs := Found(doc, JStr(key), ptrFilter);
    if ptrs == [] || cands == [] {
      SameShapeRefl(doc);
    } else {
      HitsAreStrings(doc, key, ptrFilter);
      SetAllShape(doc, ptrs, JStr(cands[0]));
    }
    SameShapeWellFormed(doc, ReplaceKey(doc, key, cands, ptrFilter).doc);
  }

  /** An entry fails exactly when the key is found and there is no candidate
      or the document is a bare string (whose root cannot be set); a failing
      entry changes nothing. */
  lemma KeyErrors(doc: Json, key: string, cands: seq<string>, ptrFilter: Option<Regex>)
    requires WellFormed(doc)
    ensures ReplaceKey(doc, key, cands, ptrFilter).error.Some? <==>
      Found(doc, JStr(key), ptrFilter) != [] && (cands == [] || doc.JStr?)
    ensures ReplaceKey(doc, key, cands, ptrFilter).error.Some? ==> ReplaceKey(doc, key, cands, ptrFilter).doc == doc
  {
    var ptrs := Found(doc, JStr(key), ptrFilter);
    if ptrs != [] && cands != [] {
      if doc.JStr? {
        ScalarDocument(doc, JStr(key), ptrFilter);
        assert ptrs[0] == [];
      } else {
        KeyHits(doc, key, cands, ptrFilter);
      }
    }
  }

  /** A scalar an entry does not hit keeps its value. */
  lemma KeyElsewhere(doc: Json, key: string, cands: seq<string>, ptrFilter: Option<Regex>, q: Path)
    requires WellFormed(doc) && q !in Found(doc, JStr(key), ptrFilter)
    requires Resolve(doc, q).Some? && !Resolve(doc, q).value.IsContainer()
    ensures Resolve(ReplaceKey(doc, key, cands, ptrFilter).doc, q) == Resolve(doc, q)
  {
    KeyErrors(doc, key, cands, ptrFilter);
    if cands != [] && !doc.JStr? {
      KeyHits(doc, key, cands, ptrFilter);
    }
  }

  /** Once an entry whose first candidate differs from its key is done, a new
      search for the key with the same filter finds nothing. */
  lemma KeyClears(doc: Json, key: string, cands: seq<string>, ptrFilter: Option<Regex>)
    requires WellFormed(doc) && cands != [] && !doc.JStr? && cands[0] != key
    ensures Found(ReplaceKey(doc, key, cands, ptrFilter).doc, JStr(key), ptrFilter) == []
  {
    var after := ReplaceKey(doc, key, cands, ptrFilter).doc;
    KeyShape(doc, key, cands, ptrFilter);
    KeyHits(doc, key, cands, ptrFilter);
    if Found(after, JStr(key), ptrFilter) != [] {
      var p := Found(after, JStr(key), ptrFilter)[0];
      FoundSound(after, JStr(key), ptrFilter, p);
      SameShapeResolve(doc, after, p);
      if p !in Found(doc, JStr(key), ptrFilter) {
        assert Resolve(doc, p) == Some(JStr(key));
        FoundComplete(doc, JStr(key), ptrFilter, p);
      }
    }
  }

  // ---------------------------------------------------------------------------
  // The whole table.

  /** The replacement keeps array lengths, keys and their order, and every
      non-string scalar: only strings change. */
  lemma {:induction false} ReplaceShape(doc: Json, table: Dict<seq<string>>, ptrFilter: Option<Regex>)
    requires WellFormed(doc)
    ensures SameShape(doc, ReplaceAll(doc, table, ptrFilter).doc)
    decreases |table|
  {
    if table == [] {
      SameShapeRefl(doc);
    } else {
      var o := ReplaceKey(doc, table[0].0, table[0].1, ptrFilter);
      KeyShape(doc, table[0].0, table[0].1, ptrFilter);
      if o.error.None? {
        ReplaceShape(o.doc, table[1..], ptrFilter);
        SameShapeTrans(doc, o.doc, ReplaceAll(o.doc, table[1..], ptrFilter).doc);
      }
    }
  }

  /** A scalar whose pointer the filter rejects, or whose value is no key of
      the table, is never rewritten. */
  lemma {:induction false} ReplaceElsewhere(doc: Json, table: Dict<seq<string>>, ptrFilter: Option<Regex>, q: Path)
    requires WellFormed(doc) && Resolve(doc, q).Some? && !Resolve(doc, q).value.IsContainer()
    requires !Passes(Compile(ptrFilter), Render(q)) || forall i :: 0 <= i < |table| ==> Resolve(doc, q) != Some(JStr(table[i].0))
    ensures Resolve(ReplaceAll(doc, table, ptrFilter).doc, q) == Resolve(doc, q)
    decreases |table|
  {
    if table != [] {
      var (key, cands) := table[0];
      var o := ReplaceKey(doc, key, cands, ptrFilter);
      if q in Found(doc, JStr(key), ptrFilter) {
        FoundSound(doc, JStr(key), ptrFilter, q);
        assert false;
      }
      KeyElsewhere(doc, key, cands, ptrFilter, q);
      KeyShape(doc, key, cands, ptrFilter);
      if o.error.None? {
        forall i | 0 <= i < |table[1..]| ensures Resolve(o.doc, q) != Some(JStr(table[1..][i].0)) || !Passes(Compile(ptrFilter), Render(q)) {
          assert table[1..][i] == table[i + 1];
        }
        ReplaceElsewhere(o.doc, table[1..], ptrFilter, q);
      }
    }
  }

  /** The default filter lets a pointer through exactly when its last token is not "id". */
  lemma DefaultFilterPasses(p: Path)
    ensures Passes(Compile(Some(DefaultFilter())), Render(p)) <==> p == [] || p[|p| - 1] != "id"
  {
  }

  lemma NotIdRenderAll()
    ensures forall p: Path :: NotIdPointer(Render(p)) <==> p == [] || p[|p| - 1] != "id"
  {
    forall p: Path
      ensures NotIdPointer(Render(p)) <==> p == [] || p[|p| - 1] != "id"
    {
      NotIdRender(p);
    }
  }

  lemma NotIdRender(p: Path)
    ensures NotIdPointer(Render(p)) <==> p == [] || p[|p| - 1] != "id"
  {
    SlashOrEnd(p);
    if p != [] {
      var init, last := p[..|p| - 1], p[|p| - 1];
      assert p == init + [last];
      RenderAppend(init, last);
      EndsInSlashId(Render(init), Escape(last));
      EscapeIdentity("id");
      if Escape(last) == "id" {
        EscapeInjective(last, "id");
      }
    }
  }

  /** A string ending in "/" and a token without "/" ends in "/id" exactly when the token is "id". */
  lemma EndsInSlashId(a: string, e: string)
    requires NoSlash(e)
    ensures var s := a + "/" + e; (|s| >= 3 && s[|s| - 3..] == "/id") <==> e == "id"
  {
    var s := a + "/" + e;
    assert s[|s| - |e| - 1] == '/';
    assert forall i :: 0 <= i < |e| ==> s[|s| - |e| + i] == e[i];
    assert |s| >= 3 && s[|s| - 3..] == "/id" ==> s[|s| - 3] == '/' && s[|s| - 2] == 'i' && s[|s| - 1] == 'd';
    assert |e| == 2 ==> e == s[|s| - 2..];
    if e == "id" {
      assert s[|s| - 3..] == "/id";
    }
  }

  /** With the default filter, a scalar under a key "id" is never rewritten. */
  lemma DefaultFilterKeepsIds(doc: Json, table: Dict<seq<string>>, q: Path)
    requires WellFormed(doc) && Resolve(doc, q).Some? && !Resolve(doc, q).value.IsContainer()
    requires q != [] && q[|q| - 1] == "id"
    ensures Resolve(ReplaceAll(doc, table, Some(DefaultFilter())).doc, q) == Resolve(doc, q)
  {
    DefaultFilterPasses(q);
    ReplaceElsewhere(doc, table, Some(DefaultFilter()), q);
  }

  /** When no key is found, the document is left as it was. */
  lemma {:induction false} NoHitsUnchanged(doc: Json, table: Dict<seq<string>>, ptrFilter: Option<Regex>)
    requires forall i :: 0 <= i < |table| ==> Found(doc, JStr(table[i].0), ptrFilter) == []
    ensures ReplaceAll(doc, table, ptrFilter) == Outcome(doc, None)
    decreases |table|
  {
    if table != [] {
      forall i | 0 <= i < |table[1..]| ensures Found(doc, JStr(table[1..][i].0), ptrFilter) == [] {
        assert table[1..][i] == table[i + 1];
      }
      NoHitsUnchanged(doc, table[1..], ptrFilter);
    }
  }

  /** In a one-member object holding a string, a search finds the member
      exactly when the string is the target, and setting it replaces the string. */
  lemma OneMember(name: string, s: string, t: string)
    ensures Found(JObj([(name, JStr(s))]), JStr(t), None) == if s == t then [[name]] else []
    ensures SetInPlace(JObj([(name, JStr(s))]), [name], JStr(t)) == Some(JObj([(name, JStr(t))]))
  {
    var d := JObj([(name, JStr(s))]);
    var here: seq<Path> := if s == t then [[name]] else [];
    assert [] + [name] == [name];
    assert FoundFrom(JStr(s), JStr(t), None, [name]) == here + [];
    assert here + [] == here;
    assert FoundInChildren(d, JStr(t), None, [], 1) == [] + here;
    assert FindKey([(name, JStr(s))], name) == Some(0);
    assert Step(d, name) == Some(0);
    assert [name][1..] == [];
    assert Assign(Child(d, 0), [], JStr(t)) == Some(JStr(t));
    assert Assign(d, [name], JStr(t)) == Some(WithChild(d, 0, JStr(t)));
    assert [(name, JStr(s))][0 := (name, JStr(t))] == [(name, JStr(t))];
  }

  /** One entry rewrites the only member of a one-member object when it holds the key. */
  lemma OneMemberKey(name: string, s: string, t: string)
    ensures ReplaceKey(JObj([(name, JStr(s))]), s, [t], None) == Outcome(JObj([(name, JStr(t))]), None)
  {
    OneMember(name, s, s);
    OneMember(name, s, t);
    assert [[name]][1..] == [];
    assert SetAll(JObj([(name, JStr(t))]), [], JStr(t)) == Outcome(JObj([(name, JStr(t))]), None);
  }

  /** Each entry searches the document the earlier entries left, so
      {"a": ["b"], "b": ["c"]} turns "a" into "c". */
  lemma ChainedEntries()
    ensures ReplaceAll(JObj([("name", JStr("a"))]), [("a", ["b"]), ("b", ["c"])], None)
         == Outcome(JObj([("name", JStr("c"))]), None)
  {
    var table := [("a", ["b"]), ("b", ["c"])];
    OneMemberKey("name", "a", "b");
    OneMemberKey("name", "b", "c");
    assert table[1..] == [("b", ["c"])] && table[1..][1..] == [];
  }
}
