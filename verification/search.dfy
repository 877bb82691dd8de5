/** Value search (search_json.py): walk every node of a document, containers
    included, and report the pointer of each node equal to the target whose
    pointer string passes the optional filter. */
module SearchJson {
  import opened Wrappers
  import opened Seqs
  import opened JsonTree
  import opened JsonPointer

  /** A pointer filter as the caller gives it: the pattern's text, and whether
      `re.search` finds the pattern in a pointer string. The regular-expression
      engine itself is not modelled. */
  datatype Regex = Regex(source: string, search: string -> bool)

  /** `re.compile(ptr_filter) if ptr_filter else None`: an absent or empty pattern means no filter. */
  function Compile(ptrFilter: Option<Regex>): (r: Option<string -> bool>)
    ensures r.Some? <==> ptrFilter.Some? && ptrFilter.value.source != ""
    ensures r.Some? ==> r.value == ptrFilter.value.search
  {
    match ptrFilter
    case Some(rx) => if rx.source != "" then Some(rx.search) else None
    case None => None
  }

  /** Whether a node whose pointer string is `strptr` may be reported. */
  predicate Passes(filter: Option<string -> bool>, strptr: string) {
    match filter
    case None => true
    case Some(f) => f(strptr)
  }

  /** `_search`: the node `doc` (at `at`) is reported when it passes the filter and
      equals `value`; then, whether or not it was reported, its children are
      searched in index or key order. Strings are not descended into. */
  function FoundFrom(doc: Json, value: Json, filter: Option<string -> bool>, at: Path): seq<Path>
    decreases doc, 1, 0
  {
    (if Passes(filter, Render(at)) && doc == value then [at] else [])
    + (if doc.JStr? then [] else FoundInChildren(doc, value, filter, at, doc.Width()))
  }

  /** What the searches of the first `n` children of `doc` report, concatenated. */
  function FoundInChildren(doc: Json, value: Json, filter: Option<string -> bool>, at: Path, n: nat): seq<Path>
    requires n <= doc.Width()
    decreases doc, 0, n
  {
    if n == 0 then []
    else FoundInChildren(doc, value, filter, at, n - 1) + FoundFrom(Child(doc, n - 1), value, filter, at + [Seg(doc, n - 1)])
  }

  /** `search(doc, value, ptr_filter)`: the pointers found from the root. */
  function Found(doc: Json, value: Json, ptrFilter: Option<Regex>): seq<Path> {
    FoundFrom(doc, value, Compile(ptrFilter), [])
  }

  /** The test the search applies to each node of the walk. */
  function Reportable(value: Json, filter: Option<string -> bool>): ((Path, Json)) -> bool {
    (node: (Path, Json)) => Passes(filter, Render(node.0)) && node.1 == value
  }

  /** The paths of the walked nodes that the search reports. */
  function Hits(nodes: seq<(Path, Json)>, value: Json, filter: Option<string -> bool>): seq<Path> {
    Paths(Filter(nodes, Reportable(value, filter)))
  }

  lemma HitsAppend(a: seq<(Path, Json)>, b: seq<(Path, Json)>, value: Json, filter: Option<string -> bool>)
    ensures Hits(a + b, value, filter) == Hits(a, value, filter) + Hits(b, value, filter)
  {
    FilterAppend(a, b, Reportable(value, filter));
  }

  lemma HitsOne(at: Path, doc: Json, value: Json, filter: Option<string -> bool>)
    ensures Hits([(at, doc)], value, filter) == if Passes(filter, Render(at)) && doc == value then [at] else []
  {
    assert [(at, doc)][..0] == [];
  }

  // ---------------------------------------------------------------------------

  /** The recursive search reports exactly the walked nodes that pass the
      filter and equal the value, in the walk's pre-order. */
  lemma {:induction false} FoundIsFilteredWalk(doc: Json, value: Json, filter: Option<string -> bool>, at: Path)
    ensures FoundFrom(doc, value, filter, at) == Hits(NodesAt(doc, at), value, filter)
    decreases doc, 1, 0
  {
    HitsAppend([(at, doc)], ChildNodes(doc, at, doc.Width()), value, filter);
    HitsOne(at, doc, value, filter);
    FoundInChildrenIsFilteredWalk(doc, value, filter, at, doc.Width());
  }

  lemma {:induction false} FoundInChildrenIsFilteredWalk(doc: Json, value: Json, filter: Option<string -> bool>, at: Path, n: nat)
    requires n <= doc.Width()
    ensures FoundInChildren(doc, value, filter, at, n) == Hits(ChildNodes(doc, at, n), value, filter)
    decreases doc, 0, n
  {
    if n > 0 {
      var at' := at + [Seg(doc, n - 1)];
      FoundInChildrenIsFilteredWalk(doc, value, filter, at, n - 1);
      FoundIsFilteredWalk(Child(doc, n - 1), value, filter, at');
      HitsAppend(ChildNodes(doc, at, n - 1), NodesAt(Child(doc, n - 1), at'), value, filter);
    }
  }

  /** Every reported pointer is on a node that passes the filter and equals the value. */
  lemma FoundSound(doc: Json, value: Json, ptrFilter: Option<Regex>, p: Path)
    requires WellFormed(doc) && p in Found(doc, value, ptrFilter)
    ensures Resolve(doc, p) == Some(value) && Passes(Compile(ptrFilter), Render(p))
  {
    var filter := Compile(ptrFilter);
    var walk := NodesAt(doc, []);
    var kept := Filter(walk, Reportable(value, filter));
    FoundIsFilteredWalk(doc, value, filter, []);
    NodesSound(doc, []);
    var k :| 0 <= k < |kept| && Paths(kept)[k] == p;
    assert kept[k] in walk;
    assert p[0..] == p;
  }

  /** Every node that passes the filter and equals the value is reported, even
      below a node the filter rejects. */
  lemma FoundComplete(doc: Json, value: Json, ptrFilter: Option<Regex>, p: Path)
    requires Resolve(doc, p) == Some(value) && Passes(Compile(ptrFilter), Render(p))
    ensures p in Found(doc, value, ptrFilter)
  {
    var filter := Compile(ptrFilter);
    var walk := NodesAt(doc, []);
    var kept := Filter(walk, Reportable(value, filter));
    FoundIsFilteredWalk(doc, value, filter, []);
    NodesComplete(doc, [], p);
    assert [] + p == p;
    var k :| 0 <= k < |walk| && walk[k] == (p, value);
    assert (p, value) in kept;
    var k' :| 0 <= k' < |kept| && kept[k'] == (p, value);
    assert Paths(kept)[k'] == p;
  }

  /** No pointer is reported twice. */
  lemma FoundNoDup(doc: Json, value: Json, ptrFilter: Option<Regex>)
    requires WellFormed(doc)
    ensures NoDup(Found(doc, value, ptrFilter))
  {
    var filter := Compile(ptrFilter);
    var walk := NodesAt(doc, []);
    var kept := Filter(walk, Reportable(value, filter));
    FoundIsFilteredWalk(doc, value, filter, []);
    NodesNoDup(doc, []);
    FilterSubseq(walk, Reportable(value, filter));
    MapSubseq(kept, walk, (node: (Path, Json)) => node.0);
    SubseqNoDup(Paths(kept), Paths(walk));
  }

  /** Exactly the nodes that pass the filter and equal the value are reported,
      each once: a pointer is in the result if and only if it resolves to a
      node equal to the value and its pointer string passes the filter. */
  lemma FoundExactlyOnce(doc: Json, value: Json, ptrFilter: Option<Regex>)
    requires WellFormed(doc)
    ensures NoDup(Found(doc, value, ptrFilter))
    ensures forall p :: p in Found(doc, value, ptrFilter) <==>
      Resolve(doc, p) == Some(value) && Passes(Compile(ptrFilter), Render(p))
  {
    FoundNoDup(doc, value, ptrFilter);
    forall p ensures p in Found(doc, value, ptrFilter) <==>
      Resolve(doc, p) == Some(value) && Passes(Compile(ptrFilter), Render(p))
    {
      if p in Found(doc, value, ptrFilter) {
        FoundSound(doc, value, ptrFilter, p);
      }
      if Resolve(doc, p) == Some(value) && Passes(Compile(ptrFilter), Render(p)) {
        FoundComplete(doc, value, ptrFilter, p);
      }
    }
  }

  /** With a filter, the search reports a subsequence of what it reports without one. */
  lemma FilteredIsSubseq(doc: Json, value: Json, rx: Regex)
    ensures IsSubseq(Found(doc, value, Some(rx)), Found(doc, value, None))
  {
    var walk := NodesAt(doc, []);
    var strict, loose := Reportable(value, Compile(Some(rx))), Reportable(value, None);
    FoundIsFilteredWalk(doc, value, Compile(Some(rx)), []);
    FoundIsFilteredWalk(doc, value, None, []);
    FilterFilter(walk, loose, strict);
    FilterSubseq(Filter(walk, loose), strict);
    MapSubseq(Filter(walk, strict), Filter(walk, loose), (node: (Path, Json)) => node.0);
  }

  /** An empty pattern filters nothing. */
  lemma EmptyPatternIsNoFilter(doc: Json, value: Json, search: string -> bool)
    ensures Found(doc, value, Some(Regex("", search))) == Found(doc, value, None)
  {
  }

  /** A scalar document (a string included) yields at most the root pointer. */
  lemma ScalarDocument(doc: Json, value: Json, ptrFilter: Option<Regex>)
    requires !doc.IsContainer()
    ensures Found(doc, value, ptrFilter) == (if doc == value && Passes(Compile(ptrFilter), "") then [[]] else [])
  {
    assert Render([]) == "";
    assert FoundInChildren(doc, value, Compile(ptrFilter), [], 0) == [];
  }

  /** Whenever one path is a proper prefix of another, it comes first. */
  ghost predicate AncestorFirst(paths: seq<Path>) {
    forall i, j :: 0 <= i < |paths| && 0 <= j < |paths| && paths[i] < paths[j] ==> i < j
  }

  /** Deleting elements keeps ancestors first. */
  lemma SubseqAncestorFirst(a: seq<Path>, b: seq<Path>)
    requires IsSubseq(a, b) && AncestorFirst(b)
    ensures AncestorFirst(a)
  {
    var idx :| Embeds(a, b, idx);
    forall i, j | 0 <= i < |a| && 0 <= j < |a| && a[i] < a[j] ensures i < j {
      assert b[idx[i]] < b[idx[j]];
    }
  }

  /** In the walk a node comes before every node below it. */
  lemma {:induction false} NodesAncestorFirst(doc: Json, at: Path)
    requires WellFormed(doc)
    ensures AncestorFirst(Paths(NodesAt(doc, at)))
    decreases doc, 1, 0
  {
    var kids := ChildNodes(doc, at, doc.Width());
    ChildNodesAncestorFirst(doc, at, doc.Width());
    ChildNodesBranch(doc, at, doc.Width());
    var kps := Paths(kids);
    forall k | 0 <= k < |kps| ensures |at| < |kps[k]| {
      assert kids[k] in kids;
    }
    RootFirst(at, kps);
    PathsAppend([(at, doc)], kids);
    assert Paths([(at, doc)]) == [at];
  }

  /** A path shorter than all the paths after it is never below one of them. */
  lemma RootFirst(root: Path, rest: seq<Path>)
    requires AncestorFirst(rest)
    requires forall k :: 0 <= k < |rest| ==> |root| < |rest[k]|
    ensures AncestorFirst([root] + rest)
  {
    var ps := [root] + rest;
    forall i, j | 0 <= i < |ps| && 0 <= j < |ps| && ps[i] < ps[j] ensures i < j {
      if i > 0 && j > 0 {
        assert rest[i - 1] < rest[j - 1];
      }
    }
  }

  lemma {:induction false} ChildNodesAncestorFirst(doc: Json, at: Path, n: nat)
    requires WellFormed(doc) && n <= doc.Width()
    ensures AncestorFirst(Paths(ChildNodes(doc, at, n)))
    decreases doc, 0, n
  {
    if n > 0 {
      var at' := at + [Seg(doc, n - 1)];
      var front, back := ChildNodes(doc, at, n - 1), NodesAt(Child(doc, n - 1), at');
      ChildNodesAncestorFirst(doc, at, n - 1);
      NodesAncestorFirst(Child(doc, n - 1), at');
      NodesPrefix(Child(doc, n - 1), at');
      ChildNodesBranch(doc, at, n - 1);
      WellFormedSegs(doc);
      // a node below the last child is never a prefix of one below an earlier child
      forall i, j | 0 <= i < |Paths(front)| && 0 <= j < |Paths(back)| ensures !(Paths(back)[j] < Paths(front)[i]) {
        BranchesDiffer(doc, at, n, front[i], back[j]);
      }
      PathsAppend(front, back);
      AppendAncestorFirst(Paths(front), Paths(back));
    }
  }

  /** Two ancestor-first sequences concatenate to one when nothing in the
      second is a proper prefix of something in the first. */
  lemma AppendAncestorFirst(a: seq<Path>, b: seq<Path>)
    requires AncestorFirst(a) && AncestorFirst(b)
    requires forall i, j :: 0 <= i < |a| && 0 <= j < |b| ==> !(b[j] < a[i])
    ensures AncestorFirst(a + b)
  {
    var ps := a + b;
    forall i, j | 0 <= i < |ps| && 0 <= j < |ps| && ps[i] < ps[j] ensures i < j {
      if i >= |a| && j >= |a| {
        assert b[i - |a|] < b[j - |a|];
      } else if i < |a| && j < |a| {
        assert a[i] < a[j];
      } else if i >= |a| {
        assert false;
      }
    }
  }

  /** Results are in pre-order: a reported node comes before every reported node below it. */
  lemma FoundPreOrder(doc: Json, value: Json, ptrFilter: Option<Regex>)
    requires WellFormed(doc)
    ensures AncestorFirst(Found(doc, value, ptrFilter))
  {
    var filter := Compile(ptrFilter);
    var walk := NodesAt(doc, []);
    var keep := Reportable(value, filter);
    FoundIsFilteredWalk(doc, value, filter, []);
    NodesAncestorFirst(doc, []);
    FilterSubseq(walk, keep);
    MapSubseq(Filter(walk, keep), walk, (node: (Path, Json)) => node.0);
    SubseqAncestorFirst(Paths(Filter(walk, keep)), Paths(walk));
  }

  // ---------------------------------------------------------------------------
  // The search as the script runs it.

  /** One more child: its results follow those of the children before it. */
  lemma FoundInChildrenSnoc(doc: Json, value: Json, filter: Option<string -> bool>, at: Path, n: nat)
    requires n < doc.Width()
    ensures FoundInChildren(doc, value, filter, at, n + 1)
      == FoundInChildren(doc, value, filter, at, n) + FoundFrom(Child(doc, n), value, filter, at + [Seg(doc, n)])
  {
  }

  /** `_search`: report this node if it passes the filter and equals the value,
      then extend the result with each child's search, in order. */
  method SearchFrom(doc: Json, value: Json, filter: Option<string -> bool>, at: Path) returns (result: seq<Path>)
    ensures result == FoundFrom(doc, value, filter, at)
    decreases doc, 1
  {
    result := [];
    var doSearch := true;
    var strptr := PtrToStr([""] + at);
    assert ([""] + at)[1..] == at;
    RootPtrToStr(at);
    if filter.Some? && !filter.value(strptr) {
      doSearch := false;
    }
    if doSearch && doc == value {
      result := result + [at];
    }
    ghost var here := result;
    assert here == if Passes(filter, strptr) && doc == value then [at] else [];
    var subResults := [];
    if !doc.JStr? {
      subResults := SearchChildren(doc, value, filter, at);
    }
    FoundFromParts(doc, value, filter, at, strptr, here, subResults);
    result := result + subResults;
  }

  /** The node's own report comes before its children's. */
  lemma FoundFromParts(doc: Json, value: Json, filter: Option<string -> bool>, at: Path,
                       strptr: string, here: seq<Path>, sub: seq<Path>)
    requires strptr == Render(at)
    requires here == if Passes(filter, strptr) && doc == value then [at] else []
    requires sub == if doc.JStr? then [] else FoundInChildren(doc, value, filter, at, doc.Width())
    ensures here + sub == FoundFrom(doc, value, filter, at)
  {
  }

  /** The two loops of `_search` over the elements of a list and the members of
      a dictionary: each child's results, in index or key order. */
  method SearchChildren(doc: Json, value: Json, filter: Option<string -> bool>, at: Path) returns (result: seq<Path>)
    ensures result == FoundInChildren(doc, value, filter, at, doc.Width())
    decreases doc, 0
  {
    result := [];
    if doc.JArr? {
      for num := 0 to |doc.items|
        invariant result == FoundInChildren(doc, value, filter, at, num)
      {
        // `doc[num]` at `ptr + [str(num)]`
        var subResult := SearchFrom(Child(doc, num), value, filter, at + [Seg(doc, num)]);
        FoundInChildrenSnoc(doc, value, filter, at, num);
        result := result + subResult;
      }
    } else if doc.JObj? {
      for k := 0 to |doc.fields|
        invariant result == FoundInChildren(doc, value, filter, at, k)
      {
        // `doc[key]` at `ptr + [key]`, keys in insertion order
        var subResult := SearchFrom(Child(doc, k), value, filter, at + [Seg(doc, k)]);
        FoundInChildrenSnoc(doc, value, filter, at, k);
        result := result + subResult;
      }
    }
  }

  /** `search`: compile the filter (an empty one means none) and search from the root. */
  method Search(doc: Json, value: Json, ptrFilter: Option<Regex>) returns (result: seq<Path>)
    ensures result == Found(doc, value, ptrFilter)
  {
    var cmpFilter := Compile(ptrFilter);
    result := SearchFrom(doc, value, cmpFilter, []);
  }
}
