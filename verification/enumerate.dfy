/** Leaf pointer enumeration (pointers_json.py): walk a document depth first
    and print, for every scalar leaf, its pointer list joined by "/". The
    printed lines are the result here. */
module PointersJson {
  import opened Seqs
  import opened JsonTree
  import opened JsonPointer

  /** `_parse`: a list or a dictionary is walked child by child; any other
      value prints the pointer list joined by "/". Every line printed below a
      pointer list starts with that list's own line. */
  function ParseAt(obj: Json, pointer: seq<string>): (r: seq<string>)
    ensures forall i :: 0 <= i < |r| ==> Join(pointer) <= r[i]
    decreases obj, 1, 0
  {
    match obj
    case JArr(_) => ParseList(obj, pointer, obj.Width())
    case JObj(_) => ParseDict(obj, pointer, obj.Width())
    case _ => [Join(pointer)]
  }

  /** `parse_list`: the lines of the first `n` elements, element `i` under the segment `str(i)`. */
  function ParseList(obj: Json, pointer: seq<string>, n: nat): (r: seq<string>)
    requires obj.JArr? && n <= |obj.items|
    ensures forall i :: 0 <= i < |r| ==> Join(pointer) <= r[i]
    decreases obj, 0, n
  {
    if n == 0 then []
    else
      JoinExtends(pointer, Decimal(n - 1));
      ParseList(obj, pointer, n - 1) + ParseAt(obj.items[n - 1], pointer + [Decimal(n - 1)])
  }

  /** `parse_dict`: the lines of the first `n` members, each under its key. */
  function ParseDict(obj: Json, pointer: seq<string>, n: nat): (r: seq<string>)
    requires obj.JObj? && n <= |obj.fields|
    ensures forall i :: 0 <= i < |r| ==> Join(pointer) <= r[i]
    decreases obj, 0, n
  {
    if n == 0 then []
    else
      JoinExtends(pointer, obj.fields[n - 1].0);
      ParseDict(obj, pointer, n - 1) + ParseAt(obj.fields[n - 1].1, pointer + [obj.fields[n - 1].0])
  }

  /** `parse`: every line printed for a document, starting from the pointer
      list [""]. A scalar document prints the single line "" (the root), and an
      empty array or object prints nothing. */
  function Parse(doc: Json): (r: seq<string>)
    ensures !doc.IsContainer() ==> r == [""]
    ensures doc.IsContainer() && doc.Width() == 0 ==> r == []
  {
    ParseAt(doc, [""])
  }

  /** The line of a pointer list extends the line of any shorter one. */
  lemma JoinExtends(pointer: seq<string>, s: string)
    ensures Join(pointer) <= Join(pointer + [s])
  {
    if pointer != [] {
      JoinSnoc(pointer, s);
    }
  }

  lemma {:induction false} JoinSnoc(pointer: seq<string>, s: string)
    requires pointer != []
    ensures Join(pointer + [s]) == Join(pointer) + "/" + s
    decreases |pointer|
  {
    if |pointer| > 1 {
      assert (pointer + [s])[1..] == pointer[1..] + [s];
      JoinSnoc(pointer[1..], s);
    } else {
      assert (pointer + [s])[1..] == [s];
    }
  }

  // ---------------------------------------------------------------------------
  // The reference: the scalar nodes of the pre-order walk.

  predicate IsLeaf(node: (Path, Json)) {
    !node.1.IsContainer()
  }

  /** The paths of the scalar nodes among `nodes`, in order. */
  function LeafPaths(nodes: seq<(Path, Json)>): seq<Path> {
    Paths(Filter(nodes, IsLeaf))
  }

  /** The paths of the scalar leaves of `doc`, in walk order. */
  function Leaves(doc: Json): seq<Path> {
    LeafPaths(Walk(doc))
  }

  lemma LeafPathsAppend(a: seq<(Path, Json)>, b: seq<(Path, Json)>)
    ensures LeafPaths(a + b) == LeafPaths(a) + LeafPaths(b)
  {
    FilterAppend(a, b, IsLeaf);
    MapAppend(Filter(a, IsLeaf), Filter(b, IsLeaf), (node: (Path, Json)) => node.0);
  }

  /** Below the pointer list [""] + `at`, `_parse` prints the unescaped line of
      every scalar node of the walk from `at`, in walk order, and nothing for
      containers. */
  lemma {:induction false} ParseIsLeafWalk(doc: Json, at: Path)
    ensures ParseAt(doc, [""] + at) == Map(LeafPaths(NodesAt(doc, at)), RawRender)
    decreases doc, 1, 0
  {
    if doc.IsContainer() {
      var kids := ChildNodes(doc, at, doc.Width());
      LeafPathsAppend([(at, doc)], kids);
      assert Filter([(at, doc)], IsLeaf) == [] by {
        assert [(at, doc)][..0] == [];
      }
      assert LeafPaths([(at, doc)]) == [];
      ParseChildrenIsLeafWalk(doc, at, doc.Width());
    } else {
      ScalarLine(doc, at);
    }
  }

  /** A scalar prints its own line and nothing else. */
  lemma ScalarLine(doc: Json, at: Path)
    requires !doc.IsContainer()
    ensures ParseAt(doc, [""] + at) == Map(LeafPaths(NodesAt(doc, at)), RawRender)
  {
    ScalarLeaves(doc, at);
    RootJoin(at);
    assert ParseAt(doc, [""] + at) == [Join([""] + at)];
    assert Map([at], RawRender) == [RawRender(at)];
  }

  /** A scalar is its own only leaf. */
  lemma ScalarLeaves(doc: Json, at: Path)
    requires !doc.IsContainer()
    ensures LeafPaths(NodesAt(doc, at)) == [at]
  {
    assert NodesAt(doc, at) == [(at, doc)];
    assert Filter([(at, doc)], IsLeaf) == [(at, doc)] by {
      assert [(at, doc)][..0] == [];
    }
  }

  /** The pointer list [""] + `at` joins to the unescaped line of `at`. */
  lemma RootJoin(at: Path)
    ensures Join([""] + at) == RawRender(at)
  {
    JoinCons([""] + at);
    assert ([""] + at)[1..] == at;
  }

  lemma {:induction false} ParseChildrenIsLeafWalk(doc: Json, at: Path, n: nat)
    requires doc.IsContainer() && n <= doc.Width()
    ensures (if doc.JArr? then ParseList(doc, [""] + at, n) else ParseDict(doc, [""] + at, n))
      == Map(LeafPaths(ChildNodes(doc, at, n)), RawRender)
    decreases doc, 0, n
  {
    if n > 0 {
      var at' := at + [Seg(doc, n - 1)];
      ParseChildrenIsLeafWalk(doc, at, n - 1);
      ParseIsLeafWalk(Child(doc, n - 1), at');
      assert [""] + at + [Seg(doc, n - 1)] == [""] + at';
      LeafPathsAppend(ChildNodes(doc, at, n - 1), NodesAt(Child(doc, n - 1), at'));
      MapAppend(LeafPaths(ChildNodes(doc, at, n - 1)), LeafPaths(NodesAt(Child(doc, n - 1), at')), RawRender);
    }
  }

  /** The printed lines are the unescaped lines of the document's scalar
      leaves, in walk order: one line per leaf, none for a container. */
  lemma LinesAreLeaves(doc: Json)
    ensures Parse(doc) == Map(Leaves(doc), RawRender)
  {
    ParseIsLeafWalk(doc, []);
    assert [""] + [] == [""];
  }

  /** The leaves are exactly the paths that lead to a scalar, each once. */
  lemma LeavesExact(doc: Json)
    requires WellFormed(doc)
    ensures NoDup(Leaves(doc))
    ensures forall p :: p in Leaves(doc) <==> Resolve(doc, p).Some? && !Resolve(doc, p).value.IsContainer()
  {
    var walk := Walk(doc);
    var kept := Filter(walk, IsLeaf);
    NodesNoDup(doc, []);
    FilterSubseq(walk, IsLeaf);
    MapSubseq(kept, walk, (node: (Path, Json)) => node.0);
    SubseqNoDup(Paths(kept), Paths(walk));
    NodesSound(doc, []);
    forall p ensures p in Leaves(doc) <==> Resolve(doc, p).Some? && !Resolve(doc, p).value.IsContainer() {
      if p in Leaves(doc) {
        var k :| 0 <= k < |kept| && Paths(kept)[k] == p;
        assert kept[k] in walk;
        assert p[0..] == p;
      }
      if Resolve(doc, p).Some? && !Resolve(doc, p).value.IsContainer() {
        NodesComplete(doc, [], p);
        assert [] + p == p;
        var node := (p, Resolve(doc, p).value);
        assert node in kept;
        var k :| 0 <= k < |kept| && kept[k] == node;
        assert Paths(kept)[k] == p;
      }
    }
  }

  // ---------------------------------------------------------------------------
  // Lines against search pointers.

  /** A segment that escaping leaves alone. */
  predicate Plain(s: string) {
    forall i :: 0 <= i < |s| ==> s[i] != '~' && s[i] != '/'
  }

  /** No object key anywhere in `doc` contains "~" or "/". */
  predicate PlainKeys(doc: Json)
    decreases doc
  {
    && (doc.JObj? ==> forall i :: 0 <= i < |doc.fields| ==> Plain(doc.fields[i].0))
    && forall i :: 0 <= i < doc.Width() ==> PlainKeys(Child(doc, i))
  }

  lemma {:induction false} PlainNodePaths(doc: Json, at: Path)
    requires PlainKeys(doc) && forall k :: 0 <= k < |at| ==> Plain(at[k])
    ensures forall node :: node in NodesAt(doc, at) ==> forall k :: 0 <= k < |node.0| ==> Plain(node.0[k])
    decreases doc, 1, 0
  {
    PlainChildPaths(doc, at, doc.Width());
  }

  lemma {:induction false} PlainChildPaths(doc: Json, at: Path, n: nat)
    requires PlainKeys(doc) && n <= doc.Width() && forall k :: 0 <= k < |at| ==> Plain(at[k])
    ensures forall node :: node in ChildNodes(doc, at, n) ==> forall k :: 0 <= k < |node.0| ==> Plain(node.0[k])
    decreases doc, 0, n
  {
    if n > 0 {
      var at' := at + [Seg(doc, n - 1)];
      assert Plain(Seg(doc, n - 1)) by {
        if doc.JArr? {
          var d := Decimal(n - 1);
          assert AllDigits(d);
          forall i | 0 <= i < |d| ensures d[i] != '~' && d[i] != '/' {
            assert IsDigit(d[i]);
          }
        }
      }
      PlainChildPaths(doc, at, n - 1);
      PlainNodePaths(Child(doc, n - 1), at');
    }
  }

  /** With no "~" or "/" in any key, every printed line is the pointer string
      the search reports for the same leaf. */
  lemma LinesMatchSearchPointers(doc: Json)
    requires PlainKeys(doc)
    ensures Parse(doc) == Map(Leaves(doc), Render)
  {
    LinesAreLeaves(doc);
    PlainNodePaths(doc, []);
    var leaves := Leaves(doc);
    forall i | 0 <= i < |leaves| ensures RawRender(leaves[i]) == Render(leaves[i]) {
      var kept := Filter(Walk(doc), IsLeaf);
      assert kept[i] in Walk(doc);
      RawRenderIsRender(leaves[i]);
    }
    MapCongruent(leaves, RawRender, Render);
  }

  /** As written, a key holding "/" prints the same line as two nested keys,
      and that line is not the key's pointer string: {"a/b": null} and
      {"a": {"b": null}} both print "/a/b", while the pointer of the first
      leaf is "/a~1b". */
  lemma RawLinesCollide()
    ensures Parse(JObj([("a/b", JNull)])) == ["/a/b"]
    ensures Parse(JObj([("a", JObj([("b", JNull)]))])) == ["/a/b"]
    ensures Render(["a/b"]) == "/a~1b"
  {
    FlatKeyLine();
    NestedKeysLine();
    SlashKeyPointer();
  }

  lemma FlatKeyLine()
    ensures Parse(JObj([("a/b", JNull)])) == ["/a/b"]
  {
    var flat := JObj([("a/b", JNull)]);
    assert [""] + ["a/b"] == ["", "a/b"];
    assert ParseAt(flat, [""]) == ParseDict(flat, [""], 1);
    assert ParseDict(flat, [""], 1) == ParseDict(flat, [""], 0) + ParseAt(JNull, ["", "a/b"]);
    assert Join(["", "a/b"]) == "/a/b" by {
      assert ["", "a/b"][1..] == ["a/b"];
    }
  }

  lemma NestedKeysLine()
    ensures Parse(JObj([("a", JObj([("b", JNull)]))])) == ["/a/b"]
  {
    var inner := JObj([("b", JNull)]);
    var nested := JObj([("a", inner)]);
    assert [""] + ["a"] == ["", "a"] && ["", "a"] + ["b"] == ["", "a", "b"];
    assert ParseAt(inner, ["", "a"]) == ParseDict(inner, ["", "a"], 1);
    assert ParseDict(inner, ["", "a"], 1) == ParseDict(inner, ["", "a"], 0) + ParseAt(JNull, ["", "a", "b"]);
    assert ParseAt(nested, [""]) == ParseDict(nested, [""], 1);
    assert ParseDict(nested, [""], 1) == ParseDict(nested, [""], 0) + ParseAt(inner, ["", "a"]);
    assert Join(["", "a", "b"]) == "/a/b" by {
      assert ["", "a", "b"][1..] == ["a", "b"];
      assert ["a", "b"][1..] == ["b"];
    }
  }

  lemma SlashKeyPointer()
    ensures Render(["a/b"]) == "/a~1b"
  {
    assert Escape("a/b") == "a~1b" by {
      EscapeCons("a/b");
      EscapeCons("/b");
      EscapeCons("b");
      assert "a/b"[1..] == "/b" && "/b"[1..] == "b" && "b"[1..] == "";
    }
    RenderCons(["a/b"]);
  }

  /** The lines the enumerator is meant to print: the escaped pointer string
      of every scalar leaf, in walk order. */
  function PointerLines(doc: Json): seq<string> {
    Map(Leaves(doc), Render)
  }

  /** Escaped lines name every leaf, one line each, and tell different leaves apart. */
  lemma PointerLinesExact(doc: Json)
    requires WellFormed(doc)
    ensures NoDup(PointerLines(doc))
    ensures forall p :: Resolve(doc, p).Some? && !Resolve(doc, p).value.IsContainer() <==> Render(p) in PointerLines(doc)
  {
    var leaves := Leaves(doc);
    var lines := PointerLines(doc);
    LeavesExact(doc);
    forall i, j | 0 <= i < j < |lines| ensures lines[i] != lines[j] {
      if lines[i] == lines[j] {
        RenderInjective(leaves[i], leaves[j]);
      }
    }
    forall p ensures Resolve(doc, p).Some? && !Resolve(doc, p).value.IsContainer() <==> Render(p) in lines {
      if Render(p) in lines {
        var i :| 0 <= i < |lines| && lines[i] == Render(p);
        RenderInjective(leaves[i], p);
      }
      if Resolve(doc, p).Some? && !Resolve(doc, p).value.IsContainer() {
        var i :| 0 <= i < |leaves| && leaves[i] == p;
        assert lines[i] == Render(p);
      }
    }
  }
}
