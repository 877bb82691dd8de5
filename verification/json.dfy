/** The JSON documents the scripts load, the raw-segment paths that address
    their nodes, and the operations every script shares: evaluating a path
    (section 4 of RFC 6901), assigning at a path (`JsonPointer.set`), the
    pre-order walk over every node, and what "the same shape" means. */
module JsonTree {
  import opened Wrappers
  import opened Seqs

  /** A decoded JSON value. Objects keep their insertion order; numbers are
      integers only. */
  datatype Json =
    | JNull
    | JBool(b: bool)
    | JInt(n: int)
    | JStr(s: string)
    | JArr(items: seq<Json>)
    | JObj(fields: seq<(string, Json)>)
  {
    predicate IsContainer() {
      JArr? || JObj?
    }

    /** The number of direct children: elements of an array, members of an object. */
    function Width(): nat {
      match this
      case JArr(items) => |items|
      case JObj(fields) => |fields|
      case _ => 0
    }
  }

  /** A pointer as its sequence of raw (unescaped) reference tokens; the root is []. */
  type Path = seq<string>

  // ---------------------------------------------------------------------------
  // Array indices: `str(i)` on the way down, the RFC 6901 `array-index` on the
  // way back.

  predicate IsDigit(c: char) {
    '0' <= c <= '9'
  }

  predicate AllDigits(s: string) {
    forall i :: 0 <= i < |s| ==> IsDigit(s[i])
  }

  function DigitChar(d: nat): (c: char)
    requires d < 10
    ensures IsDigit(c)
  {
    (48 + d) as char
  }

  /** The decimal rendering of `n`, as Python's `str(n)` gives it. */
  function Decimal(n: nat): (r: string)
    ensures r != [] && AllDigits(r)
    decreases n
  {
    if n < 10 then [DigitChar(n)] else Decimal(n / 10) + [DigitChar(n % 10)]
  }

  function DigitsValue(s: string): nat
    requires AllDigits(s)
  {
    if s == [] then 0 else DigitsValue(s[..|s| - 1]) * 10 + (s[|s| - 1] as int - 48)
  }

  /** The `array-index` production of section 4 of RFC 6901: "0", or digits without a leading zero. */
  predicate IsArrayIndex(s: string) {
    s != [] && AllDigits(s) && (s[0] == '0' ==> |s| == 1)
  }

  function ParseIndex(s: string): Option<nat> {
    if IsArrayIndex(s) then Some(DigitsValue(s)) else None
  }

  lemma {:induction false} DecimalLeading(n: nat)
    ensures (Decimal(n)[0] == '0') == (n == 0)
    decreases n
  {
    if n >= 10 {
      DecimalLeading(n / 10);
    }
  }

  /** Every rendered index parses back to itself. */
  lemma {:induction false} DecimalParses(n: nat)
    ensures ParseIndex(Decimal(n)) == Some(n)
    decreases n
  {
    var s := Decimal(n);
    if n < 10 {
      assert s[..0] == [];
      assert DigitsValue(s) == n;
    } else {
      var d := Decimal(n / 10);
      DecimalParses(n / 10);
      DecimalLeading(n / 10);
      assert s[..|d|] == d;
      assert DigitsValue(s) == (n / 10) * 10 + n % 10;
    }
  }

  lemma {:induction false} DigitsValuePositive(s: string)
    requires IsArrayIndex(s) && s[0] != '0'
    ensures DigitsValue(s) >= 1
    decreases |s|
  {
    if |s| > 1 {
      DigitsValuePositive(s[..|s| - 1]);
    }
  }

  /** Every array index is the rendering of its value: indices have one spelling. */
  lemma {:induction false} IndexIsDecimal(s: string)
    requires IsArrayIndex(s)
    ensures Decimal(DigitsValue(s)) == s
    decreases |s|
  {
    if |s| > 1 {
      var s' := s[..|s| - 1];
      IndexIsDecimal(s');
      DigitsValuePositive(s');
      var v := DigitsValue(s);
      assert v / 10 == DigitsValue(s') && v % 10 == s[|s| - 1] as int - 48;
      assert s == s' + [s[|s| - 1]];
    }
  }

  lemma DecimalInjective(i: nat, j: nat)
    requires Decimal(i) == Decimal(j)
    ensures i == j
  {
    DecimalParses(i);
    DecimalParses(j);
  }

  // ---------------------------------------------------------------------------
  // Children of a node, uniformly for arrays and objects.

  /** Objects in the scripts come from Python dictionaries: no key twice. */
  predicate DistinctKeys(fields: seq<(string, Json)>) {
    forall i, j :: 0 <= i < j < |fields| ==> fields[i].0 != fields[j].0
  }

  /** The `i`-th child: an array element or an object member's value. */
  function Child(doc: Json, i: nat): Json
    requires i < doc.Width()
  {
    if doc.JArr? then doc.items[i] else doc.fields[i].1
  }

  /** The segment that leads to the `i`-th child: `str(i)` or the member's key. */
  function Seg(doc: Json, i: nat): string
    requires i < doc.Width()
  {
    if doc.JArr? then Decimal(i) else doc.fields[i].0
  }

  predicate DistinctSegs(doc: Json) {
    forall i, j :: 0 <= i < j < doc.Width() ==> Seg(doc, i) != Seg(doc, j)
  }

  /** A JSON value as a Python dictionary can hold it: every object has distinct keys. */
  predicate WellFormed(doc: Json)
    decreases doc
  {
    && (doc.JObj? ==> DistinctKeys(doc.fields))
    && forall i :: 0 <= i < doc.Width() ==> WellFormed(Child(doc, i))
  }

  lemma WellFormedSegs(doc: Json)
    requires WellFormed(doc)
    ensures DistinctSegs(doc)
  {
    if doc.JArr? {
      forall i, j | 0 <= i < j < doc.Width() ensures Seg(doc, i) != Seg(doc, j) {
        if Seg(doc, i) == Seg(doc, j) {
          DecimalInjective(i, j);
        }
      }
    }
  }

  /** The first member of `fields` whose key is `key`. */
  function FindKey(fields: seq<(string, Json)>, key: string): (r: Option<nat>)
    ensures r.Some? ==> r.value < |fields| && fields[r.value].0 == key
    ensures r.Some? ==> forall j :: 0 <= j < r.value ==> fields[j].0 != key
    ensures r.None? ==> forall j :: 0 <= j < |fields| ==> fields[j].0 != key
  {
    if fields == [] then None
    else if fields[0].0 == key then Some(0)
    else match FindKey(fields[1..], key)
      case Some(i) => Some(i + 1)
      case None => None
  }

  /** The child a reference token designates (section 4 of RFC 6901): for an
      array, the element whose index the token spells; for an object, the
      member with that key. */
  function Step(doc: Json, seg: string): (r: Option<nat>)
    ensures r.Some? ==> r.value < doc.Width() && Seg(doc, r.value) == seg
    ensures r.Some? ==> forall j :: 0 <= j < r.value ==> Seg(doc, j) != seg
    ensures r.None? ==> forall j :: 0 <= j < doc.Width() ==> Seg(doc, j) != seg
  {
    match doc
    case JArr(items) =>
      (match ParseIndex(seg)
       case Some(i) =>
         IndexIsDecimal(seg);
         if i < |items| then
           assert forall j :: 0 <= j < i ==> Seg(doc, j) != seg by {
             forall j | 0 <= j < i ensures Seg(doc, j) != seg {
               if Decimal(j) == seg { DecimalInjective(i, j); }
             }
           }
           Some(i)
         else
           assert forall j :: 0 <= j < doc.Width() ==> Seg(doc, j) != seg by {
             forall j | 0 <= j < doc.Width() ensures Seg(doc, j) != seg {
               if Decimal(j) == seg { DecimalInjective(i, j); }
             }
           }
           None
       case None =>
         assert forall j :: 0 <= j < doc.Width() ==> Seg(doc, j) != seg by {
           forall j | 0 <= j < doc.Width() ensures Seg(doc, j) != seg {
             DecimalParses(j);
           }
         }
         None)
    case JObj(fields) => FindKey(fields, seg)
    case _ => None
  }

  /** With distinct segments, each child is reached by its own segment. */
  lemma StepToChild(doc: Json, i: nat)
    requires i < doc.Width() && DistinctSegs(doc)
    ensures Step(doc, Seg(doc, i)) == Some(i)
  {
  }

  /** `Step` only looks at the number of children and their segments. */
  lemma StepBySegs(a: Json, b: Json, seg: string)
    requires a.Width() == b.Width()
    requires forall i :: 0 <= i < a.Width() ==> Seg(a, i) == Seg(b, i)
    ensures Step(a, seg) == Step(b, seg)
  {
  }

  // ---------------------------------------------------------------------------
  // Evaluation and assignment (section 4 of RFC 6901, `JsonPointer.set`).

  /** The node a path designates, if any. */
  function Resolve(doc: Json, path: Path): Option<Json>
    decreases path
  {
    if path == [] then Some(doc)
    else match Step(doc, path[0])
      case Some(i) => Resolve(Child(doc, i), path[1..])
      case None => None
  }

  /** `doc` with its `i`-th child replaced by `c`; keys and order are kept. */
  function WithChild(doc: Json, i: nat, c: Json): (r: Json)
    requires i < doc.Width()
    ensures r.JArr? == doc.JArr? && r.JObj? == doc.JObj? && r.Width() == doc.Width()
    ensures Child(r, i) == c
    ensures forall j :: 0 <= j < doc.Width() && j != i ==> Child(r, j) == Child(doc, j)
    ensures forall j :: 0 <= j < doc.Width() ==> Seg(r, j) == Seg(doc, j)
  {
    match doc
    case JArr(items) => JArr(items[i := c])
    case JObj(fields) => JObj(fields[i := (fields[i].0, c)])
  }

  /** Overwrite the node at `path` with `v`; None when the path leads nowhere.
      (An empty path replaces the whole value; `SetInPlace` refuses it.) */
  function Assign(doc: Json, path: Path, v: Json): Option<Json>
    decreases path
  {
    if path == [] then Some(v)
    else match Step(doc, path[0])
      case None => None
      case Some(i) =>
        match Assign(Child(doc, i), path[1..], v)
        case None => None
        case Some(c) => Some(WithChild(doc, i, c))
  }

  /** `JsonPointer.set(doc, v)` with in-place update: the root itself cannot be replaced. */
  function SetInPlace(doc: Json, path: Path, v: Json): Option<Json> {
    if path == [] then None else Assign(doc, path, v)
  }

  lemma {:induction false} ResolveAppend(doc: Json, p: Path, q: Path)
    ensures Resolve(doc, p + q) == match Resolve(doc, p) case Some(x) => Resolve(x, q) case None => None
    decreases p
  {
    if p != [] {
      assert (p + q)[0] == p[0] && (p + q)[1..] == p[1..] + q;
      match Step(doc, p[0])
      case Some(i) => ResolveAppend(Child(doc, i), p[1..], q);
      case None =>
    } else {
      assert p + q == q;
    }
  }

  /** Assigning at a path that resolves succeeds and leaves `v` there. */
  lemma {:induction false} AssignHere(doc: Json, p: Path, v: Json)
    requires Resolve(doc, p).Some?
    ensures Assign(doc, p, v).Some? && Resolve(Assign(doc, p, v).value, p) == Some(v)
    decreases p
  {
    if p != [] {
      var i := Step(doc, p[0]).value;
      AssignHere(Child(doc, i), p[1..], v);
      var c := Assign(Child(doc, i), p[1..], v).value;
      StepBySegs(WithChild(doc, i, c), doc, p[0]);
    }
  }

  lemma PrefixTail(p: Path, q: Path)
    requires p != [] && q != [] && p[0] == q[0]
    ensures (p <= q) == (p[1..] <= q[1..])
  {
    assert p == [p[0]] + p[1..] && q == [q[0]] + q[1..];
  }

  /** Assigning at `p` leaves every node on a path that branches away from `p` as it was. */
  lemma {:induction false} AssignElsewhere(doc: Json, p: Path, v: Json, q: Path)
    requires Assign(doc, p, v).Some?
    requires !(p <= q) && !(q <= p)
    ensures Resolve(Assign(doc, p, v).value, q) == Resolve(doc, q)
    decreases p
  {
    var i := Step(doc, p[0]).value;
    var c := Assign(Child(doc, i), p[1..], v).value;
    var d' := WithChild(doc, i, c);
    StepBySegs(d', doc, q[0]);
    if p[0] == q[0] {
      PrefixTail(p, q);
      PrefixTail(q, p);
      AssignElsewhere(Child(doc, i), p[1..], v, q[1..]);
    }
  }

  // ---------------------------------------------------------------------------
  // The shape of a document: everything but the text of its strings.

  /** `a` and `b` differ at most in the contents of strings: same kinds of
      nodes, same array lengths, same keys in the same order, same other scalars. */
  predicate SameShape(a: Json, b: Json)
    decreases a
  {
    if a.JStr? then b.JStr?
    else if a.IsContainer() then
      && b.JArr? == a.JArr? && b.JObj? == a.JObj? && b.Width() == a.Width()
      && forall i :: 0 <= i < a.Width() ==> Seg(a, i) == Seg(b, i) && SameShape(Child(a, i), Child(b, i))
    else a == b
  }

  lemma {:induction false} SameShapeRefl(a: Json)
    ensures SameShape(a, a)
    decreases a
  {
    forall i | 0 <= i < a.Width() ensures SameShape(Child(a, i), Child(a, i)) {
      SameShapeRefl(Child(a, i));
    }
  }

  lemma {:induction false} SameShapeTrans(a: Json, b: Json, c: Json)
    requires SameShape(a, b) && SameShape(b, c)
    ensures SameShape(a, c)
    decreases a
  {
    if a.IsContainer() {
      forall i | 0 <= i < a.Width() ensures SameShape(Child(a, i), Child(c, i)) {
        SameShapeTrans(Child(a, i), Child(b, i), Child(c, i));
      }
    }
  }

  lemma {:induction false} SameShapeWellFormed(a: Json, b: Json)
    requires SameShape(a, b) && WellFormed(a)
    ensures WellFormed(b)
    decreases a
  {
    if a.IsContainer() {
      forall i | 0 <= i < b.Width() ensures WellFormed(Child(b, i)) {
        SameShapeWellFormed(Child(a, i), Child(b, i));
      }
      if b.JObj? {
        forall i, j | 0 <= i < j < |b.fields| ensures b.fields[i].0 != b.fields[j].0 {
          assert Seg(a, i) == Seg(b, i) && Seg(a, j) == Seg(b, j);
        }
      }
    }
  }

  /** Documents of the same shape have the same paths, leading to nodes of the same shape. */
  lemma {:induction false} SameShapeResolve(a: Json, b: Json, q: Path)
    requires SameShape(a, b)
    ensures Resolve(a, q).Some? == Resolve(b, q).Some?
    ensures Resolve(a, q).Some? ==> SameShape(Resolve(a, q).value, Resolve(b, q).value)
    decreases q
  {
    if q != [] {
      if a.IsContainer() {
        StepBySegs(a, b, q[0]);
        match Step(a, q[0])
        case Some(i) => SameShapeResolve(Child(a, i), Child(b, i), q[1..]);
        case None =>
      } else {
        assert a.Width() == 0 && b.Width() == 0;
      }
    }
  }

  /** Overwriting a string with a string keeps the shape. */
  lemma {:induction false} AssignShape(doc: Json, p: Path, v: Json)
    requires Resolve(doc, p).Some? && Resolve(doc, p).value.JStr? && v.JStr?
    ensures Assign(doc, p, v).Some? && SameShape(doc, Assign(doc, p, v).value)
    decreases p
  {
    AssignHere(doc, p, v);
    if p != [] {
      var i := Step(doc, p[0]).value;
      AssignShape(Child(doc, i), p[1..], v);
      var c := Assign(Child(doc, i), p[1..], v).value;
      var d' := WithChild(doc, i, c);
      forall j | 0 <= j < doc.Width() ensures SameShape(Child(doc, j), Child(d', j)) {
        if j != i { SameShapeRefl(Child(doc, j)); }
      }
    }
  }

  /** Two different paths to scalars branch apart: neither is a prefix of the other. */
  lemma LeafPathsDiverge(doc: Json, p: Path, q: Path)
    requires Resolve(doc, p).Some? && !Resolve(doc, p).value.IsContainer()
    requires Resolve(doc, q).Some? && !Resolve(doc, q).value.IsContainer()
    requires p != q
    ensures !(p <= q) && !(q <= p)
  {
    if |p| <= |q| {
      assert q == q[..|p|] + q[|p|..];
      ResolveAppend(doc, p, q[|p|..]);
    }
    if |q| <= |p| {
      assert p == p[..|q|] + p[|q|..];
      ResolveAppend(doc, q, p[|q|..]);
    }
  }

  // ---------------------------------------------------------------------------
  // The tree walk: every node with its path, in pre-order.

  /** The node `doc` (reached by `at`) and then, child by child in index or key
      order, every node below it: a pre-order walk over containers and scalars
      alike. Strings are scalars and are not walked into. */
  function NodesAt(doc: Json, at: Path): seq<(Path, Json)>
    decreases doc, 1, 0
  {
    [(at, doc)] + ChildNodes(doc, at, doc.Width())
  }

  /** The walks below the first `n` children of `doc`, concatenated in order. */
  function ChildNodes(doc: Json, at: Path, n: nat): seq<(Path, Json)>
    requires n <= doc.Width()
    decreases doc, 0, n
  {
    if n == 0 then []
    else ChildNodes(doc, at, n - 1) + NodesAt(Child(doc, n - 1), at + [Seg(doc, n - 1)])
  }

  /** Every node of `doc` with its path from the root, in pre-order. */
  function Walk(doc: Json): seq<(Path, Json)> {
    NodesAt(doc, [])
  }

  function Paths(nodes: seq<(Path, Json)>): seq<Path> {
    Map(nodes, (node: (Path, Json)) => node.0)
  }

  /** Every node the walk yields is on the path it is paired with. */
  lemma {:induction false} NodesSound(doc: Json, at: Path)
    requires WellFormed(doc)
    ensures forall node :: node in NodesAt(doc, at) ==>
      at <= node.0 && Resolve(doc, node.0[|at|..]) == Some(node.1)
    decreases doc, 1, 0
  {
    ChildNodesSound(doc, at, doc.Width());
    assert (at, doc).0[|at|..] == [];
  }

  lemma {:induction false} ChildNodesSound(doc: Json, at: Path, n: nat)
    requires WellFormed(doc) && n <= doc.Width()
    ensures forall node :: node in ChildNodes(doc, at, n) ==>
      at <= node.0 && Resolve(doc, node.0[|at|..]) == Some(node.1)
    decreases doc, 0, n
  {
    if n > 0 {
      var i := n - 1;
      var c, at' := Child(doc, i), at + [Seg(doc, i)];
      ChildNodesSound(doc, at, i);
      NodesSound(c, at');
      WellFormedSegs(doc);
      StepToChild(doc, i);
      forall node | node in NodesAt(c, at')
        ensures at <= node.0 && Resolve(doc, node.0[|at|..]) == Some(node.1)
      {
        var q := node.0[|at'|..];
        assert node.0 == at' + q;
        assert node.0[|at|..] == [Seg(doc, i)] + q;
      }
    }
  }

  lemma {:induction false} ChildNodesIncludes(doc: Json, at: Path, n: nat, i: nat)
    requires i < n <= doc.Width()
    ensures forall node :: node in NodesAt(Child(doc, i), at + [Seg(doc, i)]) ==> node in ChildNodes(doc, at, n)
    decreases n
  {
    assert ChildNodes(doc, at, n) == ChildNodes(doc, at, n - 1) + NodesAt(Child(doc, n - 1), at + [Seg(doc, n - 1)]);
    if i < n - 1 {
      ChildNodesIncludes(doc, at, n - 1, i);
    }
  }

  /** Every node that a path reaches is yielded by the walk, paired with that path. */
  lemma {:induction false} NodesComplete(doc: Json, at: Path, q: Path)
    requires Resolve(doc, q).Some?
    ensures (at + q, Resolve(doc, q).value) in NodesAt(doc, at)
    decreases q
  {
    if q == [] {
      assert at + q == at;
    } else {
      var i := Step(doc, q[0]).value;
      var c, at' := Child(doc, i), at + [Seg(doc, i)];
      assert Resolve(doc, q) == Resolve(c, q[1..]);
      NodesComplete(c, at', q[1..]);
      assert at' + q[1..] == at + q by {
        assert q == [q[0]] + q[1..];
      }
      ChildNodesIncludes(doc, at, doc.Width(), i);
      assert NodesAt(doc, at) == [(at, doc)] + ChildNodes(doc, at, doc.Width());
    }
  }

  /** Paths below the first `n` children start with `at` and one of those children's segments. */
  lemma {:induction false} ChildNodesBranch(doc: Json, at: Path, n: nat)
    requires n <= doc.Width()
    ensures forall node :: node in ChildNodes(doc, at, n) ==>
      |at| < |node.0| && at <= node.0 && exists j :: 0 <= j < n && node.0[|at|] == Seg(doc, j)
    decreases doc, 0, n
  {
    if n > 0 {
      ChildNodesBranch(doc, at, n - 1);
      var at' := at + [Seg(doc, n - 1)];
      NodesPrefix(Child(doc, n - 1), at');
      forall node | node in NodesAt(Child(doc, n - 1), at')
        ensures |at| < |node.0| && at <= node.0 && node.0[|at|] == Seg(doc, n - 1)
      {
        assert at' <= node.0;
        assert node.0[|at|] == at'[|at|];
      }
    }
  }

  lemma NodesPrefix(doc: Json, at: Path)
    ensures forall node :: node in NodesAt(doc, at) ==> at <= node.0
    decreases doc, 1, 0
  {
    ChildNodesBranch(doc, at, doc.Width());
  }

  /** A node below an earlier child and a node below child `n - 1` part at
      position `|at|`, where their children's segments differ. */
  lemma BranchesDiffer(doc: Json, at: Path, n: nat, x: (Path, Json), y: (Path, Json))
    requires WellFormed(doc) && 0 < n <= doc.Width()
    requires x in ChildNodes(doc, at, n - 1) && y in NodesAt(Child(doc, n - 1), at + [Seg(doc, n - 1)])
    ensures |at| < |x.0| && |at| < |y.0| && x.0[|at|] != y.0[|at|]
  {
    var at' := at + [Seg(doc, n - 1)];
    ChildNodesBranch(doc, at, n - 1);
    NodesPrefix(Child(doc, n - 1), at');
    WellFormedSegs(doc);
    var j :| 0 <= j < n - 1 && x.0[|at|] == Seg(doc, j);
    assert at' <= y.0;
    assert y.0[|at|] == Seg(doc, n - 1);
  }

  lemma PathsAppend(a: seq<(Path, Json)>, b: seq<(Path, Json)>)
    ensures Paths(a + b) == Paths(a) + Paths(b)
  {
  }

  /** In a well-formed document the walk yields each path once. */
  lemma {:induction false} NodesNoDup(doc: Json, at: Path)
    requires WellFormed(doc)
    ensures NoDup(Paths(NodesAt(doc, at)))
    decreases doc, 1, 0
  {
    var kids := ChildNodes(doc, at, doc.Width());
    ChildNodesNoDup(doc, at, doc.Width());
    ChildNodesBranch(doc, at, doc.Width());
    PathsAppend([(at, doc)], kids);
    assert Paths([(at, doc)]) == [at];
    forall j | 0 <= j < |Paths(kids)| ensures at != Paths(kids)[j] {
      assert kids[j] in kids;
    }
    NoDupAppend([at], Paths(kids));
  }

  lemma {:induction false} ChildNodesNoDup(doc: Json, at: Path, n: nat)
    requires WellFormed(doc) && n <= doc.Width()
    ensures NoDup(Paths(ChildNodes(doc, at, n)))
    decreases doc, 0, n
  {
    if n > 0 {
      var i := n - 1;
      var at' := at + [Seg(doc, i)];
      var front, back := ChildNodes(doc, at, i), NodesAt(Child(doc, i), at');
      ChildNodesNoDup(doc, at, i);
      NodesNoDup(Child(doc, i), at');
      ChildNodesBranch(doc, at, i);
      NodesPrefix(Child(doc, i), at');
      WellFormedSegs(doc);
      forall x, y | 0 <= x < |Paths(front)| && 0 <= y < |Paths(back)| ensures Paths(front)[x] != Paths(back)[y] {
        BranchesDiffer(doc, at, n, front[x], back[y]);
      }
      PathsAppend(front, back);
      NoDupAppend(Paths(front), Paths(back));
    }
  }

  // ---------------------------------------------------------------------------
  // Subscripting a patch operation, as Python's `item[key]` does.

  datatype LookupError =
    | NotAnObject            // TypeError: the item is not a dictionary
    | MissingKey(key: string) // KeyError
    | NotAString(key: string) // the member holds a value other than a string

  /** `item[key]`: the member's value, or the error Python raises. */
  function Field(item: Json, key: string): (r: Result<Json, LookupError>)
    ensures !item.JObj? ==> r == Err(NotAnObject)
    ensures item.JObj? && r.Ok? ==> (key, r.value) in item.fields
    ensures item.JObj? && r.Err? ==> r == Err(MissingKey(key)) && forall j :: 0 <= j < |item.fields| ==> item.fields[j].0 != key
  {
    match item
    case JObj(fields) =>
      (match FindKey(fields, key)
       case Some(i) => Ok(fields[i].1)
       case None => Err(MissingKey(key)))
    case _ => Err(NotAnObject)
  }
}
