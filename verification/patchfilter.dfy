/** The pointer list of the patch filter (patch_filtered_by_pointers.py): the
    lines of the pointer file with trailing whitespace removed. */
module PointerLines {
  import opened Seqs

  /** Python's `str.isspace` for one character. */
  predicate IsSpace(c: char) {
    || ('\t' <= c <= '\r')                 // tab, line feed, vertical tab, form feed, carriage return
    || ('\U{1C}' <= c <= '\U{1F}')         // information separators
    || c == ' ' || c == '\U{85}' || c == '\U{A0}' || c == '\U{1680}'
    || ('\U{2000}' <= c <= '\U{200A}')     // en quad to hair space
    || c == '\U{2028}' || c == '\U{2029}' || c == '\U{202F}' || c == '\U{205F}' || c == '\U{3000}'
  }

  /** `str.rstrip()`: the longest prefix that does not end in whitespace. */
  function RStrip(s: string): (r: string)
    ensures r <= s
    ensures forall i :: |r| <= i < |s| ==> IsSpace(s[i])
    ensures r == [] || !IsSpace(r[|r| - 1])
  {
    TrimRight(s, IsSpace)
  }

  /** The longest prefix of `s` whose last character `drop` rejects. */
  function TrimRight(s: string, drop: char -> bool): (r: string)
    ensures r <= s
    ensures forall i :: |r| <= i < |s| ==> drop(s[i])
    ensures r == [] || !drop(r[|r| - 1])
  {
    if s != [] && drop(s[|s| - 1]) then
      var s' := s[..|s| - 1];
      var r := TrimRight(s', drop);
      assert r <= s by {
        assert s'[..|r|] == r && s[..|r|] == s'[..|r|];
      }
      assert forall i :: |r| <= i < |s| ==> drop(s[i]) by {
        forall i | |r| <= i < |s| ensures drop(s[i]) {
          if i < |s'| { assert s[i] == s'[i]; }
        }
      }
      r
    else s
  }

  /** `[line.rstrip() for line in fp if line]`. */
  function PointerList(lines: seq<string>): (r: seq<string>)
    ensures |r| <= |lines|
    ensures forall i :: 0 <= i < |r| ==> r[i] == [] || !IsSpace(r[i][|r[i]| - 1])
  {
    Map(Filter(lines, (line: string) => line != ""), RStrip)
  }

  /** The lines of a file are never empty (each keeps its line break), so
      every line gives one pointer: the line with trailing whitespace removed. */
  lemma PointerListOfLines(lines: seq<string>)
    requires forall i :: 0 <= i < |lines| ==> lines[i] != ""
    ensures |PointerList(lines)| == |lines|
    ensures forall i :: 0 <= i < |lines| ==> PointerList(lines)[i] == RStrip(lines[i])
  {
    FilterAll(lines, (line: string) => line != "");
  }

  /** A blank line gives the empty pointer, which selects operations on the
      document root, rather than being dropped. */
  lemma BlankLineIsRoot(line: string)
    requires forall k :: 0 <= k < |line| ==> IsSpace(line[k])
    ensures RStrip(line) == ""
  {
  }
}

/** Patch filtering (patch_filtered_by_pointers.py): keep the operations of a
    sequence of JSON Patch files whose "path" equals one of a list of pointers,
    the list being read from lines with trailing whitespace removed. */
module PatchFilter {
  import opened Wrappers
  import opened Seqs
  import opened JsonTree

  // ---------------------------------------------------------------------------
  // Selecting operations.

  /** `match_pointer_patch`: `pointer == patch["path"]`, or the error the
      subscript raises. A non-string "path" equals no pointer. */
  function MatchPointerPatch(pointer: string, patch: Json): (r: Result<bool, LookupError>)
    ensures r.Err? <==> Field(patch, "path").Err?
    ensures r.Ok? ==> (r.value <==> Matches(pointer, patch))
  {
    match Field(patch, "path")
    case Ok(path) => Ok(path == JStr(pointer))
    case Err(e) => Err(e)
  }

  /** The operation's "path" is the string `pointer`. */
  predicate Matches(pointer: string, patch: Json) {
    Field(patch, "path") == Ok(JStr(pointer))
  }

  /** Whether the operation's "path" is a string in the pointer list. */
  predicate PathIn(pointers: seq<string>, patch: Json) {
    exists k :: 0 <= k < |pointers| && Matches(pointers[k], patch)
  }

  /** The first operation's subscripting error, if any has no "path". */
  function FirstPathError(ops: seq<Json>): (r: Option<LookupError>)
    ensures r.None? <==> forall i :: 0 <= i < |ops| ==> Field(ops[i], "path").Ok?
    ensures r.Some? ==> exists i :: (0 <= i < |ops| && Field(ops[i], "path") == Err(r.value)
      && forall j :: 0 <= j < i ==> Field(ops[j], "path").Ok?)
  {
    if ops == [] then None
    else match Field(ops[0], "path")
      case Err(e) => Some(e)
      case Ok(_) =>
        var r := FirstPathError(ops[1..]);
        assert forall j :: 1 <= j < |ops| ==> ops[j] == ops[1..][j - 1];
        r
  }

  /** The selection test as a function value. */
  function Keeps(pointers: seq<string>): Json -> bool {
    (op: Json) => PathIn(pointers, op)
  }

  /** What the filter outputs: with no pointers, nothing (no operation is
      looked at); otherwise the first operation lacking "path" raises, and
      when none does, the operations whose "path" is in the list, in order. */
  function Selected(pointers: seq<string>, files: seq<seq<Json>>): Result<seq<Json>, LookupError> {
    var ops := Flatten(files);
    if pointers == [] then Ok([])
    else match FirstPathError(ops)
      case Some(e) => Err(e)
      case None => Ok(Filter(ops, Keeps(pointers)))
  }

  /** An operation lacking "path" with none before it is the one that raises. */
  lemma FirstPathErrorAt(ops: seq<Json>, at: nat, e: LookupError)
    requires at < |ops| && Field(ops[at], "path") == Err(e)
    requires forall j :: 0 <= j < at ==> Field(ops[j], "path").Ok?
    ensures FirstPathError(ops) == Some(e)
  {
    var r := FirstPathError(ops);
    var i :| 0 <= i < |ops| && Field(ops[i], "path") == Err(r.value)
      && forall j :: 0 <= j < i ==> Field(ops[j], "path").Ok?;
    if i < at {
      assert false;
    } else if at < i {
      assert false;
    }
  }

  lemma {:induction false} FlattenPrefix<T>(ss: seq<seq<T>>, i: nat)
    requires i <= |ss|
    ensures Flatten(ss[..i]) <= Flatten(ss)
    decreases |ss| - i
  {
    if i < |ss| {
      FlattenPrefix(ss, i + 1);
      FlattenAppend(ss[..i], ss[i]);
      assert ss[..i + 1] == ss[..i] + [ss[i]];
    } else {
      assert ss[..i] == ss;
    }
  }

  /** The innermost loop of `parse_patches`: try the pointers in order and stop
      at the first that matches. With no pointers nothing is looked at;
      otherwise the first comparison raises when "path" is missing. */
  method MatchAny(pointers: seq<string>, patch: Json) returns (r: Result<bool, LookupError>)
    ensures pointers == [] ==> r == Ok(false)
    ensures pointers != [] && Field(patch, "path").Err? ==> r == Err(Field(patch, "path").error)
    ensures pointers != [] && Field(patch, "path").Ok? ==> r == Ok(PathIn(pointers, patch))
  {
    for k := 0 to |pointers|
      invariant k > 0 ==> Field(patch, "path").Ok?
      invariant forall j :: 0 <= j < k ==> !Matches(pointers[j], patch)
    {
      var m := MatchPointerPatch(pointers[k], patch);
      if m.Err? {
        return Err(m.error);
      }
      if m.value {
        return Ok(true);
      }
    }
    return Ok(false);
  }

  /** `parse_patches`, over the files' already loaded operation lists: for
      each operation, try the pointers in order and keep the operation at the
      first one that matches; an operation without "path" raises. */
  method ParsePatches(pointers: seq<string>, files: seq<seq<Json>>) returns (r: Result<seq<Json>, LookupError>)
    ensures r == Selected(pointers, files)
  {
    var keep := Keeps(pointers);
    var result: seq<Json> := [];
    for f := 0 to |files|
      invariant pointers != [] ==> FirstPathError(Flatten(files[..f])).None?
      invariant result == Filter(Flatten(files[..f]), keep)
    {
      var js := files[f];
      ghost var done := Flatten(files[..f]);
      assert done + js[..0] == done;
      for n := 0 to |js|
        invariant pointers != [] ==> FirstPathError(done + js[..n]).None?
        invariant result == Filter(done + js[..n], keep)
      {
        var patchlist := js[n];
        ghost var before := result;
        var m := MatchAny(pointers, patchlist);
        if m.Err? {
          ErrorStops(pointers, files, f, n, m.error);
          return Err(m.error);
        }
        if m.value {
          result := result + [patchlist];
        }
        SelectionStep(pointers, done, js, n, before, result);
      }
      assert js[..|js|] == js;
      FlattenStep(files, f);
    }
    assert files[..|files|] == files;
    if pointers == [] {
      NothingKept(Flatten(files));
    }
    return Ok(result);
  }

  /** With no pointers, no operation is kept. */
  lemma NothingKept(ops: seq<Json>)
    ensures Filter(ops, Keeps([])) == []
  {
  }

  /** One turn of the loop over operations: the operation is appended exactly
      when its "path" is in the list; no error arises when the list is empty
      or the operation has a "path". */
  lemma SelectionStep(pointers: seq<string>, done: seq<Json>, js: seq<Json>, n: nat, before: seq<Json>, after: seq<Json>)
    requires n < |js|
    requires before == Filter(done + js[..n], Keeps(pointers))
    requires pointers != [] ==> FirstPathError(done + js[..n]).None? && Field(js[n], "path").Ok?
    requires || (after == before + [js[n]] && PathIn(pointers, js[n]))
             || (after == before && forall j :: 0 <= j < |pointers| ==> !Matches(pointers[j], js[n]))
    ensures after == Filter(done + js[..n + 1], Keeps(pointers))
    ensures pointers != [] ==> FirstPathError(done + js[..n + 1]).None?
  {
    var seen := done + js[..n];
    assert done + js[..n + 1] == seen + [js[n]];
    assert (seen + [js[n]])[..|seen|] == seen;
    if pointers != [] {
      assert forall i :: 0 <= i < |seen| + 1 ==> (seen + [js[n]])[i] == if i < |seen| then seen[i] else js[n];
    }
  }

  /** The operations before the `n`-th of file `f`, and it, start the concatenated input. */
  lemma OperationPrefix<T>(files: seq<seq<T>>, f: nat, n: nat)
    requires f < |files| && n < |files[f]|
    ensures Flatten(files[..f]) + files[f][..n] + [files[f][n]] <= Flatten(files)
  {
    FlattenPrefix(files, f + 1);
    FlattenStep(files, f);
    var a, b := Flatten(files[..f]), files[f];
    assert a + b[..n] + [b[n]] == (a + b)[..|a| + n + 1];
  }

  /** One more file: its operations follow those of the files before it. */
  lemma FlattenStep<T>(files: seq<seq<T>>, f: nat)
    requires f < |files|
    ensures Flatten(files[..f + 1]) == Flatten(files[..f]) + files[f]
  {
    assert files[..f + 1] == files[..f] + [files[f]];
    FlattenAppend(files[..f], files[f]);
  }

  /** The first operation without "path" stops the whole run with its error. */
  lemma ErrorStops(pointers: seq<string>, files: seq<seq<Json>>, f: nat, n: nat, e: LookupError)
    requires f < |files| && n < |files[f]|
    requires pointers != []
    requires FirstPathError(Flatten(files[..f]) + files[f][..n]).None?
    requires Field(files[f][n], "path") == Err(e)
    ensures Err(e) == Selected(pointers, files)
  {
    var seen := Flatten(files[..f]) + files[f][..n];
    var ops := Flatten(files);
    OperationPrefix(files, f, n);
    assert ops[|seen|] == files[f][n];
    forall j | 0 <= j < |seen| ensures Field(ops[j], "path").Ok? {
      assert ops[j] == seen[j];
    }
    FirstPathErrorAt(ops, |seen|, e);
    assert Selected(pointers, files) == Err(e);
  }

  // ---------------------------------------------------------------------------
  // What the selection promises.

  /** The output is the input operations, unmodified, in file and operation order. */
  lemma SelectedSubseq(pointers: seq<string>, files: seq<seq<Json>>)
    requires Selected(pointers, files).Ok?
    ensures IsSubseq(Selected(pointers, files).value, Flatten(files))
  {
    if pointers == [] {
      assert Embeds([], Flatten(files), []);
    } else {
      FilterSubseq(Flatten(files), Keeps(pointers));
    }
  }

  /** An operation is output exactly as often as it occurs in the input when
      its "path" equals some pointer, and otherwise never: each occurrence is
      output at most once however many pointers match it. */
  lemma SelectedCount(pointers: seq<string>, files: seq<seq<Json>>, op: Json)
    requires Selected(pointers, files).Ok?
    ensures multiset(Selected(pointers, files).value)[op]
      == if PathIn(pointers, op) then multiset(Flatten(files))[op] else 0
  {
    if pointers != [] {
      FilterCount(Flatten(files), Keeps(pointers), op);
    }
  }

  lemma SameElementsEmpty(p1: seq<string>, p2: seq<string>)
    requires forall x :: x in p1 <==> x in p2
    ensures (p1 == []) == (p2 == [])
  {
    if |p1| > 0 {
      assert p1[0] in p2;
    }
    if |p2| > 0 {
      assert p2[0] in p1;
    }
  }

  /** Only the set of pointers matters: repeating or reordering them changes nothing. */
  lemma PointerSetOnly(p1: seq<string>, p2: seq<string>, files: seq<seq<Json>>)
    requires forall x :: x in p1 <==> x in p2
    ensures Selected(p1, files) == Selected(p2, files)
  {
    SameElementsEmpty(p1, p2);
    if p1 != [] {
      forall op | op in Flatten(files) ensures Keeps(p1)(op) == Keeps(p2)(op) {
        if PathIn(p1, op) {
          var k :| 0 <= k < |p1| && Matches(p1[k], op);
          assert p1[k] in p2;
        }
        if PathIn(p2, op) {
          var k :| 0 <= k < |p2| && Matches(p2[k], op);
          assert p2[k] in p1;
        }
      }
      FilterCongruent(Flatten(files), Keeps(p1), Keeps(p2));
      match FirstPathError(Flatten(files)) {
        case None =>
          assert Selected(p1, files) == Ok(Filter(Flatten(files), Keeps(p1)));
          assert Selected(p2, files) == Ok(Filter(Flatten(files), Keeps(p2)));
        case Some(e) =>
          assert Selected(p1, files) == Err(e) == Selected(p2, files);
      }
    }
  }

  /** The run fails exactly when the list is non-empty and some operation has no "path". */
  lemma ErrorIff(pointers: seq<string>, files: seq<seq<Json>>)
    ensures Selected(pointers, files).Err? <==>
      pointers != [] && exists i :: 0 <= i < |Flatten(files)| && Field(Flatten(files)[i], "path").Err?
  {
    var ops := Flatten(files);
    if pointers != [] {
      match FirstPathError(ops) {
        case None =>
          assert Selected(pointers, files) == Ok(Filter(ops, Keeps(pointers)));
        case Some(e) =>
          assert Selected(pointers, files) == Err(e);
          var i :| 0 <= i < |ops| && Field(ops[i], "path") == Err(e)
            && forall j :: 0 <= j < i ==> Field(ops[j], "path").Ok?;
          assert Field(ops[i], "path").Err?;
      }
    }
  }
}
