/** Rendering a raw path as a JSON Pointer string (section 3 of RFC 6901),
    as `jsonpointer.escape` and `ptr_to_str` do it, and as the pointer
    enumerator does it without escaping. */
module JsonPointer {
  import opened Wrappers
  import opened Seqs
  import opened JsonTree

  /** Every occurrence of `c` in `s` replaced by `t` (Python's `str.replace` for one character). */
  function ReplaceChar(s: string, c: char, t: string): string {
    if s == [] then ""
    else (if s[0] == c then t else [s[0]]) + ReplaceChar(s[1..], c, t)
  }

  /** `jsonpointer.escape`: "~" becomes "~0", then "/" becomes "~1". An
      escaped token holds no "/", so "/" only ever separates tokens. */
  function Escape(s: string): (r: string)
    ensures NoSlash(r)
  {
    var inner := ReplaceChar(s, '~', "~0");
    ReplaceCharRemoves(inner, '/', "~1");
    ReplaceChar(inner, '/', "~1")
  }

  /** What escaping does to one character. */
  function EscapeChar(c: char): string {
    if c == '~' then "~0" else if c == '/' then "~1" else [c]
  }

  /** Decoding of a reference token (section 4 of RFC 6901): "~1" is "/", "~0"
      is "~"; a "~" followed by anything else is not a valid token. */
  function Unescape(s: string): Option<string> {
    if s == [] then Some("")
    else if s[0] != '~' then
      match Unescape(s[1..])
      case Some(rest) => Some([s[0]] + rest)
      case None => None
    else if |s| >= 2 && (s[1] == '0' || s[1] == '1') then
      match Unescape(s[2..])
      case Some(rest) => Some([if s[1] == '0' then '~' else '/'] + rest)
      case None => None
    else None
  }

  /** "/".join(parts), as Python's `str.join` gives it. */
  function Join(parts: seq<string>): string {
    if parts == [] then ""
    else if |parts| == 1 then parts[0]
    else parts[0] + "/" + Join(parts[1..])
  }

  /** Each part preceded by "/", concatenated. */
  function Prefixed(parts: seq<string>): string {
    if parts == [] then "" else "/" + parts[0] + Prefixed(parts[1..])
  }

  /** The JSON Pointer string of a path (section 3 of RFC 6901): "" for the
      root, otherwise "/" followed by the escaped token, for every token. */
  function Render(path: Path): string {
    Prefixed(Map(path, Escape))
  }

  /** The line the pointer enumerator prints: tokens joined by "/" with no escaping. */
  function RawRender(path: Path): string {
    Prefixed(path)
  }

  predicate NoSlash(s: string) {
    forall i :: 0 <= i < |s| ==> s[i] != '/'
  }

  // ---------------------------------------------------------------------------

  lemma {:induction false} ReplaceCharAppend(a: string, b: string, c: char, t: string)
    ensures ReplaceChar(a + b, c, t) == ReplaceChar(a, c, t) + ReplaceChar(b, c, t)
  {
    if a == [] {
      assert a + b == b;
    } else {
      assert (a + b)[1..] == a[1..] + b;
      ReplaceCharAppend(a[1..], b, c, t);
    }
  }

  /** Replacing `c` by a text without `c` leaves no `c` behind. */
  lemma {:induction false} ReplaceCharRemoves(s: string, c: char, t: string)
    requires forall i :: 0 <= i < |t| ==> t[i] != c
    ensures forall i :: 0 <= i < |ReplaceChar(s, c, t)| ==> ReplaceChar(s, c, t)[i] != c
    decreases |s|
  {
    if s != [] {
      ReplaceCharRemoves(s[1..], c, t);
    }
  }

  /** The two passes of `escape` act character by character. */
  lemma EscapeCons(s: string)
    requires s != []
    ensures Escape(s) == EscapeChar(s[0]) + Escape(s[1..])
  {
    var inner := ReplaceChar(s, '~', "~0");
    var head := if s[0] == '~' then "~0" else [s[0]];
    assert inner == head + ReplaceChar(s[1..], '~', "~0");
    ReplaceCharAppend(head, ReplaceChar(s[1..], '~', "~0"), '/', "~1");
    if s[0] == '~' {
      assert ReplaceChar(head, '/', "~1") == "~0" by {
        assert head[1..][1..] == [];
      }
    } else {
      assert ReplaceChar(head, '/', "~1") == EscapeChar(s[0]) by {
        assert head[1..] == [];
      }
    }
  }

  /** Decoding undoes escaping. */
  lemma {:induction false} UnescapeEscape(s: string)
    ensures Unescape(Escape(s)) == Some(s)
    decreases |s|
  {
    if s != [] {
      EscapeCons(s);
      UnescapeEscape(s[1..]);
      var e := Escape(s);
      if s[0] == '~' || s[0] == '/' {
        assert e[2..] == Escape(s[1..]);
      } else {
        assert e[1..] == Escape(s[1..]);
      }
      assert s == [s[0]] + s[1..];
    }
  }

  /** Distinct tokens escape to distinct strings. */
  lemma EscapeInjective(a: string, b: string)
    requires Escape(a) == Escape(b)
    ensures a == b
  {
    UnescapeEscape(a);
    UnescapeEscape(b);
  }

  /** A token with no "~" and no "/" escapes to itself. */
  lemma {:induction false} EscapeIdentity(s: string)
    requires forall i :: 0 <= i < |s| ==> s[i] != '~' && s[i] != '/'
    ensures Escape(s) == s
    decreases |s|
  {
    if s != [] {
      EscapeCons(s);
      EscapeIdentity(s[1..]);
      assert s == [s[0]] + s[1..];
    }
  }

  lemma {:induction false} PrefixedAppend(parts: seq<string>, last: string)
    ensures Prefixed(parts + [last]) == Prefixed(parts) + "/" + last
  {
    if parts == [] {
      assert [] + [last] == [last];
      assert [last][1..] == [];
    } else {
      assert (parts + [last])[1..] == parts[1..] + [last];
      PrefixedAppend(parts[1..], last);
    }
  }

  /** Extending a path by a token extends its pointer string by "/" and the escaped token. */
  lemma RenderAppend(path: Path, s: string)
    ensures Render(path + [s]) == Render(path) + "/" + Escape(s)
  {
    assert Map(path + [s], Escape) == Map(path, Escape) + [Escape(s)];
    PrefixedAppend(Map(path, Escape), Escape(s));
  }

  lemma RenderCons(path: Path)
    requires path != []
    ensures Render(path) == "/" + Escape(path[0]) + Render(path[1..])
  {
    assert Map(path, Escape)[1..] == Map(path[1..], Escape);
  }

  /** The position of the first "/" in `s` at or after `i`, or `|s|` when there is none. */
  function SlashFrom(s: string, i: nat): nat
    requires i <= |s|
    decreases |s| - i
  {
    if i == |s| then |s| else if s[i] == '/' then i else SlashFrom(s, i + 1)
  }

  lemma {:induction false} SlashFromIs(s: string, i: nat, j: nat)
    requires i <= j <= |s|
    requires forall k :: i <= k < j ==> s[k] != '/'
    requires j == |s| || s[j] == '/'
    ensures SlashFrom(s, i) == j
    decreases j - i
  {
    if i < j {
      SlashFromIs(s, i + 1, j);
    }
  }

  /** In "/" + e + rest, with e free of "/" and rest a pointer string, the
      first "/" after the leading one ends e. */
  lemma SlashAfterToken(e: string, rest: string)
    requires NoSlash(e)
    requires rest == [] || rest[0] == '/'
    ensures SlashFrom("/" + e + rest, 1) == 1 + |e|
  {
    var s := "/" + e + rest;
    assert forall k :: 1 <= k < 1 + |e| ==> s[k] == e[k - 1];
    SlashFromIs(s, 1, 1 + |e|);
  }

  /** Distinct paths render to distinct pointer strings (escaping is injective
      and escaped tokens hold no "/"). */
  lemma {:induction false} RenderInjective(p: Path, q: Path)
    requires Render(p) == Render(q)
    ensures p == q
    decreases |p|
  {
    if p != [] && q != [] {
      RenderCons(p);
      RenderCons(q);
      var ep, eq := Escape(p[0]), Escape(q[0]);
      var rp, rq := Render(p[1..]), Render(q[1..]);
      SlashOrEnd(p[1..]);
      SlashOrEnd(q[1..]);
      // position 1 + |ep| is a "/" (or the end) on the left, so it cannot fall inside `eq` on the right
      // the first "/" after the leading one ends the first escaped token on both sides
      SlashAfterToken(ep, rp);
      SlashAfterToken(eq, rq);
      assert |ep| == |eq|;
      assert ep == Render(p)[1..1 + |ep|] == Render(q)[1..1 + |eq|] == eq;
      assert rp == Render(p)[1 + |ep|..] == Render(q)[1 + |eq|..] == rq;
      EscapeInjective(p[0], q[0]);
      RenderInjective(p[1..], q[1..]);
      assert p == [p[0]] + p[1..] && q == [q[0]] + q[1..];
    } else if p != [] {
      RenderCons(p);
    } else if q != [] {
      RenderCons(q);
    }
  }

  /** A pointer string is empty or starts with "/". */
  lemma SlashOrEnd(path: Path)
    ensures Render(path) == "" || Render(path)[0] == '/'
  {
    if path != [] { RenderCons(path); }
  }

  /** With no "~" or "/" in any token, the unescaped line is the pointer string. */
  lemma {:induction false} RawRenderIsRender(path: Path)
    requires forall k :: 0 <= k < |path| ==> forall i :: 0 <= i < |path[k]| ==> path[k][i] != '~' && path[k][i] != '/'
    ensures RawRender(path) == Render(path)
    decreases |path|
  {
    if path != [] {
      RenderCons(path);
      EscapeIdentity(path[0]);
      RawRenderIsRender(path[1..]);
    }
  }

  lemma {:induction false} JoinCons(parts: seq<string>)
    requires parts != []
    ensures Join(parts) == parts[0] + Prefixed(parts[1..])
    decreases |parts|
  {
    if |parts| > 1 {
      JoinCons(parts[1..]);
      assert parts[1..][1..] == parts[2..];
    }
  }

  /** `ptr_to_str`: escape every element of the pointer list, then join with "/".
      The scripts always pass the list [""] + path, which renders as `Render(path)`. */
  method PtrToStr(ptr: seq<string>) returns (s: string)
    ensures ptr == [] ==> s == ""
    ensures ptr != [] ==> s == Escape(ptr[0]) + Render(ptr[1..])
  {
    var escaped: seq<string> := [];
    for i := 0 to |ptr|
      invariant escaped == Map(ptr[..i], Escape)
    {
      escaped := escaped + [Escape(ptr[i])];
      assert ptr[..i + 1] == ptr[..i] + [ptr[i]];
    }
    assert ptr[..|ptr|] == ptr;
    s := Join(escaped);
    if ptr != [] {
      JoinCons(escaped);
      assert escaped[1..] == Map(ptr[1..], Escape);
    }
  }

  lemma RootPtrToStr(path: Path)
    ensures Escape("") + Render(path) == Render(path)
  {
    assert Escape("") == "";
  }
}
