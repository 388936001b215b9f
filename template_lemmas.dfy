/**
 * What the template engine promises: which placeholders it replaces, which it
 * leaves alone, which leaves it visits, and what it writes into the tree.
 */
module TemplateLemmas {
  import opened Wrappers
  import opened JsValue
  import opened TreeTransforms
  import opened UriEncoding
  import opened Template

  // ---------------------------------------------------------------------------
  // One global replacement.

  /** `t` occurs nowhere in `s`. */
  predicate NoOccurrence(s: string, t: string) {
    forall i :: 0 <= i < |s| ==> !OccursAt(s, i, t)
  }

  /** No placeholder for `path` starts anywhere in `s`. */
  predicate Inert(s: string, open: string, close: string, path: string)
    requires |open| > 0
  {
    forall i :: 0 <= i < |s| ==> MatchAtStart(s[i..], open, close, path).None?
  }

  /** Text without a placeholder for `path` comes back as it was. */
  lemma {:induction false} ReplaceAllInert(s: string, open: string, close: string, path: string, repl: string)
    requires |open| > 0 && Inert(s, open, close, path)
    ensures ReplaceAll(s, open, close, path, repl) == s
    decreases |s|
  {
    if |s| > 0 {
      assert s[0..] == s;
      assert Inert(s[1..], open, close, path) by {
        forall i | 0 <= i < |s[1..]| ensures MatchAtStart(s[1..][i..], open, close, path).None? {
          assert s[1..][i..] == s[i + 1..];
        }
      }
      ReplaceAllInert(s[1..], open, close, path, repl);
      assert [s[0]] + s[1..] == s;
    }
  }

  /** Without the opening delimiter there is no placeholder at all. */
  lemma NoOpenInert(s: string, open: string, close: string, path: string)
    requires |open| > 0 && NoOccurrence(s, open)
    ensures Inert(s, open, close, path)
  {
    forall i | 0 <= i < |s| ensures MatchAtStart(s[i..], open, close, path).None? {
      if OccursAt(s[i..], 0, open) {
        assert s[i..][0..|open|] == s[i..i + |open|];
        assert OccursAt(s, i, open);
      }
    }
  }

  /**
   * A stretch of text at none of whose positions a placeholder starts is
   * copied through unchanged, and the scan goes on right after it.
   */
  lemma {:induction false} MatchFreePrefixKept(a: string, rest: string, open: string, close: string, path: string, repl: string)
    requires |open| > 0
    requires forall i :: 0 <= i < |a| ==> MatchAtStart((a + rest)[i..], open, close, path).None?
    ensures ReplaceAll(a + rest, open, close, path, repl) == a + ReplaceAll(rest, open, close, path, repl)
  {
    if |a| > 0 {
      var s := a + rest;
      assert s[0..] == s;
      assert s[1..] == a[1..] + rest;
      forall i | 0 <= i < |a[1..]| ensures MatchAtStart((a[1..] + rest)[i..], open, close, path).None? {
        assert (a[1..] + rest)[i..] == s[i + 1..];
      }
      MatchFreePrefixKept(a[1..], rest, open, close, path, repl);
      assert [a[0]] + a[1..] == a;
    } else {
      assert a + rest == rest;
    }
  }

  /** Text without the opener's first character cannot start a placeholder, so it is copied through. */
  lemma PrefixKept(a: string, rest: string, open: string, close: string, path: string, repl: string)
    requires |open| > 0
    requires forall i :: 0 <= i < |a| ==> a[i] != open[0]
    ensures ReplaceAll(a + rest, open, close, path, repl) == a + ReplaceAll(rest, open, close, path, repl)
  {
    var s := a + rest;
    forall i | 0 <= i < |a| ensures MatchAtStart(s[i..], open, close, path).None? {
      assert s[i..][0] == a[i];
      if |open| <= |s[i..]| {
        assert s[i..][0..|open|][0] == a[i];
      }
    }
    MatchFreePrefixKept(a, rest, open, close, path, repl);
  }

  /** A run of whitespace followed by a non-whitespace character is skipped exactly. */
  lemma {:induction false} SkipSpacesTo(s: string, i: nat, m: nat)
    requires i <= m <= |s|
    requires forall t :: i <= t < m ==> IsJsSpace(s[t])
    requires m == |s| || !IsJsSpace(s[m])
    ensures SkipSpaces(s, i) == m
    decreases m - i
  {
    if i < m {
      SkipSpacesTo(s, i + 1, m);
    }
  }

  /** The lazy quantifier gives up whitespace characters one by one until the path matches. */
  lemma {:induction false} MatchFromSkips(s: string, j: nat, b: nat, close: string, path: string)
    requires j <= b <= |s|
    requires forall t :: j <= t < b ==> IsJsSpace(s[t]) && !OccursAt(s, t, path)
    ensures MatchFrom(s, j, close, path) == MatchFrom(s, b, close, path)
    decreases b - j
  {
    if j < b {
      MatchFromSkips(s, j + 1, b, close, path);
    }
  }

  /**
   * From `a`: whitespace up to `b`, the path up to `c`, whitespace up to `d`
   * and the closing delimiter: the match ends right after the delimiter.
   */
  lemma MatchAt(s: string, a: nat, b: nat, c: nat, d: nat, close: string, path: string)
    requires a <= b <= c <= d && d + |close| <= |s|
    requires |close| > 0 && !IsJsSpace(close[0]) && s[d..d + |close|] == close
    requires c - b == |path| && s[b..c] == path
    requires |path| > 0 ==> !IsJsSpace(path[0])
    requires forall t :: a <= t < b ==> IsJsSpace(s[t])
    requires forall t :: c <= t < d ==> IsJsSpace(s[t])
    ensures MatchFrom(s, a, close, path) == Some(d + |close|)
  {
    var e := d + |close|;
    assert OccursAt(s, d, close);
    assert s[d] == close[0];
    if |path| == 0 {
      SkipSpacesTo(s, a, d);
      assert OccursAt(s, a, path);
    } else {
      SkipSpacesTo(s, c, d);
      assert CloseAfter(s, c, close) == Some(e);
      forall t | a <= t < b ensures IsJsSpace(s[t]) && !OccursAt(s, t, path) {
        if t + |path| <= |s| {
          assert s[t..t + |path|][0] == s[t];
        }
      }
      MatchFromSkips(s, a, b, close, path);
      assert OccursAt(s, b, path);
    }
  }

  /**
   * A placeholder for `path`, with any whitespace inside its delimiters, is
   * replaced by the text, and the scan resumes right after it.
   */
  lemma ReplacePlaceholder(sp1: string, path: string, sp2: string, rest: string,
                           open: string, close: string, repl: string)
    requires |open| > 0 && |close| > 0 && !IsJsSpace(close[0])
    requires AllSpaces(sp1) && AllSpaces(sp2)
    requires |path| > 0 ==> !IsJsSpace(path[0])
    ensures ReplaceAll(open + sp1 + path + sp2 + close + rest, open, close, path, repl)
         == repl + ReplaceAll(rest, open, close, path, repl)
  {
    var s := open + sp1 + path + sp2 + close + rest;
    var a := |open|;
    var b := a + |sp1|;
    var c := b + |path|;
    var d := c + |sp2|;
    var e := d + |close|;
    assert s[..a] == open;
    assert s[b..c] == path;
    assert s[d..e] == close;
    assert s[e..] == rest;
    forall t | a <= t < b ensures IsJsSpace(s[t]) {
      assert s[t] == sp1[t - a];
    }
    forall t | c <= t < d ensures IsJsSpace(s[t]) {
      assert s[t] == sp2[t - c];
    }
    MatchAt(s, a, b, c, d, close, path);
    assert OccursAt(s, 0, open);
    assert MatchAtStart(s, open, close, path) == Some(e);
  }

  /**
   * In one pass, a placeholder that follows text in which no placeholder
   * starts is replaced: wherever it stands, not only at the start.
   */
  lemma PlaceholderAfterMatchFree(a: string, sp1: string, path: string, sp2: string, rest: string,
                                  open: string, close: string, repl: string)
    requires |open| > 0 && |close| > 0 && !IsJsSpace(close[0])
    requires AllSpaces(sp1) && AllSpaces(sp2)
    requires |path| > 0 ==> !IsJsSpace(path[0])
    requires forall i :: 0 <= i < |a| ==>
      MatchAtStart((a + open + sp1 + path + sp2 + close + rest)[i..], open, close, path).None?
    ensures ReplaceAll(a + open + sp1 + path + sp2 + close + rest, open, close, path, repl)
         == a + repl + ReplaceAll(rest, open, close, path, repl)
  {
    var p := open + sp1 + path + sp2 + close + rest;
    assert a + open + sp1 + path + sp2 + close + rest == a + p;
    MatchFreePrefixKept(a, p, open, close, path, repl);
    ReplacePlaceholder(sp1, path, sp2, rest, open, close, repl);
  }

  /**
   * Names `q` whose placeholder `{{q}}` is no placeholder for `path`: `q`
   * differs from `path` and holds no brace or `$`, and either does not start
   * with `path` or holds no whitespace at all.
   */
  predicate OtherName(q: string, path: string) {
    && |q| > 0 && !IsJsSpace(q[0]) && q != path
    && (forall i :: 0 <= i < |q| ==> q[i] != '{' && q[i] != '$')
    && (forall i :: 0 <= i < |path| ==> path[i] != '}')
    && (!OccursAt(q, 0, path) || forall i :: 0 <= i < |q| ==> !IsJsSpace(q[i]) && q[i] != '}')
  }

  /**
   * No placeholder for `path` starts inside `{{q}}`, whatever follows it.  A
   * name that extends `path` (`{{ab}}` against `a`) fails at the character
   * after the path, which is neither whitespace nor `}`.
   */
  lemma OtherNameNoMatch(q: string, rest: string, path: string)
    requires OtherName(q, path)
    ensures forall i :: 0 <= i < |q| + 4 ==> MatchAtStart(("{{" + q + "}}" + rest)[i..], "{{", "}}", path).None?
  {
    var s := "{{" + q + "}}" + rest;
    var n := |q|;
    assert s[2..2 + n] == q;
    assert s[2 + n] == '}';
    forall i | 0 <= i < n + 4 ensures MatchAtStart(s[i..], "{{", "}}", path).None? {
      if i == 0 {
        assert s[0..] == s;
        assert s[2] == q[0];
        if OccursAt(q, 0, path) {
          var m := 2 + |path|;
          assert q[0..n] == q;
          assert |path| < n;
          assert s[m] == q[|path|];
          assert SkipSpaces(s, m) == m;
          assert CloseAfter(s, m, "}}") == None;
        } else {
          if |path| <= n {
            assert s[2..2 + |path|] == q[0..|path|];
          } else if 2 + |path| <= |s| {
            assert s[2..2 + |path|][n] == s[2 + n];
          }
          assert !OccursAt(s, 2, path);
        }
        assert MatchFrom(s, 2, "}}", path) == None;
      } else if i + 2 <= |s| {
        assert s[i..][0..2] == [s[i], s[i + 1]];
        if 2 <= i < 2 + n {
          assert s[i] == q[i - 2];
        }
        if i + 1 < 2 + n {
          assert s[i + 1] == q[i - 1];
        }
      }
    }
  }

  /** `{{q}}` holds no `$`, so no `${` placeholder starts in it. */
  lemma OtherNameNoDollar(q: string, path: string)
    requires OtherName(q, path)
    ensures forall i :: 0 <= i < |"{{" + q + "}}"| ==> ("{{" + q + "}}")[i] != "${"[0]
  {
    forall i | 0 <= i < |"{{" + q + "}}"| ensures ("{{" + q + "}}")[i] != "${"[0] {
      if 2 <= i < 2 + |q| {
        assert ("{{" + q + "}}")[i] == q[i - 2];
      }
    }
  }

  /**
   * A placeholder `{{q}}` for another name is no match for `path` in either
   * form, whatever follows it: one pass copies it through and goes on after
   * it.  This covers sibling names where one extends the other: `{{ab}}`
   * survives the pass for `a`, to be resolved by the leaf `ab` itself.
   */
  lemma UnresolvedPlaceholderKept(q: string, rest: string, path: string, repl: string)
    requires OtherName(q, path)
    ensures ReplaceAll("{{" + q + "}}" + rest, "{{", "}}", path, repl)
         == "{{" + q + "}}" + ReplaceAll(rest, "{{", "}}", path, repl)
    ensures ReplaceAll("{{" + q + "}}" + rest, "${", "}", path, repl)
         == "{{" + q + "}}" + ReplaceAll(rest, "${", "}", path, repl)
  {
    var seg := "{{" + q + "}}";
    OtherNameNoMatch(q, rest, path);
    MatchFreePrefixKept(seg, rest, "{{", "}}", path, repl);
    OtherNameNoDollar(q, path);
    PrefixKept(seg, rest, "${", "}", path, repl);
  }

  // ---------------------------------------------------------------------------
  // Many leaves.

  /** Neither form of the placeholder for `path` starts anywhere in `s`. */
  predicate PathInert(s: string, path: string) {
    Inert(s, "{{", "}}", path) && Inert(s, "${", "}", path)
  }

  /** Neither form of the placeholder for the leaf `l` starts anywhere in `s`. */
  predicate LeafInert(s: string, l: Leaf) {
    PathInert(s, Join(l.path))
  }

  /** Placeholders whose path is not a leaf of the tree are left verbatim. */
  lemma {:induction false} ApplyInert(leaves: seq<Leaf>, s: string)
    requires forall j :: 0 <= j < |leaves| ==> LeafInert(s, leaves[j])
    ensures Apply(leaves, s) == s
  {
    if |leaves| > 0 {
      var p := Join(leaves[0].path);
      var t := leaves[0].text;
      ReplaceAllInert(s, "{{", "}}", p, t);
      ReplaceAllInert(s, "${", "}", p, t);
      assert ReplaceLeaf(s, p, t) == s;
      assert forall j :: 0 <= j < |leaves[1..]| ==> leaves[1..][j] == leaves[j + 1];
      ApplyInert(leaves[1..], s);
    }
  }

  /** Substitution fails exactly when the tree is not an object or holds a null somewhere. */
  lemma SubstituteFails(root: Value, str: string)
    ensures Substitute(root, str).Failure? <==> !root.Obj? || HasNull(root)
  {
    if root.Obj? {
      RebuildFails(root, SameKey, EncodeLeaf);
    }
  }

  /** A text with no placeholder for any leaf comes back unchanged. */
  lemma SubstituteVerbatim(root: Value, str: string)
    requires WithEncoded(root).Success?
    requires forall l :: l in LeavesOf([], WithEncoded(root).value) ==> LeafInert(str, l)
    ensures Substitute(root, str) == Success(str)
  {
    ApplyInert(LeavesOf([], WithEncoded(root).value), str);
  }

  /** A text with neither `{{` nor `${` in it comes back unchanged. */
  lemma SubstituteWithoutOpeners(root: Value, str: string)
    requires NoOccurrence(str, "{{") && NoOccurrence(str, "${")
    ensures Substitute(root, str).Success? <==> root.Obj? && !HasNull(root)
    ensures Substitute(root, str).Success? ==> Substitute(root, str).value == str
  {
    SubstituteFails(root, str);
    if WithEncoded(root).Success? {
      forall l | l in LeavesOf([], WithEncoded(root).value) ensures LeafInert(str, l) {
        NoOpenInert(str, "{{", "}}", Join(l.path));
        NoOpenInert(str, "${", "}", Join(l.path));
      }
      SubstituteVerbatim(root, str);
    }
  }

  // ---------------------------------------------------------------------------
  // Which leaves the walk visits.

  /** The index of the first property named `k`. */
  function FindKey(fields: seq<Entry>, k: string): (r: Option<nat>)
    ensures r.Some? ==> r.value < |fields| && fields[r.value].0 == k
    ensures r.Some? ==> forall j :: 0 <= j < r.value ==> fields[j].0 != k
    ensures r.None? ==> !HasKey(fields, k)
  {
    if |fields| == 0 then None
    else if fields[0].0 == k then Some(0)
    else
      match FindKey(fields[1..], k)
      case None =>
        assert !HasKey(fields, k) by {
          forall i | 0 <= i < |fields| ensures fields[i].0 != k {
            if i > 0 {
              assert fields[1..][i - 1] == fields[i];
            }
          }
        }
        None
      case Some(i) => Some(i + 1)
  }

  /** In an object with distinct keys, a key is found where it is. */
  lemma FindDistinctKey(fields: seq<Entry>, i: nat)
    requires DistinctKeys(fields) && i < |fields|
    ensures FindKey(fields, fields[i].0) == Some(i)
  {
  }

  /**
   * The value at a property path, reached through plain objects only: an
   * array, a scalar or a missing key on the way leaves the path unresolved.
   */
  function Resolve(v: Value, p: seq<string>): Option<Value>
    decreases |p|
  {
    if |p| == 0 then Some(v)
    else if v.Obj? then
      match FindKey(v.fields, p[0])
      case None => None
      case Some(i) => Resolve(v.fields[i].1, p[1..])
    else None
  }

  lemma {:induction false} FieldLeavesMember(bc: seq<string>, v: Value, n: nat, l: Leaf) returns (i: nat)
    requires v.Obj? && n <= |v.fields| && l in FieldLeaves(bc, v, n)
    ensures i < n && l in PropertyLeaves(bc, v.fields[i].0, v.fields[i].1)
  {
    if l in FieldLeaves(bc, v, n - 1) {
      i := FieldLeavesMember(bc, v, n - 1, l);
    } else {
      i := n - 1;
    }
  }

  lemma {:induction false} FieldLeavesContains(bc: seq<string>, v: Value, n: nat, i: nat)
    requires v.Obj? && i < n <= |v.fields|
    ensures forall l :: l in PropertyLeaves(bc, v.fields[i].0, v.fields[i].1) ==> l in FieldLeaves(bc, v, n)
  {
    if i < n - 1 {
      FieldLeavesContains(bc, v, n - 1, i);
    }
  }

  /**
   * Every leaf the walk visits below `v` is a scalar reached from `v` through
   * plain objects, and its text is that scalar's text.
   */
  lemma {:induction false} LeavesResolve(bc: seq<string>, v: Value, l: Leaf)
    requires WellFormed(v) && l in LeavesOf(bc, v)
    ensures |l.path| > |bc| && l.path[..|bc|] == bc
    ensures Resolve(v, l.path[|bc|..]).Some?
    ensures IsScalar(Resolve(v, l.path[|bc|..]).value)
    ensures l.text == ToText(Resolve(v, l.path[|bc|..]).value)
    decreases v
  {
    var i := FieldLeavesMember(bc, v, |v.fields|, l);
    var k := v.fields[i].0;
    var c := v.fields[i].1;
    FindDistinctKey(v.fields, i);
    if c.Obj? {
      LeavesResolve(bc + [k], c, l);
      var p := l.path[|bc|..];
      assert l.path[..|bc| + 1] == bc + [k];
      assert l.path[..|bc|] == l.path[..|bc| + 1][..|bc|];
      assert p[0] == k;
      assert p[1..] == l.path[|bc| + 1..];
    } else {
      assert l == Leaf(bc + [k], ToText(c));
      assert l.path[|bc|..] == [k];
    }
  }

  /** Every scalar reached through plain objects is a leaf the walk visits. */
  lemma {:induction false} ResolvedLeafVisited(bc: seq<string>, v: Value, p: seq<string>, x: Value)
    requires |p| > 0 && Resolve(v, p) == Some(x) && IsScalar(x)
    ensures Leaf(bc + p, ToText(x)) in LeavesOf(bc, v)
    decreases |p|
  {
    var i := FindKey(v.fields, p[0]).value;
    var k := v.fields[i].0;
    var c := v.fields[i].1;
    if |p| == 1 {
      assert bc + p == bc + [k];
    } else {
      ResolvedLeafVisited(bc + [k], c, p[1..], x);
      assert bc + [k] + p[1..] == bc + p;
    }
    FieldLeavesContains(bc, v, |v.fields|, i);
  }

  /**
   * The placeholders the walk substitutes are exactly the scalar leaves
   * reached through plain objects: nothing under an array ever is.
   */
  lemma LeavesAreResolvedScalars(v: Value, p: seq<string>, text: string)
    requires WellFormed(v)
    ensures Leaf(p, text) in LeavesOf([], v) <==>
      |p| > 0 && Resolve(v, p).Some? && IsScalar(Resolve(v, p).value) && text == ToText(Resolve(v, p).value)
  {
    if Leaf(p, text) in LeavesOf([], v) {
      LeavesResolve([], v, Leaf(p, text));
      assert p[0..] == p;
    }
    if |p| > 0 && Resolve(v, p).Some? && IsScalar(Resolve(v, p).value) && text == ToText(Resolve(v, p).value) {
      ResolvedLeafVisited([], v, p, Resolve(v, p).value);
      assert [] + p == p;
    }
  }

  // ---------------------------------------------------------------------------
  // The `@ENCODED` branch.

  /**
   * After the assignment, `@ENCODED` holds the percent-encoded mirror of the
   * tree as it was, and every other key keeps its value and place.
   */
  lemma EncodedBranch(root: Value)
    requires root.Obj? && WellFormed(root) && !HasNull(root)
    ensures WithEncoded(root).Success?
    ensures var t := WithEncoded(root).value;
      Lookup(t.fields, "@ENCODED") == Some(UrlEncoded(root).value) &&
      Mirrors(root, UrlEncoded(root).value) &&
      (forall k :: k != "@ENCODED" ==> Lookup(t.fields, k) == Lookup(root.fields, k))
  {
    UrlEncodeValuesMirrors(root);
  }

  /** A first call appends `@ENCODED`; a later call overwrites it in place. */
  lemma EncodedBranchPlace(root: Value)
    requires WithEncoded(root).Success?
    ensures var t := WithEncoded(root).value;
      (HasKey(root.fields, "@ENCODED") ==> Keys(t.fields) == Keys(root.fields)) &&
      (!HasKey(root.fields, "@ENCODED") ==> t.fields == root.fields + [("@ENCODED", UrlEncoded(root).value)])
  {
    if HasKey(root.fields, "@ENCODED") {
      PutExistingKeepsOrder(root.fields, "@ENCODED", UrlEncoded(root).value);
    } else {
      PutNewAppends(root.fields, "@ENCODED", UrlEncoded(root).value);
    }
  }
}
