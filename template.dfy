/**
 * `substituteTemplateLiterals` of `src/utils.ts`: the bot's template engine.
 *
 * Every leaf of the constants tree reachable through plain objects (arrays are
 * skipped) is a placeholder name: its property path joined with `.`.  For each
 * leaf, in depth-first `Object.keys` order, every occurrence of
 * `{{ path }}` and then of `${ path }` in the text is replaced by the leaf's
 * text.  Before the walk, the tree gains an `@ENCODED` branch holding the
 * percent-encoded copy of the tree as it was.
 *
 * The placeholder patterns are the regular expressions `{{\s*?PATH\s*?}}` and
 * `\${\s*?PATH\s*?}` with the path spliced in literally; the matcher below is
 * that regular expression's behaviour for a path without regex
 * metacharacters.
 */
module Template {
  import opened Wrappers
  import opened JsValue
  import opened TreeTransforms

  /** The characters JavaScript's `\s` matches. */
  predicate IsJsSpace(c: char) {
    c == '\t' || c == '\n' || c == '\U{b}' || c == '\U{c}' || c == '\r' || c == ' ' ||
    c == '\U{a0}' || c == '\U{1680}' || ('\U{2000}' <= c <= '\U{200a}') ||
    c == '\U{2028}' || c == '\U{2029}' || c == '\U{202f}' || c == '\U{205f}' || c == '\U{3000}' || c == '\U{feff}'
  }

  predicate AllSpaces(s: string) {
    forall i :: 0 <= i < |s| ==> IsJsSpace(s[i])
  }

  /** `s` continues with `t` at position `i`. */
  predicate OccursAt(s: string, i: nat, t: string) {
    i + |t| <= |s| && s[i..i + |t|] == t
  }

  /** The first position at or after `i` that is not whitespace. */
  function SkipSpaces(s: string, i: nat): (j: nat)
    requires i <= |s|
    ensures i <= j <= |s|
    ensures AllSpaces(s[i..j])
    ensures j == |s| || !IsJsSpace(s[j])
    decreases |s| - i
  {
    if i < |s| && IsJsSpace(s[i]) then
      var j := SkipSpaces(s, i + 1);
      assert s[i..j] == [s[i]] + s[i + 1..j];
      j
    else i
  }

  /**
   * `\s*?` followed by `close`, from position `i`: where the match ends.  The
   * closing delimiter starts with `}`, which is not whitespace, so the lazy
   * quantifier stops exactly where a greedy one would.
   */
  function CloseAfter(s: string, i: nat, close: string): (r: Option<nat>)
    requires i <= |s|
    ensures r.Some? ==> i + |close| <= r.value <= |s|
  {
    var j := SkipSpaces(s, i);
    if OccursAt(s, j, close) then Some(j + |close|) else None
  }

  /**
   * `\s*?PATH\s*?close` from position `j`: the lazy quantifier first tries the
   * path right here and only then gives up one more whitespace character.
   */
  function MatchFrom(s: string, j: nat, close: string, path: string): (r: Option<nat>)
    requires j <= |s|
    ensures r.Some? ==> j <= r.value <= |s|
    decreases |s| - j
  {
    if OccursAt(s, j, path) && CloseAfter(s, j + |path|, close).Some? then CloseAfter(s, j + |path|, close)
    else if j < |s| && IsJsSpace(s[j]) then MatchFrom(s, j + 1, close, path)
    else None
  }

  /** Where a placeholder starting at the very beginning of `s` ends, if one does. */
  function MatchAtStart(s: string, open: string, close: string, path: string): (r: Option<nat>)
    requires |open| > 0
    ensures r.Some? ==> |open| <= r.value <= |s|
  {
    if OccursAt(s, 0, open) then MatchFrom(s, |open|, close, path) else None
  }

  /**
   * `s.replace(/open\s*?PATH\s*?close/g, repl)`: scanning left to right, every
   * match is replaced and the scan resumes after it.
   */
  function ReplaceAll(s: string, open: string, close: string, path: string, repl: string): string
    requires |open| > 0
    decreases |s|
  {
    if |s| == 0 then ""
    else
      match MatchAtStart(s, open, close, path)
      case Some(e) => repl + ReplaceAll(s[e..], open, close, path, repl)
      case None => [s[0]] + ReplaceAll(s[1..], open, close, path, repl)
  }

  /** Both replacements the walk makes for one leaf: `{{ path }}` first, then `${ path }`. */
  function ReplaceLeaf(s: string, path: string, text: string): string {
    ReplaceAll(ReplaceAll(s, "{{", "}}", path, text), "${", "}", path, text)
  }

  /** `segments.join('.')` */
  function Join(segments: seq<string>): string {
    if |segments| == 0 then ""
    else if |segments| == 1 then segments[0]
    else segments[0] + "." + Join(segments[1..])
  }

  /** One placeholder the walk substitutes: its property path and its text. */
  datatype Leaf = Leaf(path: seq<string>, text: string)

  /**
   * The leaves below the object `v`, whose own path is `bc`, in the order the
   * walk visits them.  Arrays are skipped; a `null` would make the walk throw,
   * but the walk only runs once `urlEncodeValues` has ruled nulls out.
   */
  function LeavesOf(bc: seq<string>, v: Value): seq<Leaf>
    decreases v, 1
  {
    if v.Obj? then FieldLeaves(bc, v, |v.fields|) else []
  }

  /** The leaves below the first `n` properties of the object `v`. */
  function FieldLeaves(bc: seq<string>, v: Value, n: nat): seq<Leaf>
    requires v.Obj? && n <= |v.fields|
    decreases v, 0, n
  {
    if n == 0 then []
    else FieldLeaves(bc, v, n - 1) + PropertyLeaves(bc, v.fields[n - 1].0, v.fields[n - 1].1)
  }

  /** The leaves one property contributes. */
  function PropertyLeaves(bc: seq<string>, k: string, c: Value): seq<Leaf>
    decreases c, 2
  {
    if c.Obj? then LeavesOf(bc + [k], c)
    else if IsScalar(c) then [Leaf(bc + [k], ToText(c))]
    else []
  }

  /** Substituting the leaves one after the other. */
  function Apply(leaves: seq<Leaf>, s: string): string {
    if |leaves| == 0 then s else Apply(leaves[1..], ReplaceLeaf(s, Join(leaves[0].path), leaves[0].text))
  }

  /** The tree with its `@ENCODED` branch (re)assigned, or what the assignment throws. */
  function WithEncoded(root: Value): (r: Result<Value, JsError>)
    ensures r.Success? ==> r.value.Obj?
  {
    if !root.Obj? then Failure(TypeError)
    else
      match UrlEncoded(root)
      case Failure(e) => Failure(e)
      case Success(enc) => Success(Obj(Put(root.fields, "@ENCODED", enc)))
  }

  /** What `substituteTemplateLiterals(constants, str)` returns (or throws). */
  function Substitute(root: Value, str: string): Result<string, JsError> {
    match WithEncoded(root)
    case Failure(e) => Failure(e)
    case Success(t) => Success(Apply(LeavesOf([], t), str))
  }

  /**
   * `traverse(breadcrumb, obj, str)`: for every key of `obj`, skip arrays,
   * descend into objects and substitute scalars.
   */
  method Traverse(bc: seq<string>, obj: Value, str: string) returns (r: string)
    requires obj.Obj? && !HasNull(obj)
    ensures r == Apply(LeavesOf(bc, obj), str)
    decreases obj
  {
    r := str;
    var i := 0;
    while i < |obj.fields|
      invariant 0 <= i <= |obj.fields|
      invariant r == Apply(FieldLeaves(bc, obj, i), str)
    {
      var (key, value) := obj.fields[i];
      assert !HasNull(value);
      if value.Arr? {
      } else if value.Obj? {
        r := Traverse(bc + [key], value, r);
      } else {
        var templateVar := Join(bc + [key]);
        r := ReplaceLeaf(r, templateVar, ToText(value));
      }
      ApplyAppend(FieldLeaves(bc, obj, i), PropertyLeaves(bc, key, value), str);
      i := i + 1;
    }
  }

  /** Substituting two runs of leaves is substituting the first, then the second. */
  lemma {:induction false} ApplyAppend(a: seq<Leaf>, b: seq<Leaf>, s: string)
    ensures Apply(a + b, s) == Apply(b, Apply(a, s))
  {
    if |a| > 0 {
      assert (a + b)[1..] == a[1..] + b;
      ApplyAppend(a[1..], b, ReplaceLeaf(s, Join(a[0].path), a[0].text));
    } else {
      assert a + b == b;
    }
  }

  /** The tree the walk runs over holds no null: `urlEncodeValues` has just ruled them out. */
  lemma EncodedTreeNoNull(root: Value)
    requires WithEncoded(root).Success?
    ensures !HasNull(WithEncoded(root).value)
  {
    RebuildFails(root, SameKey, EncodeLeaf);
    RebuildNoNull(root, SameKey, EncodeLeaf);
    var enc := UrlEncoded(root).value;
    PutEntries(root.fields, "@ENCODED", enc);
    var fs := Put(root.fields, "@ENCODED", enc);
    forall j | 0 <= j < |fs| ensures !HasNull(fs[j].1) {
      if fs[j] in root.fields {
        var i :| 0 <= i < |root.fields| && root.fields[i] == fs[j];
      }
    }
  }

  /** The constants object the template engine is handed; it is changed in place. */
  class ConstantsTree {
    var root: Value

    constructor (v: Value)
      ensures root == v
    {
      root := v;
    }

    /** `substituteTemplateLiterals(this, str)` */
    method SubstituteTemplateLiterals(str: string) returns (r: Result<string, JsError>)
      modifies this
      ensures r == Substitute(old(root), str)
      ensures root == (if WithEncoded(old(root)).Success? then WithEncoded(old(root)).value else old(root))
    {
      if !root.Obj? {
        return Failure(TypeError);
      }
      var encoded := UrlEncodeValues(root);
      if encoded.Failure? {
        return Failure(encoded.error);
      }
      EncodedTreeNoNull(root);
      root := Obj(Put(root.fields, "@ENCODED", encoded.value));
      var s := Traverse([], root, str);
      return Success(s);
    }
  }
}
