/**
 * The two tree transformers of `src/utils.ts`: `urlEncodeValues` (which builds
 * the `@ENCODED` branch) and `keysToUpperCase` (which `constantsFromObject`
 * applies to structured command-option values).
 *
 * Both walk `Object.keys(obj)` in order and fill a fresh object: a property
 * whose value is `typeof 'object'` is rebuilt recursively, any other value is
 * mapped directly.  They differ only in what they do to keys and to leaves, so
 * the walk is defined once, as `Rebuild`.  Arrays are `typeof 'object'`, so
 * they are walked too and come out as objects keyed by index; `null` is
 * `typeof 'object'` as well, and `Object.keys(null)` throws.
 */
module TreeTransforms {
  import opened Wrappers
  import opened JsValue
  import opened UriEncoding

  /** The rebuilt form of one property value. */
  function RebuildProperty(v: Value, key: string -> string, leaf: Value -> Value): Result<Value, JsError>
    decreases v, 2
  {
    if IsObjectTyped(v) then Rebuild(v, key, leaf) else Success(leaf(v))
  }

  /** `const newObj = {}; for (const k of Object.keys(obj)) newObj[key(k)] = ...; return newObj` */
  function Rebuild(v: Value, key: string -> string, leaf: Value -> Value): Result<Value, JsError>
    requires IsObjectTyped(v)
    decreases v, 1
  {
    if v.Null? then Failure(TypeError)
    else
      match RebuildEntries(v, Count(v), key, leaf)
      case Failure(e) => Failure(e)
      case Success(es) => Success(Obj(FromEntries(es)))
  }

  /** The assignments the loop makes for the first `n` keys, in order. */
  function RebuildEntries(v: Value, n: nat, key: string -> string, leaf: Value -> Value): Result<seq<Entry>, JsError>
    requires v.Obj? || v.Arr?
    requires n <= Count(v)
    decreases v, 0, n
  {
    if n == 0 then Success([])
    else
      match RebuildEntries(v, n - 1, key, leaf)
      case Failure(e) => Failure(e)
      case Success(prefix) =>
        var child := if v.Obj? then RebuildProperty(v.fields[n - 1].1, key, leaf)
                     else RebuildProperty(v.items[n - 1], key, leaf);
        match child
        case Failure(e) => Failure(e)
        case Success(c) => Success(prefix + [(key(KeyAt(v, n - 1)), c)])
  }

  function SameKey(k: string): string { k }

  function SameLeaf(v: Value): Value { v }

  /** `encodeURIComponent(value)` for a leaf. */
  function EncodeLeaf(v: Value): Value {
    if IsScalar(v) then Str(EncodeURIComponent(ToText(v))) else v
  }

  /** What `urlEncodeValues(obj)` returns: same keys, every leaf percent-encoded. */
  function UrlEncoded(v: Value): Result<Value, JsError>
    requires IsObjectTyped(v)
  {
    Rebuild(v, SameKey, EncodeLeaf)
  }

  /** ASCII `toUpperCase` of one character. */
  function UpperChar(c: char): char {
    if 'a' <= c <= 'z' then (c as int - 32) as char else c
  }

  function ToUpperCase(s: string): string {
    seq(|s|, i requires 0 <= i < |s| => UpperChar(s[i]))
  }

  /** What `keysToUpperCase(obj)` returns: every key upper-cased, at every depth; leaves untouched. */
  function UpperCased(v: Value): Result<Value, JsError>
    requires IsObjectTyped(v)
  {
    Rebuild(v, ToUpperCase, SameLeaf)
  }

  // ---------------------------------------------------------------------------
  // The loops themselves.

  /**
   * `const newObj = {}; for (const k of Object.keys(obj)) { ... } return newObj`:
   * the walk both transformers share, computing `Rebuild`.
   */
  method RebuildObject(v: Value, key: string -> string, leaf: Value -> Value) returns (r: Result<Value, JsError>)
    requires IsObjectTyped(v)
    ensures r == Rebuild(v, key, leaf)
    decreases v
  {
    if v.Null? {
      return Failure(TypeError);
    }
    var newObj: seq<Entry> := [];
    ghost var built: seq<Entry> := [];
    var i := 0;
    while i < Count(v)
      invariant 0 <= i <= Count(v)
      invariant RebuildEntries(v, i, key, leaf) == Success(built)
      invariant newObj == FromEntries(built)
    {
      var value := if v.Obj? then v.fields[i].1 else v.items[i];
      var c: Result<Value, JsError>;
      if IsObjectTyped(value) {
        c := RebuildObject(value, key, leaf);
      } else {
        c := Success(leaf(value));
      }
      assert c == RebuildProperty(ChildAt(v, i), key, leaf);
      RebuildEntriesNext(v, i, key, leaf, c);
      if c.Failure? {
        FailureSticks(v, i + 1, Count(v), key, leaf);
        return Failure(c.error);
      }
      newObj := Put(newObj, key(KeyAt(v, i)), c.value);
      built := built + [(key(KeyAt(v, i)), c.value)];
      i := i + 1;
    }
    return Success(Obj(newObj));
  }

  /** One more key: the loop throws what the child throws, or makes one more assignment. */
  lemma RebuildEntriesNext(v: Value, i: nat, key: string -> string, leaf: Value -> Value, c: Result<Value, JsError>)
    requires (v.Obj? || v.Arr?) && i < Count(v)
    requires RebuildEntries(v, i, key, leaf).Success?
    requires c == RebuildProperty(ChildAt(v, i), key, leaf)
    ensures c.Failure? ==> RebuildEntries(v, i + 1, key, leaf) == Failure(c.error)
    ensures c.Success? ==>
      RebuildEntries(v, i + 1, key, leaf) == Success(RebuildEntries(v, i, key, leaf).value + [(key(KeyAt(v, i)), c.value)])
    ensures c.Success? ==>
      FromEntries(RebuildEntries(v, i, key, leaf).value + [(key(KeyAt(v, i)), c.value)]) ==
      Put(FromEntries(RebuildEntries(v, i, key, leaf).value), key(KeyAt(v, i)), c.value)
  {
    if c.Success? {
      var prefix := RebuildEntries(v, i, key, leaf).value;
      var es := prefix + [(key(KeyAt(v, i)), c.value)];
      assert es[..|es| - 1] == prefix;
    }
  }

  /** Once the loop has thrown, the whole call has thrown. */
  lemma {:induction false} FailureSticks(v: Value, m: nat, n: nat, key: string -> string, leaf: Value -> Value)
    requires v.Obj? || v.Arr?
    requires m <= n <= Count(v)
    requires RebuildEntries(v, m, key, leaf).Failure?
    ensures RebuildEntries(v, n, key, leaf) == Failure(RebuildEntries(v, m, key, leaf).error)
  {
    if n > m {
      FailureSticks(v, m, n - 1, key, leaf);
    }
  }

  /** `urlEncodeValues(obj)` */
  method UrlEncodeValues(v: Value) returns (r: Result<Value, JsError>)
    requires IsObjectTyped(v)
    ensures r == UrlEncoded(v)
  {
    r := RebuildObject(v, SameKey, EncodeLeaf);
  }

  /** `keysToUpperCase(obj)` */
  method KeysToUpperCase(v: Value) returns (r: Result<Value, JsError>)
    requires IsObjectTyped(v)
    ensures r == UpperCased(v)
  {
    r := RebuildObject(v, ToUpperCase, SameLeaf);
  }

  // ---------------------------------------------------------------------------
  // The walk fails exactly when it meets a null.

  lemma {:induction false} RebuildPropertyFails(v: Value, key: string -> string, leaf: Value -> Value)
    ensures RebuildProperty(v, key, leaf).Failure? <==> HasNull(v)
    decreases v, 2
  {
    if IsObjectTyped(v) {
      RebuildFails(v, key, leaf);
    }
  }

  /** `urlEncodeValues` and `keysToUpperCase` throw exactly when the tree holds a null, arrays included. */
  lemma {:induction false} RebuildFails(v: Value, key: string -> string, leaf: Value -> Value)
    requires IsObjectTyped(v)
    ensures Rebuild(v, key, leaf).Failure? <==> HasNull(v)
    decreases v, 1
  {
    if !v.Null? {
      RebuildEntriesFail(v, Count(v), key, leaf);
      if v.Obj? {
        assert HasNull(v) <==> exists i :: 0 <= i < Count(v) && HasNull(ChildAt(v, i)) by {
          if HasNull(v) {
            var i :| 0 <= i < |v.fields| && HasNull(v.fields[i].1);
            assert HasNull(ChildAt(v, i));
          }
        }
      } else {
        assert HasNull(v) <==> exists i :: 0 <= i < Count(v) && HasNull(ChildAt(v, i)) by {
          if HasNull(v) {
            var i :| 0 <= i < |v.items| && HasNull(v.items[i]);
            assert HasNull(ChildAt(v, i));
          }
        }
      }
    }
  }

  lemma {:induction false} RebuildEntriesFail(v: Value, n: nat, key: string -> string, leaf: Value -> Value)
    requires v.Obj? || v.Arr?
    requires n <= Count(v)
    ensures RebuildEntries(v, n, key, leaf).Failure? <==> exists i :: 0 <= i < n && HasNull(ChildAt(v, i))
    decreases v, 0, n
  {
    if n > 0 {
      RebuildEntriesFail(v, n - 1, key, leaf);
      if v.Obj? {
        RebuildPropertyFails(v.fields[n - 1].1, key, leaf);
      } else {
        RebuildPropertyFails(v.items[n - 1], key, leaf);
      }
      assert ChildAt(v, n - 1) == (if v.Obj? then v.fields[n - 1].1 else v.items[n - 1]);
    }
  }

  /** Without nulls, the loop makes one assignment per key, in key order. */
  lemma {:induction false} RebuildEntriesValue(v: Value, n: nat, key: string -> string, leaf: Value -> Value)
    requires v.Obj? || v.Arr?
    requires n <= Count(v)
    requires forall i :: 0 <= i < n ==> !HasNull(ChildAt(v, i))
    ensures RebuildEntries(v, n, key, leaf).Success?
    ensures var es := RebuildEntries(v, n, key, leaf).value;
      |es| == n &&
      forall i :: 0 <= i < n ==>
        RebuildProperty(ChildAt(v, i), key, leaf).Success? &&
        es[i] == (key(KeyAt(v, i)), RebuildProperty(ChildAt(v, i), key, leaf).value)
  {
    if n > 0 {
      RebuildEntriesValue(v, n - 1, key, leaf);
      forall i | 0 <= i < n ensures RebuildProperty(ChildAt(v, i), key, leaf).Success? {
        RebuildPropertyFails(ChildAt(v, i), key, leaf);
      }
      assert ChildAt(v, n - 1) == (if v.Obj? then v.fields[n - 1].1 else v.items[n - 1]);
    }
  }

  lemma NoNullChildren(v: Value)
    requires v.Obj? || v.Arr?
    requires !HasNull(v)
    ensures forall i :: 0 <= i < Count(v) ==> !HasNull(ChildAt(v, i))
  {
    forall i | 0 <= i < Count(v) ensures !HasNull(ChildAt(v, i)) {
      if v.Obj? {
        assert ChildAt(v, i) == v.fields[i].1;
      } else {
        assert ChildAt(v, i) == v.items[i];
      }
    }
  }

  /** The leaf mapping turns scalars into scalars, never into an object, an array or null. */
  ghost predicate LeafKeepsScalars(leaf: Value -> Value) {
    forall x :: IsScalar(x) ==> IsScalar(leaf(x))
  }

  /** A rebuilt tree holds no null: every value in it is a rebuilt object or a mapped scalar. */
  lemma {:induction false} RebuildNoNull(v: Value, key: string -> string, leaf: Value -> Value)
    requires IsObjectTyped(v) && !HasNull(v) && LeafKeepsScalars(leaf)
    ensures Rebuild(v, key, leaf).Success?
    ensures !HasNull(Rebuild(v, key, leaf).value)
    decreases v, 1
  {
    RebuildFails(v, key, leaf);
    NoNullChildren(v);
    RebuildEntriesValue(v, Count(v), key, leaf);
    var es := RebuildEntries(v, Count(v), key, leaf).value;
    forall i | 0 <= i < |es| ensures !HasNull(es[i].1) {
      if v.Obj? {
        PropertyNoNull(v.fields[i].1, key, leaf);
      } else {
        PropertyNoNull(v.items[i], key, leaf);
      }
    }
    FromEntriesEntries(es);
    var r := FromEntries(es);
    forall j | 0 <= j < |r| ensures !HasNull(r[j].1) {
      var i :| 0 <= i < |es| && es[i] == r[j];
    }
  }

  lemma {:induction false} PropertyNoNull(c: Value, key: string -> string, leaf: Value -> Value)
    requires !HasNull(c) && LeafKeepsScalars(leaf)
    ensures RebuildProperty(c, key, leaf).Success?
    ensures !HasNull(RebuildProperty(c, key, leaf).value)
    decreases c, 2
  {
    if IsObjectTyped(c) {
      RebuildNoNull(c, key, leaf);
    }
  }

  // ---------------------------------------------------------------------------
  // urlEncodeValues

  /**
   * `e` mirrors `v` under percent-encoding: the same keys in the same order at
   * every level (an array's indices for an array), and every leaf replaced by
   * its `encodeURIComponent` text.
   */
  ghost predicate Mirrors(v: Value, e: Value) {
    match v
    case Null => false
    case Obj(fs) =>
      e.Obj? && |e.fields| == |fs| &&
      forall i :: 0 <= i < |fs| ==> e.fields[i].0 == fs[i].0 && Mirrors(fs[i].1, e.fields[i].1)
    case Arr(items) =>
      e.Obj? && |e.fields| == |items| &&
      forall i :: 0 <= i < |items| ==> e.fields[i].0 == NatToDecimal(i) && Mirrors(items[i], e.fields[i].1)
    case _ => e == Str(EncodeURIComponent(ToText(v)))
  }

  /** The `@ENCODED` branch keeps exactly the key set and order of the tree at every level and encodes every leaf. */
  lemma {:induction false} UrlEncodeValuesMirrors(v: Value)
    requires IsObjectTyped(v) && WellFormed(v) && !HasNull(v)
    ensures UrlEncoded(v).Success?
    ensures Mirrors(v, UrlEncoded(v).value)
    decreases v, 1
  {
    EncodedEntriesMirror(v);
  }

  lemma {:induction false} EncodedPropertyMirrors(c: Value)
    requires WellFormed(c) && !HasNull(c)
    ensures RebuildProperty(c, SameKey, EncodeLeaf).Success?
    ensures Mirrors(c, RebuildProperty(c, SameKey, EncodeLeaf).value)
    decreases c, 2
  {
    if IsObjectTyped(c) {
      UrlEncodeValuesMirrors(c);
    }
  }

  lemma {:induction false} EncodedEntriesMirror(v: Value)
    requires (v.Obj? || v.Arr?) && WellFormed(v) && !HasNull(v)
    ensures UrlEncoded(v).Success?
    ensures Mirrors(v, UrlEncoded(v).value)
    decreases v, 0
  {
    NoNullChildren(v);
    RebuildEntriesValue(v, Count(v), SameKey, EncodeLeaf);
    var es := RebuildEntries(v, Count(v), SameKey, EncodeLeaf).value;
    forall i | 0 <= i < |es| ensures es[i].0 == KeyAt(v, i) && Mirrors(ChildAt(v, i), es[i].1) {
      if v.Obj? {
        EncodedPropertyMirrors(v.fields[i].1);
      } else {
        EncodedPropertyMirrors(v.items[i]);
      }
    }
    assert DistinctKeys(es) by {
      forall i, j | 0 <= i < j < |es| ensures es[i].0 != es[j].0 {
        if v.Arr? {
          NatToDecimalInjective(i, j);
        }
      }
    }
    FromDistinctEntries(es);
  }

  /** A tree of objects whose leaves are all strings of unreserved characters. */
  ghost predicate UrlSafe(v: Value) {
    match v
    case Str(s) => forall i :: 0 <= i < |s| ==> IsUnreserved(s[i])
    case Obj(fs) => DistinctKeys(fs) && forall i :: 0 <= i < |fs| ==> UrlSafe(fs[i].1)
    case _ => false
  }

  lemma {:induction false} UrlSafeWellFormed(v: Value)
    requires UrlSafe(v)
    ensures WellFormed(v) && !HasNull(v)
  {
    if v.Obj? {
      forall i | 0 <= i < |v.fields| ensures WellFormed(v.fields[i].1) && !HasNull(v.fields[i].1) {
        UrlSafeWellFormed(v.fields[i].1);
      }
    }
  }

  lemma {:induction false} MirrorsUrlSafe(v: Value, e: Value)
    requires UrlSafe(v) && Mirrors(v, e)
    ensures e == v
  {
    if v.Obj? {
      forall i | 0 <= i < |v.fields| ensures e.fields[i] == v.fields[i] {
        MirrorsUrlSafe(v.fields[i].1, e.fields[i].1);
      }
    } else {
      EncodeKeepsExactlyUnreserved(v.s);
    }
  }

  /** A tree that is already URL-safe is its own percent-encoded copy. */
  lemma UrlEncodedIdentity(v: Value)
    requires v.Obj? && UrlSafe(v)
    ensures UrlEncoded(v) == Success(v)
  {
    UrlSafeWellFormed(v);
    UrlEncodeValuesMirrors(v);
    MirrorsUrlSafe(v, UrlEncoded(v).value);
  }

  // ---------------------------------------------------------------------------
  // keysToUpperCase

  predicate IsUpperCase(k: string) {
    ToUpperCase(k) == k
  }

  /** Every key at every depth is upper-case. */
  ghost predicate KeysUpper(v: Value) {
    match v
    case Obj(fs) => forall i :: 0 <= i < |fs| ==> IsUpperCase(fs[i].0) && KeysUpper(fs[i].1)
    case Arr(items) => forall i :: 0 <= i < |items| ==> KeysUpper(items[i])
    case _ => true
  }

  lemma ToUpperCaseIdempotent(s: string)
    ensures IsUpperCase(ToUpperCase(s))
  {
  }

  lemma {:induction false} PutEntries(fields: seq<Entry>, k: string, x: Value)
    ensures forall j :: 0 <= j < |Put(fields, k, x)| ==> Put(fields, k, x)[j] in fields || Put(fields, k, x)[j] == (k, x)
  {
    if |fields| > 0 && fields[0].0 != k {
      PutEntries(fields[1..], k, x);
      var r := Put(fields, k, x);
      forall j | 0 <= j < |r| ensures r[j] in fields || r[j] == (k, x) {
        if j > 0 {
          assert r[j] == Put(fields[1..], k, x)[j - 1];
        }
      }
    }
  }

  /** Every entry of a built object is one of the assignments made. */
  lemma {:induction false} FromEntriesEntries(es: seq<Entry>)
    ensures forall j :: 0 <= j < |FromEntries(es)| ==> FromEntries(es)[j] in es
  {
    if |es| > 0 {
      var init := es[..|es| - 1];
      FromEntriesEntries(init);
      PutEntries(FromEntries(init), es[|es| - 1].0, es[|es| - 1].1);
    }
  }

  /** `keysToUpperCase` leaves no lower-case key at any depth. */
  lemma {:induction false} KeysToUpperCaseAllUpper(v: Value)
    requires IsObjectTyped(v) && !HasNull(v)
    ensures UpperCased(v).Success?
    ensures KeysUpper(UpperCased(v).value)
    decreases v, 1
  {
    if !v.Null? {
      UpperEntriesAllUpper(v);
    }
  }

  lemma {:induction false} UpperPropertyAllUpper(c: Value)
    requires !HasNull(c)
    ensures RebuildProperty(c, ToUpperCase, SameLeaf).Success?
    ensures KeysUpper(RebuildProperty(c, ToUpperCase, SameLeaf).value)
    decreases c, 2
  {
    if IsObjectTyped(c) {
      KeysToUpperCaseAllUpper(c);
    }
  }

  lemma {:induction false} UpperEntriesAllUpper(v: Value)
    requires (v.Obj? || v.Arr?) && !HasNull(v)
    ensures UpperCased(v).Success?
    ensures KeysUpper(UpperCased(v).value)
    decreases v, 0
  {
    NoNullChildren(v);
    RebuildEntriesValue(v, Count(v), ToUpperCase, SameLeaf);
    var es := RebuildEntries(v, Count(v), ToUpperCase, SameLeaf).value;
    forall i | 0 <= i < |es| ensures IsUpperCase(es[i].0) && KeysUpper(es[i].1) {
      ToUpperCaseIdempotent(KeyAt(v, i));
      if v.Obj? {
        UpperPropertyAllUpper(v.fields[i].1);
      } else {
        UpperPropertyAllUpper(v.items[i]);
      }
    }
    FromEntriesUpper(es);
  }

  /** Building an object from upper-case entries leaves every key upper-case. */
  lemma FromEntriesUpper(es: seq<Entry>)
    requires forall i :: 0 <= i < |es| ==> IsUpperCase(es[i].0) && KeysUpper(es[i].1)
    ensures forall j :: 0 <= j < |FromEntries(es)| ==> IsUpperCase(FromEntries(es)[j].0) && KeysUpper(FromEntries(es)[j].1)
  {
    FromEntriesEntries(es);
    var r := FromEntries(es);
    forall j | 0 <= j < |r| ensures IsUpperCase(r[j].0) && KeysUpper(r[j].1) {
      var i :| 0 <= i < |es| && es[i] == r[j];
    }
  }

  lemma {:induction false} LastValueAt(es: seq<Entry>, i: nat)
    requires i < |es|
    requires forall j :: i < j < |es| ==> es[j].0 != es[i].0
    ensures LastValue(es, es[i].0) == Some(es[i].1)
  {
    if i < |es| - 1 {
      LastValueAt(es[..|es| - 1], i);
    }
  }

  /** The assignments `keysToUpperCase` makes at the top level of a tree without nulls. */
  lemma UpperEntries(v: Value)
    requires (v.Obj? || v.Arr?) && !HasNull(v)
    ensures RebuildEntries(v, Count(v), ToUpperCase, SameLeaf).Success?
    ensures var es := RebuildEntries(v, Count(v), ToUpperCase, SameLeaf).value;
      UpperCased(v) == Success(Obj(FromEntries(es))) &&
      |es| == Count(v) &&
      forall i :: 0 <= i < Count(v) ==> es[i] == (ToUpperCase(KeyAt(v, i)), UpperProperty(ChildAt(v, i)))
  {
    NoNullChildren(v);
    RebuildEntriesValue(v, Count(v), ToUpperCase, SameLeaf);
  }

  /** At the top level, the keys of `keysToUpperCase(obj)` are exactly the upper-cased keys of `obj`, each once. */
  lemma KeysToUpperCaseKeys(v: Value)
    requires (v.Obj? || v.Arr?) && !HasNull(v)
    ensures UpperCased(v).Success? && UpperCased(v).value.Obj?
    ensures DistinctKeys(UpperCased(v).value.fields)
    ensures forall k :: HasKey(UpperCased(v).value.fields, k) <==>
      exists i :: 0 <= i < Count(v) && ToUpperCase(KeyAt(v, i)) == k
  {
    UpperEntries(v);
    var es := RebuildEntries(v, Count(v), ToUpperCase, SameLeaf).value;
    FromEntriesHasKey(es);
    FromEntriesDistinct(es);
    forall k ensures HasKey(es, k) <==> exists i :: 0 <= i < Count(v) && ToUpperCase(KeyAt(v, i)) == k {
      if exists i :: 0 <= i < Count(v) && ToUpperCase(KeyAt(v, i)) == k {
        var i :| 0 <= i < Count(v) && ToUpperCase(KeyAt(v, i)) == k;
        assert es[i].0 == k;
      }
    }
  }

  /**
   * When keys collide after upper-casing, the later key's value wins; a value
   * that is not an object is kept as it is.
   */
  lemma KeysToUpperCaseLastWins(v: Value, i: nat)
    requires (v.Obj? || v.Arr?) && !HasNull(v)
    requires i < Count(v)
    requires forall j :: i < j < Count(v) ==> ToUpperCase(KeyAt(v, j)) != ToUpperCase(KeyAt(v, i))
    ensures UpperCased(v).Success? && UpperCased(v).value.Obj?
    ensures Lookup(UpperCased(v).value.fields, ToUpperCase(KeyAt(v, i))) == Some(UpperProperty(ChildAt(v, i)))
    ensures IsScalar(ChildAt(v, i)) ==> UpperProperty(ChildAt(v, i)) == ChildAt(v, i)
  {
    UpperEntries(v);
    var es := RebuildEntries(v, Count(v), ToUpperCase, SameLeaf).value;
    var k := ToUpperCase(KeyAt(v, i));
    assert es[i] == (k, UpperProperty(ChildAt(v, i)));
    forall j | i < j < |es| ensures es[j].0 != k {
      assert es[j] == (ToUpperCase(KeyAt(v, j)), UpperProperty(ChildAt(v, j)));
    }
    LastValueAt(es, i);
    assert Lookup(FromEntries(es), k) == LastValue(es, k);
    UpperPropertyScalar(ChildAt(v, i));
  }

  /** A property value that is not an object is kept as it is. */
  lemma UpperPropertyScalar(c: Value)
    requires !HasNull(c)
    ensures IsScalar(c) ==> UpperProperty(c) == c
  {
  }

  /** What `keysToUpperCase` makes of one property value, on a tree without nulls. */
  function UpperProperty(v: Value): Value
    requires !HasNull(v)
  {
    RebuildPropertyFails(v, ToUpperCase, SameLeaf);
    RebuildProperty(v, ToUpperCase, SameLeaf).value
  }
}
