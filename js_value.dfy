/**
 * The JavaScript values the bot's constants and configuration trees are made of,
 * and the one operation every builder in `src/utils.ts` uses on them: assigning a
 * property of a plain object (`obj[key] = value`).
 *
 * A plain object is an ordered association list, because the order in which
 * `Object.keys` lists the keys is observable: it fixes the order in which the
 * template engine visits the leaves.  Assigning an existing key keeps its place;
 * assigning a new key appends it.
 */
module JsValue {
  import opened Wrappers

  /** The subset of JavaScript values a YAML document or the bot itself produces. */
  datatype Value =
    | Str(s: string)
    | Num(n: int)
    | Bool(b: bool)
    | Null
    | Arr(items: seq<Value>)
    | Obj(fields: seq<(string, Value)>)

  type Entry = (string, Value)

  /** What a JavaScript operation can throw in this model. */
  datatype JsError =
    | TypeError    // a property read or write on null, undefined or a primitive
    | ReadError    // the file system refused to read a file
    | YamlError    // the YAML loader rejected a document

  /** `typeof v === 'object'`: objects, arrays and (famously) null. */
  predicate IsObjectTyped(v: Value) {
    v.Obj? || v.Arr? || v.Null?
  }

  /** Values the template engine and the encoder turn into text. */
  predicate IsScalar(v: Value) {
    v.Str? || v.Num? || v.Bool?
  }

  /** `Object.keys` of a plain object, in order. */
  function Keys(fields: seq<Entry>): (ks: seq<string>)
    ensures |ks| == |fields|
    ensures forall i :: 0 <= i < |fields| ==> ks[i] == fields[i].0
  {
    seq(|fields|, i requires 0 <= i < |fields| => fields[i].0)
  }

  /** `key in obj` */
  predicate HasKey(fields: seq<Entry>, k: string) {
    exists i :: 0 <= i < |fields| && fields[i].0 == k
  }

  /** A JavaScript object never holds one key twice. */
  predicate DistinctKeys(fields: seq<Entry>) {
    forall i, j :: 0 <= i < j < |fields| ==> fields[i].0 != fields[j].0
  }

  /** `obj[key]`, or None when the key is absent. */
  function Lookup(fields: seq<Entry>, k: string): (r: Option<Value>)
    ensures r.Some? <==> HasKey(fields, k)
  {
    if |fields| == 0 then None
    else if fields[0].0 == k then Some(fields[0].1)
    else
      assert HasKey(fields, k) ==> HasKey(fields[1..], k) by {
        if HasKey(fields, k) {
          var i :| 0 <= i < |fields| && fields[i].0 == k;
          assert fields[1..][i - 1].0 == k;
        }
      }
      Lookup(fields[1..], k)
  }

  /** With distinct keys, looking up the key of an entry finds that entry's value. */
  lemma {:induction false} LookupAt(fields: seq<Entry>, i: nat)
    requires DistinctKeys(fields) && i < |fields|
    ensures Lookup(fields, fields[i].0) == Some(fields[i].1)
  {
    if i > 0 {
      assert fields[1..][i - 1] == fields[i];
      LookupAt(fields[1..], i - 1);
    }
  }

  /** `obj[key] = v` on a plain object: an existing key keeps its position, a new one is appended. */
  function Put(fields: seq<Entry>, k: string, v: Value): (r: seq<Entry>)
    ensures Lookup(r, k) == Some(v)
    ensures forall k' :: k' != k ==> Lookup(r, k') == Lookup(fields, k')
  {
    if |fields| == 0 then [(k, v)]
    else if fields[0].0 == k then [(k, v)] + fields[1..]
    else [fields[0]] + Put(fields[1..], k, v)
  }

  /** Assignment adds exactly the assigned key. */
  lemma PutHasKey(fields: seq<Entry>, k: string, v: Value)
    ensures forall k' :: HasKey(Put(fields, k, v), k') <==> HasKey(fields, k') || k' == k
  {
    var r := Put(fields, k, v);
    forall k' ensures HasKey(r, k') <==> HasKey(fields, k') || k' == k {
      assert Lookup(r, k').Some? <==> HasKey(r, k');
      assert Lookup(fields, k').Some? <==> HasKey(fields, k');
    }
  }

  /** Assigning an existing key leaves the key order as it was. */
  lemma {:induction false} PutExistingKeepsOrder(fields: seq<Entry>, k: string, v: Value)
    requires HasKey(fields, k)
    ensures Keys(Put(fields, k, v)) == Keys(fields)
  {
    if fields[0].0 != k {
      assert Lookup(fields, k) == Lookup(fields[1..], k);
      PutExistingKeepsOrder(fields[1..], k, v);
      var r := Put(fields, k, v);
      assert r == [fields[0]] + Put(fields[1..], k, v);
      assert |r| == |fields|;
      forall i | 0 <= i < |r| ensures r[i].0 == fields[i].0 {
        if i > 0 {
          assert r[i] == Put(fields[1..], k, v)[i - 1];
          assert Keys(Put(fields[1..], k, v))[i - 1] == Keys(fields[1..])[i - 1];
        }
      }
    }
  }

  /** Assigning a new key appends it. */
  lemma {:induction false} PutNewAppends(fields: seq<Entry>, k: string, v: Value)
    requires !HasKey(fields, k)
    ensures Put(fields, k, v) == fields + [(k, v)]
  {
    if |fields| > 0 {
      assert Lookup(fields, k) == Lookup(fields[1..], k);
      PutNewAppends(fields[1..], k, v);
      assert fields == [fields[0]] + fields[1..];
    }
  }

  lemma {:induction false} PutDistinct(fields: seq<Entry>, k: string, v: Value)
    requires DistinctKeys(fields)
    ensures DistinctKeys(Put(fields, k, v))
  {
    if |fields| > 0 && fields[0].0 != k {
      var r := Put(fields, k, v);
      var tail := Put(fields[1..], k, v);
      assert r == [fields[0]] + tail;
      PutDistinct(fields[1..], k, v);
      PutHasKey(fields[1..], k, v);
      assert !HasKey(fields[1..], fields[0].0) by {
        forall j | 0 <= j < |fields[1..]| ensures fields[1..][j].0 != fields[0].0 {
          assert fields[1..][j] == fields[j + 1];
        }
      }
      assert !HasKey(tail, fields[0].0);
      forall i, j | 0 <= i < j < |r| ensures r[i].0 != r[j].0 {
        if i == 0 {
          assert tail[j - 1].0 == r[j].0;
        } else {
          assert r[i] == tail[i - 1] && r[j] == tail[j - 1];
        }
      }
    }
  }

  /** The value the last entry with key `k` carries, if any. */
  function LastValue(es: seq<Entry>, k: string): Option<Value> {
    if |es| == 0 then None
    else if es[|es| - 1].0 == k then Some(es[|es| - 1].1)
    else LastValue(es[..|es| - 1], k)
  }

  /**
   * The object a `for` loop builds when it assigns the entries `es` one after
   * the other to a fresh `{}`.
   */
  function FromEntries(es: seq<Entry>): (r: seq<Entry>)
    ensures forall k :: Lookup(r, k) == LastValue(es, k)
  {
    if |es| == 0 then [] else Put(FromEntries(es[..|es| - 1]), es[|es| - 1].0, es[|es| - 1].1)
  }

  /** The built object has exactly the assigned keys. */
  lemma {:induction false} FromEntriesHasKey(es: seq<Entry>)
    ensures forall k :: HasKey(FromEntries(es), k) <==> HasKey(es, k)
  {
    if |es| > 0 {
      var init := es[..|es| - 1];
      var last := es[|es| - 1];
      FromEntriesHasKey(init);
      PutHasKey(FromEntries(init), last.0, last.1);
      forall k ensures HasKey(es, k) <==> HasKey(init, k) || k == last.0 {
        if HasKey(es, k) && k != last.0 {
          var i :| 0 <= i < |es| && es[i].0 == k;
          assert init[i].0 == k;
        }
        if HasKey(init, k) {
          var i :| 0 <= i < |init| && init[i].0 == k;
          assert es[i].0 == k;
        }
      }
    }
  }

  /** The built object holds every key once. */
  lemma {:induction false} FromEntriesDistinct(es: seq<Entry>)
    ensures DistinctKeys(FromEntries(es))
  {
    if |es| > 0 {
      var init := es[..|es| - 1];
      FromEntriesDistinct(init);
      PutDistinct(FromEntries(init), es[|es| - 1].0, es[|es| - 1].1);
    }
  }

  /** Entries whose keys are already distinct come back as they are, in order. */
  lemma {:induction false} FromDistinctEntries(es: seq<Entry>)
    requires DistinctKeys(es)
    ensures FromEntries(es) == es
  {
    if |es| > 0 {
      var init := es[..|es| - 1];
      var last := es[|es| - 1];
      FromDistinctEntries(init);
      assert !HasKey(init, last.0) by {
        forall i | 0 <= i < |init| ensures init[i].0 != last.0 {
          assert init[i] == es[i];
        }
      }
      PutNewAppends(init, last.0, last.1);
      assert es == init + [last];
    }
  }

  /** The text JavaScript's `String(v)` gives for a scalar. */
  function ToText(v: Value): string
    requires IsScalar(v)
  {
    match v
    case Str(s) => s
    case Num(n) => IntToDecimal(n)
    case Bool(b) => if b then "true" else "false"
  }

  predicate IsDigit(c: char) {
    '0' <= c <= '9'
  }

  function DigitChar(d: nat): (c: char)
    requires d < 10
    ensures IsDigit(c) && c as int - '0' as int == d
  {
    ('0' as int + d) as char
  }

  /** The decimal numeral of `n`, without leading zeros: what `String(n)` and array indices give. */
  function NatToDecimal(n: nat): (r: string)
    ensures |r| >= 1 && forall c :: c in r ==> IsDigit(c)
  {
    if n < 10 then [DigitChar(n)] else NatToDecimal(n / 10) + [DigitChar(n % 10)]
  }

  function IntToDecimal(n: int): string {
    if n < 0 then "-" + NatToDecimal(-n) else NatToDecimal(n)
  }

  /** The number a decimal numeral denotes: the inverse of NatToDecimal. */
  function DecimalValue(s: string): nat
    requires forall c :: c in s ==> IsDigit(c)
  {
    if |s| == 0 then 0
    else
      assert s[|s| - 1] in s;
      assert forall c :: c in s[..|s| - 1] ==> c in s;
      var d := s[|s| - 1];
      assert IsDigit(d);
      DecimalValue(s[..|s| - 1]) * 10 + (d as int - '0' as int)
  }

  lemma {:induction false} DecimalRoundTrip(n: nat)
    ensures DecimalValue(NatToDecimal(n)) == n
  {
    if n >= 10 {
      var r := NatToDecimal(n);
      assert r[..|r| - 1] == NatToDecimal(n / 10);
      DecimalRoundTrip(n / 10);
    }
  }

  /** Distinct array indices give distinct property names. */
  lemma NatToDecimalInjective(a: nat, b: nat)
    requires a != b
    ensures NatToDecimal(a) != NatToDecimal(b)
  {
    DecimalRoundTrip(a);
    DecimalRoundTrip(b);
  }

  /** True when a `null` occurs anywhere in `v`, arrays included. */
  predicate HasNull(v: Value) {
    match v
    case Null => true
    case Arr(items) => exists i :: 0 <= i < |items| && HasNull(items[i])
    case Obj(fields) => exists i :: 0 <= i < |fields| && HasNull(fields[i].1)
    case _ => false
  }

  /** Every object in `v`, at every depth, has distinct keys, as every JavaScript object does. */
  predicate WellFormed(v: Value) {
    match v
    case Arr(items) => forall i :: 0 <= i < |items| ==> WellFormed(items[i])
    case Obj(fields) =>
      DistinctKeys(fields) && forall i :: 0 <= i < |fields| ==> WellFormed(fields[i].1)
    case _ => true
  }

  /** `Object.keys(v).length` of an object or array. */
  function Count(v: Value): nat
    requires v.Obj? || v.Arr?
  {
    if v.Obj? then |v.fields| else |v.items|
  }

  /** The `i`-th key `Object.keys` gives: a field name, or the index of an array element. */
  function KeyAt(v: Value, i: nat): string
    requires v.Obj? || v.Arr?
    requires i < Count(v)
  {
    if v.Obj? then v.fields[i].0 else NatToDecimal(i)
  }

  /** The value under the `i`-th key. */
  function ChildAt(v: Value, i: nat): Value
    requires v.Obj? || v.Arr?
    requires i < Count(v)
  {
    if v.Obj? then v.fields[i].1 else v.items[i]
  }
}
