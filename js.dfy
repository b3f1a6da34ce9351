/** JavaScript values and objects as far as the client inspects them, and the host
    (browser and runtime) functions it calls but whose text is not part of this model. */
module Js {

  datatype Option<T> = None | Some(value: T)

  /** Concatenation regroups freely; stated once so that proofs can name the step. */
  lemma ConcatAssoc<T>(x: seq<T>, y: seq<T>, z: seq<T>)
    ensures x + (y + z) == (x + y) + z
  {
  }

  /** A JavaScript value. A plain object is the list of its own enumerable properties in
      `Object.keys` order; a Date is its time value; a URLSearchParams object is the text
      its `toString` gives. */
  datatype JsValue =
    | Undefined
    | Null
    | Bool(b: bool)
    | Num(n: real)
    | Str(s: string)
    | Date(time: int)
    | Arr(elems: seq<JsValue>)
    | Obj(fields: seq<(string, JsValue)>)
    | FormData(id: nat)
    | SearchParams(query: string)

  /** JavaScript truthiness (`if (v)`); NaN is not a value of this model. Every object is
      truthy, the empty array and the empty URLSearchParams included. */
  predicate Truthy(v: JsValue): (b: bool)
    ensures v.Undefined? || v.Null? ==> !b
    ensures v.Str? ==> (b <==> v.s != "")
    ensures v.Arr? || v.Obj? || v.Date? || v.FormData? || v.SearchParams? ==> b
  {
    match v
    case Undefined => false
    case Null => false
    case Bool(b) => b
    case Num(n) => n != 0.0
    case Str(s) => s != ""
    case _ => true
  }

  /** A string-valued optional setting that is set and non-empty, i.e. truthy. */
  predicate Given(s: Option<string>)
  {
    s.Some? && s.value != ""
  }

  /** A function of the request or response transform chain: `(data, headers) => data`. */
  type Transformer = (JsValue, Dict) -> JsValue

  /** The runtime functions the client calls without defining them. */
  datatype Host = Host(
    numberToString: real -> string,              // Number.prototype.toString
    dateToString: int -> string,                 // Date.prototype.toString
    toISOString: int -> string,                  // Date.prototype.toISOString
    jsonStringify: JsValue -> string,            // JSON.stringify
    btoa: string -> string,                      // window.btoa
    parseHeaders: string -> Dict,                // parseHeaders of helpers/headers
    flattenHeaders: (Dict, Option<string>) -> Dict,     // flattenHeaders of helpers/headers
    transform: (JsValue, Dict, seq<Transformer>) -> JsValue  // core/transform
  )

  // ---------------------------------------------------------------------------
  // Ordered dictionaries: a JavaScript object used as a string-keyed map.

  function Keys(d: seq<(string, JsValue)>): (ks: seq<string>)
    ensures |ks| == |d|
    ensures forall i :: 0 <= i < |d| ==> ks[i] == d[i].0
  {
    seq(|d|, i requires 0 <= i < |d| => d[i].0)
  }

  predicate DistinctKeys(d: seq<(string, JsValue)>)
  {
    forall i, j :: 0 <= i < j < |d| ==> d[i].0 != d[j].0
  }

  /** An object's own properties in key order; a key occurs at most once. */
  type Dict = d: seq<(string, JsValue)> | DistinctKeys(d) witness []

  /** `d[k]`, or None when `k` is not an own key. */
  function Get(d: seq<(string, JsValue)>, k: string): (r: Option<JsValue>)
    ensures r.None? <==> k !in Keys(d)
    ensures r.Some? ==> (k, r.value) in d
  {
    if d == [] then None
    else if d[0].0 == k then Some(d[0].1)
    else
      assert Keys(d) == [d[0].0] + Keys(d[1..]);
      Get(d[1..], k)
  }

  lemma {:induction false} GetOfMember(d: Dict, k: string, v: JsValue)
    requires (k, v) in d
    ensures Get(d, k) == Some(v)
  {
    var i :| 0 <= i < |d| && d[i] == (k, v);
    if i == 0 {
    } else {
      assert d[1..][i - 1] == (k, v);
      assert d[0].0 != k;
      GetOfMember(d[1..], k, v);
    }
  }

  /** In an object, `d[k] == v` exactly when `(k, v)` is one of its properties. */
  lemma GetIff(d: Dict, k: string, v: JsValue)
    ensures Get(d, k) == Some(v) <==> (k, v) in d
  {
    if (k, v) in d {
      GetOfMember(d, k, v);
    }
  }

  /** The position of the property named `k`. */
  function IndexOfKey(d: Dict, k: string): (i: nat)
    requires k in Keys(d)
    ensures i < |d| && d[i].0 == k
  {
    if d[0].0 == k then 0
    else
      KeyInTail(d, k);
      1 + IndexOfKey(d[1..], k)
  }

  lemma KeyInTail(d: Dict, k: string)
    requires k in Keys(d) && d[0].0 != k
    ensures DistinctKeys(d[1..]) && k in Keys(d[1..])
  {
    assert Keys(d) == [d[0].0] + Keys(d[1..]);
    DistinctTail(d);
  }

  lemma DistinctTail(d: Dict)
    requires d != []
    ensures DistinctKeys(d[1..]) && d[0].0 !in Keys(d[1..])
  {
    assert forall i :: 0 <= i < |d| - 1 ==> d[1..][i] == d[i + 1];
  }

  /** `d[k] = v`: an existing key keeps its place, a new key goes last (the model does
      not move integer-like keys ahead of the others). */
  function Put(d: Dict, k: string, v: JsValue): (r: Dict)
    ensures Keys(r) == if k in Keys(d) then Keys(d) else Keys(d) + [k]
    ensures Get(r, k) == Some(v)
    ensures forall k' :: k' != k ==> Get(r, k') == Get(d, k')
  {
    if k in Keys(d) then
      var i := IndexOfKey(d, k);
      var r := d[i := (k, v)];
      assert Keys(r) == Keys(d);
      assert DistinctKeys(r);
      assert forall k', w :: k' != k ==> ((k', w) in r <==> (k', w) in d);
      forall k' | k' != k ensures Get(r, k') == Get(d, k') {
        if Get(d, k').Some? { GetIff(r, k', Get(d, k').value); }
        if Get(r, k').Some? { GetIff(d, k', Get(r, k').value); }
      }
      GetIff(r, k, v);
      r
    else
      var r := d + [(k, v)];
      assert Keys(r) == Keys(d) + [k];
      assert DistinctKeys(r);
      assert forall k', w :: k' != k ==> ((k', w) in r <==> (k', w) in d);
      forall k' | k' != k ensures Get(r, k') == Get(d, k') {
        if Get(d, k').Some? { GetIff(r, k', Get(d, k').value); }
        if Get(r, k').Some? { GetIff(d, k', Get(r, k').value); }
      }
      GetIff(r, k, v);
      r
  }

  /** `delete d[k]`: every other property keeps its value and its place. */
  function Delete(d: Dict, k: string): (r: Dict)
    ensures k !in Keys(r)
    ensures forall k' :: k' != k ==> Get(r, k') == Get(d, k')
    ensures forall k' :: k' in Keys(r) <==> k' in Keys(d) && k' != k
    ensures k !in Keys(d) ==> r == d
  {
    if k in Keys(d) then
      var i := IndexOfKey(d, k);
      RemoveAtDistinct(d, i);
      RemoveAtKeys(d, i);
      RemoveAtGet(d, i);
      d[..i] + d[i + 1..]
    else d
  }

  lemma RemoveAtDistinct(d: Dict, i: nat)
    requires i < |d|
    ensures DistinctKeys(d[..i] + d[i + 1..])
  {
    var r := d[..i] + d[i + 1..];
    assert forall j :: 0 <= j < |r| ==> r[j] == if j < i then d[j] else d[j + 1];
  }

  lemma RemoveAtKeys(d: Dict, i: nat)
    requires i < |d|
    ensures forall k' :: k' in Keys(d[..i] + d[i + 1..]) <==> k' in Keys(d) && k' != d[i].0
  {
    var r := d[..i] + d[i + 1..];
    assert forall j :: 0 <= j < |r| ==> r[j] == if j < i then d[j] else d[j + 1];
    forall k' ensures k' in Keys(r) <==> k' in Keys(d) && k' != d[i].0 {
      if k' in Keys(d) && k' != d[i].0 {
        var j :| 0 <= j < |d| && d[j].0 == k';
        if j < i { assert r[j] == d[j]; } else { assert r[j - 1] == d[j]; }
      }
    }
  }

  lemma RemoveAtGet(d: Dict, i: nat)
    requires i < |d|
    ensures forall k' :: k' != d[i].0 ==> Get(d[..i] + d[i + 1..], k') == Get(d, k')
  {
    var r := d[..i] + d[i + 1..];
    RemoveAtDistinct(d, i);
    assert forall j :: 0 <= j < |r| ==> r[j] == if j < i then d[j] else d[j + 1];
    assert forall k', w :: k' != d[i].0 ==> ((k', w) in r <==> (k', w) in d);
    forall k' | k' != d[i].0 ensures Get(r, k') == Get(d, k') {
      if Get(d, k').Some? { GetIff(r, k', Get(d, k').value); }
      if Get(r, k').Some? { GetIff(d, k', Get(r, k').value); }
    }
  }

  /** The property at position j is the one `Get` and `Delete` find for its key. */
  lemma PropertyAt(d: Dict, j: nat)
    requires j < |d|
    ensures IndexOfKey(d, d[j].0) == j
    ensures Get(d, d[j].0) == Some(d[j].1)
    ensures Delete(d, d[j].0) == d[..j] + d[j + 1..]
  {
    assert d[j].0 in Keys(d);
    GetIff(d, d[j].0, d[j].1);
  }

  // ---------------------------------------------------------------------------
  // Strings.

  function Join(parts: seq<string>, sep: string): (r: string)
    ensures parts == [] ==> r == ""
    ensures |parts| == 1 ==> r == parts[0]
  {
    if parts == [] then ""
    else if |parts| == 1 then parts[0]
    else Join(parts[..|parts| - 1], sep) + sep + parts[|parts| - 1]
  }

  function DigitChar(d: nat): char
    requires d < 10
  {
    ('0' as int + d) as char
  }

  /** The number a text of decimal digits denotes. */
  function DecimalValue(s: string): nat
    requires forall i :: 0 <= i < |s| ==> '0' <= s[i] <= '9'
  {
    if s == [] then 0 else 10 * DecimalValue(s[..|s| - 1]) + (s[|s| - 1] as int - '0' as int)
  }

  /** The decimal text of a non-negative integer, as `${n}` gives it: digits only, with
      no leading zero. */
  function NatToString(n: nat): (r: string)
    ensures r != []
    ensures forall i :: 0 <= i < |r| ==> '0' <= r[i] <= '9'
    ensures r[0] == '0' <==> n == 0
  {
    if n < 10 then [DigitChar(n)] else NatToString(n / 10) + [DigitChar(n % 10)]
  }

  /** Reading the text back as a decimal number gives the number. */
  lemma {:induction false} NatToStringValue(n: nat)
    ensures DecimalValue(NatToString(n)) == n
  {
    var r := NatToString(n);
    if n < 10 {
      assert r[..0] == [];
    } else {
      assert r[..|r| - 1] == NatToString(n / 10);
      NatToStringValue(n / 10);
    }
  }

  /** Distinct numbers have distinct texts. */
  lemma NatToStringInjective(m: nat, n: nat)
    requires NatToString(m) == NatToString(n)
    ensures m == n
  {
    NatToStringValue(m);
    NatToStringValue(n);
  }

  function AsciiUpper(c: char): char
  {
    if 'a' <= c <= 'z' then (c as int - 32) as char else c
  }

  function AsciiLower(c: char): char
  {
    if 'A' <= c <= 'Z' then (c as int + 32) as char else c
  }

  /** `s.toUpperCase()` for the ASCII letters an HTTP method name consists of. */
  function ToUpperCase(s: string): (r: string)
    ensures |r| == |s|
    ensures forall i :: 0 <= i < |s| ==> r[i] == AsciiUpper(s[i])
  {
    seq(|s|, i requires 0 <= i < |s| => AsciiUpper(s[i]))
  }

  /** `s.toLowerCase()` for the ASCII letters of a header name. */
  function ToLowerCase(s: string): (r: string)
    ensures |r| == |s|
    ensures forall i :: 0 <= i < |s| ==> r[i] == AsciiLower(s[i])
  {
    seq(|s|, i requires 0 <= i < |s| => AsciiLower(s[i]))
  }

  /** `String(v)`, the string conversion `encodeURIComponent` applies to its argument.
      A string is its own text; an array is the texts of its elements joined with ',',
      where null and undefined elements give empty texts. */
  function ToJsString(h: Host, v: JsValue): (r: string)
    ensures v.Str? ==> r == v.s
    ensures v.Arr? && v.elems == [] ==> r == ""
    ensures v.Arr? && (forall i :: 0 <= i < |v.elems| ==> v.elems[i].Str?) ==>
              r == Join(seq(|v.elems|, i requires 0 <= i < |v.elems| => v.elems[i].s), ",")
  {
    match v
    case Undefined => "undefined"
    case Null => "null"
    case Bool(b) => if b then "true" else "false"
    case Num(n) => h.numberToString(n)
    case Str(s) => s
    case Date(t) => h.dateToString(t)
    case Arr(es) =>
      // Array.prototype.join: null and undefined elements become empty strings
      var texts := seq(|es|, i requires 0 <= i < |es| =>
                     if es[i].Null? || es[i].Undefined? then "" else ToJsString(h, es[i]));
      assert (forall i :: 0 <= i < |es| ==> es[i].Str?) ==>
               texts == seq(|es|, i requires 0 <= i < |es| => es[i].s);
      Join(texts, ",")
    case Obj(_) => "[object Object]"
    case FormData(_) => "[object FormData]"
    case SearchParams(q) => q
  }
}
