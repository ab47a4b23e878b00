/**
 * JSON values (RFC 8259) as plain data, the rendering `JSON.stringify`
 * gives them, JavaScript truthiness, and the object operations the tools use:
 * own-key lookup and property assignment (an existing key keeps its position,
 * a new key goes last).
 *
 * Numbers are integers here; fractional and non-finite numbers are not part of
 * the model.
 */
module Json {
  import opened Wrappers
  import opened Text

  datatype Json =
    | JNull
    | JBool(b: bool)
    | JNum(n: int)
    | JStr(s: string)
    | JArr(items: seq<Json>)
    | JObj(fields: seq<(string, Json)>)

  /** Not an object and not an array (`!(v instanceof Object)` for JSON data). */
  predicate IsPrimitive(j: Json) {
    !j.JArr? && !j.JObj?
  }

  /** JavaScript truthiness: `null`, `false`, `0` and `''` are falsy. */
  predicate Truthy(j: Json) {
    match j
    case JNull => false
    case JBool(b) => b
    case JNum(n) => n != 0
    case JStr(s) => s != []
    case _ => true
  }

  function KeysOf(fields: seq<(string, Json)>): (ks: seq<string>)
    ensures |ks| == |fields|
    ensures forall i :: 0 <= i < |fields| ==> ks[i] == fields[i].0
  {
    if fields == [] then [] else [fields[0].0] + KeysOf(fields[1..])
  }

  /** JavaScript objects never hold the same key twice. */
  predicate DistinctKeys(fields: seq<(string, Json)>) {
    forall i, j :: 0 <= i < j < |fields| ==> fields[i].0 != fields[j].0
  }

  /** Every object inside `j` has distinct keys, as every JavaScript object does. */
  predicate UniqueKeys(j: Json) {
    match j
    case JArr(items) => forall i :: 0 <= i < |items| ==> UniqueKeys(items[i])
    case JObj(fields) => DistinctKeys(fields) && forall i :: 0 <= i < |fields| ==> UniqueKeys(fields[i].1)
    case _ => true
  }

  /** The value stored under `k`, if `k` is an own key. */
  function Get(fields: seq<(string, Json)>, k: string): (r: Option<Json>)
    ensures r.None? <==> k !in KeysOf(fields)
  {
    if fields == [] then None
    else if fields[0].0 == k then Some(fields[0].1)
    else Get(fields[1..], k)
  }

  /** `obj[k] = v`: replaces the value of an existing key in place, or appends the key. */
  function Assign(fields: seq<(string, Json)>, k: string, v: Json): (r: seq<(string, Json)>)
    ensures Get(r, k) == Some(v)
    ensures k in KeysOf(fields) ==> KeysOf(r) == KeysOf(fields)
    ensures k !in KeysOf(fields) ==> KeysOf(r) == KeysOf(fields) + [k]
  {
    if fields == [] then [(k, v)]
    else if fields[0].0 == k then
      var r := [(k, v)] + fields[1..];
      assert r[1..] == fields[1..];
      r
    else
      var r := [fields[0]] + Assign(fields[1..], k, v);
      assert r[1..] == Assign(fields[1..], k, v);
      r
  }

  /** Assigning one key leaves every other key's value as it was. */
  lemma {:induction false} AssignOther(fields: seq<(string, Json)>, k: string, v: Json, k': string)
    requires k' != k
    ensures Get(Assign(fields, k, v), k') == Get(fields, k')
  {
    if fields != [] && fields[0].0 != k {
      AssignOther(fields[1..], k, v, k');
    }
  }

  /**
   * `{...fields, k1: v1, k2: v2, ...}`: each later key is assigned in turn, so a key
   * already present keeps its position and takes the later value.
   */
  function AssignAll(fields: seq<(string, Json)>, kvs: seq<(string, Json)>): (r: seq<(string, Json)>)
    ensures KeysOf(fields) <= KeysOf(r)
    ensures forall k :: k in KeysOf(r) <==> k in KeysOf(fields) || k in KeysOf(kvs)
    decreases |kvs|
  {
    if kvs == [] then fields
    else
      var r := AssignAll(Assign(fields, kvs[0].0, kvs[0].1), kvs[1..]);
      assert KeysOf(kvs) == [kvs[0].0] + KeysOf(kvs[1..]);
      r
  }

  /** After the assignments every assigned key holds its assigned value and every other key is unchanged. */
  lemma {:induction false} AssignAllGet(fields: seq<(string, Json)>, kvs: seq<(string, Json)>, k: string)
    requires DistinctKeys(kvs)
    ensures forall i :: 0 <= i < |kvs| && kvs[i].0 == k ==> Get(AssignAll(fields, kvs), k) == Some(kvs[i].1)
    ensures k !in KeysOf(kvs) ==> Get(AssignAll(fields, kvs), k) == Get(fields, k)
    decreases |kvs|
  {
    if kvs != [] {
      var f' := Assign(fields, kvs[0].0, kvs[0].1);
      assert KeysOf(kvs) == [kvs[0].0] + KeysOf(kvs[1..]);
      AssignAllGet(f', kvs[1..], k);
      if k != kvs[0].0 {
        AssignOther(fields, kvs[0].0, kvs[0].1, k);
        forall i | 0 <= i < |kvs| && kvs[i].0 == k
          ensures Get(AssignAll(fields, kvs), k) == Some(kvs[i].1)
        {
          assert kvs[1..][i - 1] == kvs[i];
        }
      } else {
        assert k !in KeysOf(kvs[1..]) by {
          forall j | 0 <= j < |kvs[1..]| ensures kvs[1..][j].0 != k {
            assert kvs[j + 1].0 != kvs[0].0;
          }
        }
      }
    }
  }

  /** Spreading only keys the object already has keeps its keys and their order. */
  lemma {:induction false} AssignAllKeys(fields: seq<(string, Json)>, kvs: seq<(string, Json)>)
    requires forall i :: 0 <= i < |kvs| ==> kvs[i].0 in KeysOf(fields)
    ensures KeysOf(AssignAll(fields, kvs)) == KeysOf(fields)
    decreases |kvs|
  {
    if kvs != [] {
      var f' := Assign(fields, kvs[0].0, kvs[0].1);
      forall i | 0 <= i < |kvs[1..]| ensures kvs[1..][i].0 in KeysOf(f') {
        assert kvs[1..][i] == kvs[i + 1];
      }
      AssignAllKeys(f', kvs[1..]);
    }
  }

  /** The keys of two field lists put together. */
  lemma KeysOfAppend(a: seq<(string, Json)>, b: seq<(string, Json)>)
    ensures KeysOf(a + b) == KeysOf(a) + KeysOf(b)
  {
  }

  /** A key the first fields do not hold is looked up in the rest. */
  lemma {:induction false} GetSkip(prefix: seq<(string, Json)>, rest: seq<(string, Json)>, k: string)
    requires k !in KeysOf(prefix)
    ensures Get(prefix + rest, k) == Get(rest, k)
  {
    if prefix == [] {
      assert prefix + rest == rest;
    } else {
      assert (prefix + rest)[0] == prefix[0];
      assert (prefix + rest)[1..] == prefix[1..] + rest;
      assert KeysOf(prefix)[0] == prefix[0].0;
      assert KeysOf(prefix) == [prefix[0].0] + KeysOf(prefix[1..]);
      GetSkip(prefix[1..], rest, k);
    }
  }

  /** Looking a key up finds the value beside its first occurrence. */
  lemma {:induction false} GetFirstAt(fields: seq<(string, Json)>, i: nat)
    requires i < |fields|
    requires forall j :: 0 <= j < i ==> fields[j].0 != fields[i].0
    ensures Get(fields, fields[i].0) == Some(fields[i].1)
  {
    if i > 0 {
      assert fields[0].0 != fields[i].0;
      assert fields[1..][i - 1] == fields[i];
      GetFirstAt(fields[1..], i - 1);
    }
  }

  /** Assigning a key the object does not hold appends it. */
  lemma {:induction false} AssignNew(fields: seq<(string, Json)>, k: string, v: Json)
    requires k !in KeysOf(fields)
    ensures Assign(fields, k, v) == fields + [(k, v)]
  {
    if fields != [] {
      assert KeysOf(fields) == [fields[0].0] + KeysOf(fields[1..]);
      AssignNew(fields[1..], k, v);
    }
  }

  /** Assignment keeps the keys distinct. */
  lemma AssignDistinct(fields: seq<(string, Json)>, k: string, v: Json)
    requires DistinctKeys(fields)
    ensures DistinctKeys(Assign(fields, k, v))
  {
    var r := Assign(fields, k, v);
    var ks, rks := KeysOf(fields), KeysOf(r);
    forall i, j | 0 <= i < j < |r| ensures r[i].0 != r[j].0 {
      assert r[i].0 == rks[i] && r[j].0 == rks[j];
      if j < |fields| {
        assert rks[i] == ks[i] && rks[j] == ks[j];
        assert fields[i].0 == ks[i] && fields[j].0 == ks[j];
      } else {
        assert rks[j] == k && k !in ks;
        assert rks[i] == ks[i];
      }
    }
  }

  /** Assigning the entries of two lists is assigning those of the first, then those of the second. */
  lemma {:induction false} AssignAllAppend(fields: seq<(string, Json)>, a: seq<(string, Json)>, b: seq<(string, Json)>)
    ensures AssignAll(fields, a + b) == AssignAll(AssignAll(fields, a), b)
    decreases |a|
  {
    if a == [] {
      assert a + b == b;
    } else {
      assert (a + b)[0] == a[0];
      assert (a + b)[1..] == a[1..] + b;
      AssignAllAppend(Assign(fields, a[0].0, a[0].1), a[1..], b);
    }
  }

  /** A key no assignment names keeps its value. */
  lemma {:induction false} AssignAllOutside(fields: seq<(string, Json)>, kvs: seq<(string, Json)>, k: string)
    requires k !in KeysOf(kvs)
    ensures Get(AssignAll(fields, kvs), k) == Get(fields, k)
    decreases |kvs|
  {
    if kvs != [] {
      assert KeysOf(kvs) == [kvs[0].0] + KeysOf(kvs[1..]);
      AssignOther(fields, kvs[0].0, kvs[0].1, k);
      AssignAllOutside(Assign(fields, kvs[0].0, kvs[0].1), kvs[1..], k);
    }
  }

  /** When every assignment writes the same value, every assigned key ends up with it. */
  lemma {:induction false} AssignAllUniform(fields: seq<(string, Json)>, kvs: seq<(string, Json)>, v: Json, k: string)
    requires forall i :: 0 <= i < |kvs| ==> kvs[i].1 == v
    requires k in KeysOf(kvs)
    ensures Get(AssignAll(fields, kvs), k) == Some(v)
    decreases |kvs|
  {
    assert KeysOf(kvs) == [kvs[0].0] + KeysOf(kvs[1..]);
    var f' := Assign(fields, kvs[0].0, kvs[0].1);
    forall i | 0 <= i < |kvs[1..]| ensures kvs[1..][i].1 == v {
      assert kvs[1..][i] == kvs[i + 1];
    }
    if k in KeysOf(kvs[1..]) {
      AssignAllUniform(f', kvs[1..], v, k);
    } else {
      AssignAllOutside(f', kvs[1..], k);
    }
  }

  /** `typeof j === 'object'`: true for objects, arrays and `null`. */
  predicate TypeofObject(j: Json) {
    j.JObj? || j.JArr? || j.JNull?
  }

  /** A canonical array index: decimal digits without a leading zero. */
  predicate IsArrayIndex(k: string) {
    |k| > 0 && AllDigits(k) && (|k| > 1 ==> k[0] != '0')
  }

  /** `Object.keys(j)`: the keys of an object; the indices of an array or a string; none otherwise. */
  function OwnKeys(j: Json): (ks: seq<string>)
    ensures j.JObj? ==> ks == KeysOf(j.fields)
    ensures j.JArr? ==> |ks| == |j.items|
    ensures j.JStr? ==> |ks| == |j.s|
    ensures IsPrimitive(j) && !j.JStr? ==> ks == []
    ensures !j.JObj? ==> forall i :: 0 <= i < |ks| ==> IsArrayIndex(ks[i]) && DigitsValue(ks[i]) == i
  {
    match j
    case JObj(fields) => KeysOf(fields)
    case JArr(items) => seq(|items|, i requires 0 <= i < |items| => NatToString(i))
    case JStr(s) => seq(|s|, i requires 0 <= i < |s| => NatToString(i))
    case _ => []
  }

  /**
   * `j[k]` when `j.hasOwnProperty(k)`, and `None` when it is not an own property:
   * an object's fields; an array's or a string's elements and its `length`.
   */
  function Property(j: Json, k: string): (r: Option<Json>)
    ensures j.JObj? ==> r == Get(j.fields, k)
    ensures !j.JObj? && k in OwnKeys(j) ==> r.Some?
  {
    match j
    case JObj(fields) => Get(fields, k)
    case JArr(items) =>
      if k == "length" then Some(JNum(|items|))
      else if IsArrayIndex(k) && DigitsValue(k) < |items| then Some(items[DigitsValue(k)])
      else None
    case JStr(s) =>
      if k == "length" then Some(JNum(|s|))
      else if IsArrayIndex(k) && DigitsValue(k) < |s| then Some(JStr([s[DigitsValue(k)]]))
      else None
    case _ => None
  }

  /** The JSON rendering of one string character inside a string literal. */
  function EscapeChar(c: char): string {
    if c == '"' then "\\\""
    else if c == '\\' then "\\\\"
    else if c == '\U{0008}' then "\\b"
    else if c == '\U{000C}' then "\\f"
    else if c == '\n' then "\\n"
    else if c == '\r' then "\\r"
    else if c == '\t' then "\\t"
    else if c < ' ' then "\\u00" + [HexDigit((c as int) / 16), HexDigit((c as int) % 16)]
    else [c]
  }

  function HexDigit(d: nat): char
    requires d < 16
  {
    "0123456789abcdef"[d]
  }

  /** A string literal: the characters escaped and wrapped in double quotes. */
  function Quote(s: string): (q: string)
    ensures |q| >= 2 && q[0] == '"' && q[|q| - 1] == '"'
  {
    "\"" + EscapeAll(s) + "\""
  }

  function EscapeAll(s: string): string {
    if s == [] then "" else EscapeChar(s[0]) + EscapeAll(s[1..])
  }

  /** A character that `JSON.stringify` copies into a string literal unchanged. */
  predicate PlainChar(c: char) {
    c >= ' ' && c != '"' && c != '\\'
  }

  /** A string made of plain characters is quoted without escapes. */
  lemma {:induction false} QuotePlain(s: string)
    requires forall i :: 0 <= i < |s| ==> PlainChar(s[i])
    ensures Quote(s) == "\"" + s + "\""
  {
    EscapePlain(s);
  }

  lemma {:induction false} EscapePlain(s: string)
    requires forall i :: 0 <= i < |s| ==> PlainChar(s[i])
    ensures EscapeAll(s) == s
  {
    if s != [] {
      EscapePlain(s[1..]);
      assert s == [s[0]] + s[1..];
    }
  }

  /**
   * `JSON.stringify(j)`, with no indentation: a string is quoted, an array
   * bracketed and an object braced.
   */
  function Stringify(j: Json): (text: string)
    ensures |text| > 0
    ensures j.JStr? ==> |text| >= 2 && text[0] == '"' && text[|text| - 1] == '"'
    ensures j.JArr? ==> |text| >= 2 && text[0] == '[' && text[|text| - 1] == ']'
    ensures j.JObj? ==> |text| >= 2 && text[0] == '{' && text[|text| - 1] == '}'
  {
    match j
    case JNull => "null"
    case JBool(b) => if b then "true" else "false"
    case JNum(n) => IntToString(n)
    case JStr(s) => Quote(s)
    case JArr(items) =>
      "[" + Join(seq(|items|, i requires 0 <= i < |items| => Stringify(items[i])), ",") + "]"
    case JObj(fields) =>
      "{" + Join(seq(|fields|, i requires 0 <= i < |fields| =>
                   Quote(fields[i].0) + ":" + Stringify(fields[i].1)), ",") + "}"
  }
}
