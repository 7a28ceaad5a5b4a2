/**
  Decoded JSON values and records as the server, the agents and the client see
  them. A record is an ordered list of fields so that key order (which the
  client shows as table headers) is part of the model; a missing key is
  `undefined` in JavaScript and a missing `dict` entry in Python.
 */
module Values {
  import opened Wrappers
  import opened Text
  import opened Seqs

  /** A scalar cell. JSON has no NaN or Infinity, so `Num` is always finite. */
  datatype Value = Str(s: string) | Num(n: real) | Bool(b: bool) | Null

  datatype Field = Field(key: string, value: Value)

  type Record = seq<Field>

  function Keys(r: Record): (ks: seq<string>)
    ensures |ks| == |r|
    ensures forall i :: 0 <= i < |r| ==> ks[i] == r[i].key
  {
    seq(|r|, i requires 0 <= i < |r| => r[i].key)
  }

  /** A JavaScript object or Python dict: no key twice. */
  predicate DistinctKeys(r: Record) {
    Distinct(Keys(r))
  }

  lemma KeysConcat(a: Record, b: Record)
    ensures Keys(a + b) == Keys(a) + Keys(b)
  {
  }

  lemma KeysCons(r: Record)
    requires |r| > 0
    ensures Keys(r) == [r[0].key] + Keys(r[1..])
  {
  }

  /** `obj[k]` / `d.get(k)`: the first field with key `k`; `None` stands for `undefined`. */
  function Get(r: Record, k: string): Option<Value> {
    if |r| == 0 then None
    else if r[0].key == k then Some(r[0].value)
    else Get(r[1..], k)
  }

  /** `Get` finds a value exactly for the keys the record has, and it is one of its fields. */
  lemma {:induction false} GetSpec(r: Record, k: string)
    ensures Get(r, k).Some? <==> k in Keys(r)
    ensures Get(r, k).Some? ==> Field(k, Get(r, k).value) in r
  {
    if |r| > 0 {
      KeysCons(r);
      GetSpec(r[1..], k);
    }
  }

  /** Appending a field never changes what an earlier field answers. */
  lemma {:induction false} GetSnoc(r: Record, f: Field, k: string)
    ensures Get(r + [f], k) ==
      if k in Keys(r) then Get(r, k) else if k == f.key then Some(f.value) else None
  {
    if |r| > 0 {
      KeysCons(r);
      assert (r + [f])[1..] == r[1..] + [f];
      GetSnoc(r[1..], f, k);
    }
  }

  /** In a record with distinct keys, every field is what `Get` finds. */
  lemma {:induction false} GetField(r: Record, i: nat)
    requires DistinctKeys(r) && i < |r|
    ensures Get(r, r[i].key) == Some(r[i].value)
  {
    KeysCons(r);
    if i > 0 {
      assert Keys(r)[0] != Keys(r)[i];
      GetField(r[1..], i - 1);
    }
  }

  /** `obj[k] = v`: overwrite the field in place, or append a new one at the end. */
  function Assign(r: Record, k: string, v: Value): Record {
    if |r| == 0 then [Field(k, v)]
    else if r[0].key == k then [Field(k, v)] + r[1..]
    else [r[0]] + Assign(r[1..], k, v)
  }

  /** After `obj[k] = v` the key `k` reads `v` and every other key reads as before. */
  lemma {:induction false} AssignGet(r: Record, k: string, v: Value, k': string)
    ensures Get(Assign(r, k, v), k') == if k' == k then Some(v) else Get(r, k')
  {
    if |r| > 0 {
      var r' := Assign(r, k, v);
      KeysCons(r');
      if r[0].key != k {
        assert r'[1..] == Assign(r[1..], k, v);
        AssignGet(r[1..], k, v, k');
      } else {
        assert r'[1..] == r[1..];
      }
    }
  }

  /** An assignment keeps the key order and adds a new key at the end. */
  lemma {:induction false} AssignKeys(r: Record, k: string, v: Value)
    ensures Keys(Assign(r, k, v)) == if k in Keys(r) then Keys(r) else Keys(r) + [k]
  {
    if |r| > 0 {
      var r' := Assign(r, k, v);
      KeysCons(r);
      KeysCons(r');
      if r[0].key != k {
        assert r'[1..] == Assign(r[1..], k, v);
        AssignKeys(r[1..], k, v);
        assert k in Keys(r) <==> k in Keys(r[1..]);
        assert [r[0].key] + (Keys(r[1..]) + [k]) == ([r[0].key] + Keys(r[1..])) + [k];
      } else {
        assert r'[1..] == r[1..];
      }
    }
  }

  /** `{...base, ...extra}`: the fields of `extra` assigned onto `base`, left to right. */
  function Spread(base: Record, extra: Record): Record
    decreases |extra|
  {
    if |extra| == 0 then base
    else Assign(Spread(base, extra[..|extra| - 1]), extra[|extra| - 1].key, extra[|extra| - 1].value)
  }

  /**
    The keys of a spread are the base's keys followed by the extra keys the base
    lacks, each once, in first-occurrence order: JavaScript's property order.
   */
  lemma {:induction false} SpreadKeys(base: Record, extra: Record)
    requires DistinctKeys(base)
    ensures Keys(Spread(base, extra)) == Dedupe(Keys(base) + Keys(extra))
    decreases |extra|
  {
    if |extra| == 0 {
      DedupeOfDistinct(Keys(base));
      assert Keys(base) + Keys(extra) == Keys(base);
    } else {
      var init := extra[..|extra| - 1];
      var f := extra[|extra| - 1];
      assert extra == init + [f];
      KeysConcat(init, [f]);
      SpreadKeys(base, init);
      AssignKeys(Spread(base, init), f.key, f.value);
      assert Keys(base) + Keys(extra) == (Keys(base) + Keys(init)) + [f.key];
      DedupeSnoc(Keys(base) + Keys(init), f.key);
    }
  }

  /** When `extra` is a proper object, the spread takes each of its values exactly. */
  lemma {:induction false} SpreadGet(base: Record, extra: Record, k: string)
    requires DistinctKeys(extra)
    ensures Get(Spread(base, extra), k) == if k in Keys(extra) then Get(extra, k) else Get(base, k)
    decreases |extra|
  {
    if |extra| > 0 {
      var init := extra[..|extra| - 1];
      var f := extra[|extra| - 1];
      assert extra == init + [f];
      KeysConcat(init, [f]);
      assert Keys(extra)[..|init|] == Keys(init);
      SpreadGet(base, init, k);
      AssignGet(Spread(base, init), f.key, f.value, k);
      GetSnoc(init, f, k);
      assert f.key !in Keys(init) by {
        assert forall j :: 0 <= j < |init| ==> Keys(extra)[j] != Keys(extra)[|init|];
      }
    }
  }

  /** JavaScript and Python truthiness; `None` is `undefined`. */
  predicate Truthy(v: Option<Value>) {
    match v
    case None => false
    case Some(Str(s)) => |s| > 0
    case Some(Num(n)) => n != 0.0
    case Some(Bool(b)) => b
    case Some(Null) => false
  }

  /**
    JavaScript `String(v)`. Number formatting is not modelled: it is the
    parameter `numText`.
   */
  function JsString(v: Value, numText: real -> string): string {
    match v
    case Str(s) => s
    case Num(n) => numText(n)
    case Bool(b) => if b then "true" else "false"
    case Null => "null"
  }

  /** Python `str(v)`, with its own number formatting `pyNumText`. */
  function PyString(v: Value, pyNumText: real -> string): string {
    match v
    case Str(s) => s
    case Num(n) => pyNumText(n)
    case Bool(b) => if b then "True" else "False"
    case Null => "None"
  }

  /** A JavaScript number as arithmetic sees it: finite, or NaN. */
  datatype JsNum = Finite(x: real) | NaN

  /**
    JavaScript `Number(v)`: null and the empty or blank string are 0, booleans 1
    or 0, a decimal literal (after trimming) its value, anything else NaN.
   */
  function JsNumber(v: Option<Value>): (r: JsNum)
    ensures v.Some? && v.value.Num? ==> r == Finite(v.value.n)
    ensures v.None? ==> r.NaN?
    ensures v.Some? && v.value.Str? && ParseDecimal(Trim(v.value.s)).Some? ==> r == Finite(ParseDecimal(Trim(v.value.s)).value)
  {
    match v
    case None => NaN
    case Some(Num(n)) => Finite(n)
    case Some(Bool(b)) => Finite(if b then 1.0 else 0.0)
    case Some(Null) => Finite(0.0)
    case Some(Str(s)) =>
      var t := Trim(s);
      if |t| == 0 then Finite(0.0)
      else
        match ParseDecimal(t)
        case Some(x) => Finite(x)
        case None => NaN
  }

  function Abs(x: real): real {
    if x < 0.0 then -x else x
  }

  function Max(a: real, b: real): real {
    if a >= b then a else b
  }

  function Min(a: int, b: int): int {
    if a <= b then a else b
  }

  /**
    `Model.findById(id)` over stored documents: the first item whose id is
    `id`, or None when no item has it.
   */
  function FindById<T>(items: seq<T>, idOf: T -> string, id: string): (d: Option<T>)
    ensures d.Some? ==> d.value in items && idOf(d.value) == id
    ensures d.None? ==> forall k :: 0 <= k < |items| ==> idOf(items[k]) != id
  {
    if |items| == 0 then None
    else if idOf(items[0]) == id then Some(items[0])
    else FindById(items[1..], idOf, id)
  }

  /** The decimal text of an index, as a template literal renders it. */
  function IndexTag(prefix: string, i: nat): string {
    prefix + "-" + NatToString(i)
  }

  /** `{ id: `${prefix}-${i}`, ...item }`: the item's own `id`, if any, wins. */
  function Tagged(prefix: string, i: nat, item: Record): Record {
    Spread([Field("id", Str(IndexTag(prefix, i)))], item)
  }

  /** The tag is visible exactly when the item has no `id` of its own. */
  lemma TaggedId(prefix: string, i: nat, item: Record)
    requires DistinctKeys(item)
    ensures Get(Tagged(prefix, i, item), "id") ==
      if "id" in Keys(item) then Get(item, "id") else Some(Str(IndexTag(prefix, i)))
    ensures forall k :: k != "id" ==> Get(Tagged(prefix, i, item), k) == Get(item, k)
  {
    SpreadGet([Field("id", Str(IndexTag(prefix, i)))], item, "id");
    forall k | k != "id"
      ensures Get(Tagged(prefix, i, item), k) == Get(item, k)
    {
      SpreadGet([Field("id", Str(IndexTag(prefix, i)))], item, k);
      GetSpec(item, k);
    }
  }

  /** The keys of a tagged item: `id` first, then the item's keys in order. */
  lemma TaggedKeys(prefix: string, i: nat, item: Record)
    requires DistinctKeys(item)
    ensures Keys(Tagged(prefix, i, item)) == ["id"] + Without(Keys(item), "id")
  {
    var base := [Field("id", Str(IndexTag(prefix, i)))];
    assert Keys(base) == ["id"];
    SpreadKeys(base, item);
    DedupeAppend(["id"], Keys(item));
    assert Elements(["id"]) == {"id"};
    DedupeOfDistinct(["id"]);
    ExceptDistinct(Keys(item), {"id"});
    DedupeOfDistinct(Without(Keys(item), "id"));
  }
}
