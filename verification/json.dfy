/** The value `json.loads` hands back, and the three Python operations the
    quiz code applies to it: `dict.get(key, default)`, `list(value)` and the
    prefix slice `value[:n]`. Each of the latter two can raise in Python;
    that is `None` here. */
module JsonValue {

  datatype Option<+T> = None | Some(value: T)

  /** A parsed JSON value. An object keeps its members in document order;
      it stands for the dict `json.loads` built, so its names are distinct.
      Numbers are Python's `int` or `float`, which `str()` renders
      differently (`1` and `1.0`). */
  datatype Json =
    | Null
    | Bool(b: bool)
    | Int(i: int)
    | Float(f: real)
    | Str(s: string)
    | Arr(items: seq<Json>)
    | Obj(members: seq<(string, Json)>)

  /** The value bound to `key`, if any. */
  function Lookup(members: seq<(string, Json)>, key: string): (r: Option<Json>)
    ensures r.None? <==> forall k :: 0 <= k < |members| ==> members[k].0 != key
    ensures r.Some? ==> exists k :: 0 <= k < |members| && members[k] == (key, r.value)
  {
    if |members| == 0 then None
    else if members[0].0 == key then Some(members[0].1)
    else
      var r := Lookup(members[1..], key);
      assert r.Some? ==> exists k :: 0 <= k < |members| && members[k] == (key, r.value) by {
        if r.Some? {
          var k :| 0 <= k < |members[1..]| && members[1..][k] == (key, r.value);
          assert members[k + 1] == (key, r.value);
        }
      }
      r
  }

  /** Python's `d.get(key, default)` on a dict. */
  function Get(members: seq<(string, Json)>, key: string, default: Json): (r: Json)
    ensures (forall k :: 0 <= k < |members| ==> members[k].0 != key) ==> r == default
    ensures (exists k :: 0 <= k < |members| && members[k].0 == key) ==>
              exists k :: 0 <= k < |members| && members[k] == (key, r)
  {
    match Lookup(members, key)
    case Some(v) => v
    case None => default
  }

  /** The one-character strings a Python string iterates over. */
  function Chars(s: string): (r: seq<Json>)
    ensures |r| == |s|
    ensures forall k :: 0 <= k < |s| ==> r[k] == Str([s[k]])
  {
    seq(|s|, k requires 0 <= k < |s| => Str([s[k]]))
  }

  /** The member names of an object, in order. */
  function Keys(members: seq<(string, Json)>): (r: seq<Json>)
    ensures |r| == |members|
    ensures forall k :: 0 <= k < |members| ==> r[k] == Str(members[k].0)
  {
    seq(|members|, k requires 0 <= k < |members| => Str(members[k].0))
  }

  /** Python's `list(v)`: the items of a list, the characters of a string,
      the keys of a dict; any other value is not iterable. */
  function AsList(v: Json): (r: Option<seq<Json>>)
    ensures r.Some? <==> (v.Arr? || v.Str? || v.Obj?)
    ensures v.Arr? ==> r == Some(v.items)
    ensures v.Str? ==> r.Some? && |r.value| == |v.s|
    ensures v.Str? ==> forall k :: 0 <= k < |v.s| ==> r.value[k] == Str([v.s[k]])
    ensures v.Obj? ==> r.Some? && |r.value| == |v.members|
    ensures v.Obj? ==> forall k :: 0 <= k < |v.members| ==> r.value[k] == Str(v.members[k].0)
  {
    match v
    case Arr(items) => Some(items)
    case Str(s) => Some(Chars(s))
    case Obj(members) => Some(Keys(members))
    case _ => None
  }

  /** The smaller of two integers. */
  function Min(a: int, b: int): int {
    if a <= b then a else b
  }

  /** Python's `v[:n]` followed by iteration: the first `n` items of a list,
      or the first `n` characters of a string; a number, boolean, null or
      dict cannot be sliced this way. */
  function Take(v: Json, n: nat): (r: Option<seq<Json>>)
    ensures r.Some? <==> (v.Arr? || v.Str?)
    ensures v.Arr? ==> r == Some(v.items[..Min(n, |v.items|)])
    ensures v.Str? ==> r.Some? && |r.value| == Min(n, |v.s|)
    ensures v.Str? ==> forall k :: 0 <= k < |r.value| ==> r.value[k] == Str([v.s[k]])
    ensures r.Some? ==> |r.value| <= n
  {
    match v
    case Arr(items) => Some(items[..Min(n, |items|)])
    case Str(s) => Some(Chars(s[..Min(n, |s|)]))
    case _ => None
  }
}
