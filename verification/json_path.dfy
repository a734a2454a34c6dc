/** Decoded JSON documents and the dotted-path accessor `getjs` (github.py:174-184). */
module JsonPath {
  import opened Outcomes
  import opened Strings

  /** A decoded JSON value. Objects are maps: the decoder keeps the last of duplicate keys. */
  datatype Json =
    | Null
    | Bool(b: bool)
    | Num(n: int)
    | Str(s: string)
    | Arr(items: seq<Json>)
    | Obj(fields: map<string, Json>)

  /** `js[key]` with a string key: a `KeyError` on an object without `key`, a
      `TypeError` on every value that is not an object. */
  function Lookup(js: Json, key: string): (r: Result<Json>)
    ensures r.Ok? <==> js.Obj? && key in js.fields
    ensures r.Ok? ==> r.value == js.fields[key]
    ensures r.Err? ==> r.error == (if js.Obj? then KeyNotFound(key) else NotAnObject(key))
  {
    match js
    case Obj(fields) => if key in fields then Ok(fields[key]) else Err(KeyNotFound(key))
    case _ => Err(NotAnObject(key))
  }

  /** Python truthiness of a decoded JSON value. */
  predicate Truthy(js: Json) {
    match js
    case Null => false
    case Bool(b) => b
    case Num(n) => n != 0
    case Str(s) => s != ""
    case Arr(items) => items != []
    case Obj(fields) => fields != map[]
  }

  /** `getjs(js, path)`: split the path at its first dot, index with the head, recurse on the rest. */
  function GetJs(js: Json, path: string): Result<Json>
    decreases |path|
  {
    match SplitOnce(path, ".")
    case None => Lookup(js, path)
    case Some((head, rest)) =>
      var child :- Lookup(js, head);
      GetJs(child, rest)
  }

  /** The reference walk: index with each segment in turn. */
  function Walk(js: Json, segments: seq<string>): (r: Result<Json>)
    ensures r.Err? ==> (r.error.KeyNotFound? || r.error.NotAnObject?) && r.error.key in segments
  {
    if segments == [] then Ok(js)
    else
      var child :- Lookup(js, segments[0]);
      Walk(child, segments[1..])
  }

  /** `getjs` is the walk over the path's dot-separated segments. */
  lemma {:induction false} GetJsIsWalk(js: Json, path: string)
    ensures GetJs(js, path) == Walk(js, Split(path, "."))
    decreases |path|
  {
    match SplitOnce(path, ".")
    case None =>
      FindAbsent(path, ".");
    case Some((head, rest)) =>
      var i := Find(path, ".");
      assert Split(path, ".") == [head] + Split(rest, ".");
      match Lookup(js, head)
      case Err(_) =>
      case Ok(child) =>
        GetJsIsWalk(child, rest);
        assert ([head] + Split(rest, "."))[1..] == Split(rest, ".");
  }

  /** Resolving `a.b` is resolving `a` and then resolving `b` inside the result. */
  lemma {:induction false} GetJsConcat(js: Json, a: string, b: string)
    ensures GetJs(js, a + "." + b)
         == match GetJs(js, a) case Ok(v) => GetJs(v, b) case Err(e) => Err(e)
    decreases |a|
  {
    match SplitOnce(a, ".")
    case None =>
      IsolatedChar(a, '.');
      SplitOnceAt(a, ".", b);
    case Some((head, rest)) =>
      assert a + "." + b == head + "." + (rest + "." + b);
      SplitOnceAt(head, ".", rest + "." + b);
      match Lookup(js, head)
      case Err(_) =>
      case Ok(child) =>
        GetJsConcat(child, rest, b);
  }

  /** Resolution fails exactly when some segment is not a key of the object reached so far. */
  lemma {:induction false} WalkFailsOnMissingSegment(js: Json, segments: seq<string>)
    ensures Walk(js, segments).Err? <==>
      exists k :: 0 <= k < |segments| && Walk(js, segments[..k]).Ok?
        && Lookup(Walk(js, segments[..k]).value, segments[k]).Err?
    decreases |segments|
  {
    if segments != [] {
      assert segments[..0] == [];
      match Lookup(js, segments[0])
      case Err(_) =>
      case Ok(child) =>
        var tail := segments[1..];
        WalkFailsOnMissingSegment(child, tail);
        forall k | 1 <= k <= |segments|
          ensures Walk(js, segments[..k]) == Walk(child, tail[..k - 1])
        {
          assert segments[..k][1..] == tail[..k - 1];
        }
        if Walk(js, segments).Err? {
          var k :| 0 <= k < |tail| && Walk(child, tail[..k]).Ok?
            && Lookup(Walk(child, tail[..k]).value, tail[k]).Err?;
          assert Walk(js, segments[..k + 1]) == Walk(child, tail[..k]);
        } else {
          forall k | 0 <= k < |segments| && Walk(js, segments[..k]).Ok?
            ensures Lookup(Walk(js, segments[..k]).value, segments[k]).Ok?
          {
            if k > 0 {
              assert Walk(js, segments[..k]) == Walk(child, tail[..k - 1]);
            }
          }
        }
    }
  }
}
