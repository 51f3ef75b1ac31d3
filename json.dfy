/**
  JSON values as the route handlers see them, JavaScript truthiness, and
  the `rewrite` helper both `formatResponse` functions share: a relative
  URL (a string starting with `/`) gets the CDN origin put in front.
 */
module JsonValues {
  import opened Text

  /** A JSON value; an object's key order is not kept. */
  datatype Json =
    | Null
    | Bool(b: bool)
    | Num(n: int)
    | Str(s: string)
    | Arr(items: seq<Json>)
    | Obj(fields: map<string, Json>)

  /** JavaScript truthiness: `null`, `false`, `0` and `""` are falsy, arrays and objects are truthy. */
  predicate Truthy(v: Json) {
    match v
    case Null => false
    case Bool(b) => b
    case Num(n) => n != 0
    case Str(s) => s != ""
    case Arr(_) => true
    case Obj(_) => true
  }

  const Cdn := "https://cdn.losbroxas.org"

  predicate IsRelative(v: Json) {
    v.Str? && StartsWith(v.s, "/")
  }

  /** `rewrite`: what it returns is never a relative URL. */
  function Rewrite(v: Json): (r: Json)
    ensures !IsRelative(r)
  {
    if IsRelative(v) then
      var u := Cdn + v.s;
      assert u[0] == 'h';
      Str(u)
    else v
  }

  /**
    `rewrite` changes only relative URLs, and turns each into the CDN
    origin followed by the path; what it returns is never relative, so a
    second call changes nothing, and it keeps truthiness and kind.
   */
  lemma RewriteMeaning(v: Json)
    ensures Rewrite(v) != v <==> IsRelative(v)
    ensures IsRelative(v) ==> Rewrite(v).Str? && StartsWith(Rewrite(v).s, Cdn) && Rewrite(v).s[|Cdn|..] == v.s
    ensures !IsRelative(Rewrite(v))
    ensures Rewrite(Rewrite(v)) == Rewrite(v)
    ensures Truthy(Rewrite(v)) == Truthy(v)
    ensures Rewrite(v).Str? == v.Str? && Rewrite(v).Obj? == v.Obj? && Rewrite(v).Arr? == v.Arr?
  {
    if IsRelative(v) {
      var r := Cdn + v.s;
      assert r[..|Cdn|] == Cdn;
      assert r[0] == 'h';
      assert |r| != |v.s|;
    }
  }

  /**
    The image-key loop: for each key in turn, a truthy value under it is
    rewritten.
   */
  function RewriteKeys(m: map<string, Json>, keys: seq<string>): map<string, Json> {
    if keys == [] then m
    else
      var m' := RewriteKeys(m, keys[..|keys| - 1]);
      var k := keys[|keys| - 1];
      if k in m' && Truthy(m'[k]) then m'[k := Rewrite(m'[k])] else m'
  }

  /**
    The image-key loop keeps the object's keys, rewrites a truthy value
    under a listed key, and leaves everything else alone.
   */
  lemma {:induction false} RewriteKeysEffect(m: map<string, Json>, keys: seq<string>)
    ensures RewriteKeys(m, keys).Keys == m.Keys
    ensures forall k :: k in m ==>
              RewriteKeys(m, keys)[k] == if k in keys && Truthy(m[k]) then Rewrite(m[k]) else m[k]
  {
    if keys != [] {
      var init := keys[..|keys| - 1];
      var last := keys[|keys| - 1];
      RewriteKeysEffect(m, init);
      assert forall k :: k in keys <==> k in init || k == last;
      if last in m {
        RewriteMeaning(m[last]);
      }
    }
  }
}
