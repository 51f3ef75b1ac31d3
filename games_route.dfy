/**
  The games route's `formatResponse`: every relative image URL in an
  upstream response gets the CDN origin. Arrays are formatted element by
  element; in an object, fifteen image keys are rewritten, `screenshots`
  entries (strings, or objects with a `url`) are rewritten, and every
  nested plain object is formatted the same way. A `null` entry in
  `screenshots` makes the JavaScript code throw (it reads `.url` of
  `null`); that outcome is `None` here.
 */
module GamesRoute {
  import opened Wrappers
  import opened JsonValues

  /** The image keys, in the order the code visits them. */
  const ImageKeys: seq<string> := [
    "cover", "icon", "backgroundImage", "background",
    "hero", "logo", "capsule", "header",
    "library_hero", "library_logo", "iconUrl",
    "coverImage", "coverUrl", "imageUrl", "thumbnail"
  ]

  const ScreenshotsKey := "screenshots"

  lemma ScreenshotsNotImageKey()
    ensures ScreenshotsKey !in ImageKeys
  {
    assert forall i :: 0 <= i < |ImageKeys| ==> ImageKeys[i][0] != 's' || ImageKeys[i] != ScreenshotsKey;
  }

  /** One `screenshots` entry: a string is rewritten, an object with a truthy `url` has that url rewritten. */
  function Shot(s: Json): Json {
    match s
    case Str(_) => Rewrite(s)
    case Obj(f) => if "url" in f && Truthy(f["url"]) then Obj(f["url" := Rewrite(f["url"])]) else s
    case _ => s
  }

  function Shots(items: seq<Json>): seq<Json> {
    seq(|items|, i requires 0 <= i < |items| => Shot(items[i]))
  }

  /** The object has a `screenshots` array with a `null` entry, on which the code throws. */
  predicate NullShot(m: map<string, Json>) {
    ScreenshotsKey in m && m[ScreenshotsKey].Arr? && Null in m[ScreenshotsKey].items
  }

  /** What an object's field becomes before nested objects are formatted. */
  function Plain(k: string, v: Json): Json {
    if k in ImageKeys then (if Truthy(v) then Rewrite(v) else v)
    else if k == ScreenshotsKey && v.Arr? then Arr(Shots(v.items))
    else v
  }

  /**
    The meaning of `formatResponse`, field by field: `Some` of what it
    returns, or `None` where it throws.
   */
  function Games(data: Json): Option<Json>
    decreases data, 1
  {
    if !Truthy(data) then Some(data)
    else match data
      case Arr(items) =>
        if exists i | 0 <= i < |items| :: Games(items[i]).None? then None
        else Some(Arr(seq(|items|, i requires 0 <= i < |items| => Games(items[i]).value)))
      case Obj(m) =>
        if NullShot(m) || exists k | k in m && m[k].Obj? :: Games(m[k]).None? then None
        else Some(Obj(Nested(m)))
      case _ => Some(data)
  }

  /** An object's fields once nested plain objects are formatted and the rest rewritten. */
  function Nested(m: map<string, Json>): map<string, Json>
    requires forall k | k in m && m[k].Obj? :: Games(m[k]).Some?
    decreases Obj(m), 0
  {
    map k | k in m :: if m[k].Obj? then Games(m[k]).value else Plain(k, m[k])
  }

  /** Rewriting before the recursion leaves nested objects as they are. */
  lemma PlainKeepsObjects(k: string, v: Json)
    ensures Plain(k, v).Obj? <==> v.Obj?
    ensures v.Obj? ==> Plain(k, v) == v
  {
    RewriteMeaning(v);
  }

  /** The screenshots loop; `None` where an entry is `null`. */
  method MapShots(items: seq<Json>) returns (r: Option<seq<Json>>)
    ensures r.None? <==> Null in items
    ensures r.Some? ==> r.value == Shots(items)
  {
    var out: seq<Json> := [];
    for i := 0 to |items|
      invariant Null !in items[..i]
      invariant out == Shots(items[..i])
    {
      var s := items[i];
      if s.Null? {
        assert s in items;
        return None;
      }
      var t := s;
      if s.Str? {
        t := Rewrite(s);
      } else if s.Obj? && "url" in s.fields && Truthy(s.fields["url"]) {
        t := Obj(s.fields["url" := Rewrite(s.fields["url"])]);
      }
      assert items[..i + 1] == items[..i] + [s];
      out := out + [t];
    }
    assert items[..|items|] == items;
    return Some(out);
  }

  /** The image-key loop and the screenshots step of one object. */
  method RewriteFields(m: map<string, Json>) returns (r: Option<map<string, Json>>)
    ensures r.None? <==> NullShot(m)
    ensures r.Some? ==> r.value.Keys == m.Keys && forall k :: k in m ==> r.value[k] == Plain(k, m[k])
  {
    var newData := RewriteImageKeys(m);
    RewriteKeysEffect(m, ImageKeys);
    ScreenshotsNotImageKey();
    if ScreenshotsKey in newData && newData[ScreenshotsKey].Arr? {
      var shots := MapShots(newData[ScreenshotsKey].items);
      if shots.None? {
        return None;
      }
      newData := newData[ScreenshotsKey := Arr(shots.value)];
    }
    return Some(newData);
  }

  /** The loop over the image keys: a truthy value under each key in turn is rewritten. */
  method RewriteImageKeys(m: map<string, Json>) returns (newData: map<string, Json>)
    ensures newData == RewriteKeys(m, ImageKeys)
  {
    newData := m;
    for i := 0 to |ImageKeys|
      invariant newData == RewriteKeys(m, ImageKeys[..i])
    {
      var key := ImageKeys[i];
      if key in newData && Truthy(newData[key]) {
        newData := newData[key := Rewrite(newData[key])];
      }
      assert ImageKeys[..i + 1][..i] == ImageKeys[..i];
    }
    assert ImageKeys[..|ImageKeys|] == ImageKeys;
  }

  /** `formatResponse`: `None` where the code throws. */
  method FormatResponse(data: Json) returns (r: Option<Json>)
    ensures r == Games(data)
    decreases data, 1
  {
    if !Truthy(data) {
      return Some(data);
    }
    match data
    case Arr(items) => {
      var out: seq<Json> := [];
      for i := 0 to |items|
        invariant |out| == i
        invariant forall j :: 0 <= j < i ==> Games(items[j]).Some? && out[j] == Games(items[j]).value
      {
        var x := FormatResponse(items[i]);
        if x.None? {
          return None;
        }
        out := out + [x.value];
      }
      assert out == seq(|items|, i requires 0 <= i < |items| => Games(items[i]).value);
      return Some(Arr(out));
    }
    case Obj(m) => {
      var fields := RewriteFields(m);
      if fields.None? {
        return None;
      }
      var nested := FormatNested(m, fields.value);
      if nested.None? {
        return None;
      }
      return Some(Obj(nested.value));
    }
    case _ => {
      return Some(data);
    }
  }

  /** The loop over an object's keys that formats each nested plain object. */
  method FormatNested(m: map<string, Json>, fields: map<string, Json>) returns (r: Option<map<string, Json>>)
    requires fields.Keys == m.Keys && forall k :: k in m ==> fields[k] == Plain(k, m[k])
    ensures r.None? <==> exists k | k in m && m[k].Obj? :: Games(m[k]).None?
    ensures r.Some? ==> r.value == Nested(m)
    decreases Obj(m), 0
  {
    var newData := fields;
    var keys := newData.Keys;
    while keys != {}
      invariant NestedSoFar(m, newData, keys)
      decreases keys
    {
      var key :| key in keys;
      PlainKeepsObjects(key, m[key]);
      ghost var before := newData;
      if newData[key].Obj? {
        var sub := FormatResponse(newData[key]);
        if sub.None? {
          return None;
        }
        newData := newData[key := sub.value];
      }
      NestedStep(m, before, keys, key, newData);
      keys := keys - {key};
    }
    NestedDone(m, newData);
    return Some(newData);
  }

  /**
    The loop invariant: the keys still to visit hold their field-by-field
    value, and every visited plain object has been formatted.
   */
  ghost predicate NestedSoFar(m: map<string, Json>, newData: map<string, Json>, keys: set<string>) {
    && keys <= m.Keys && newData.Keys == m.Keys
    && (forall k :: k in keys ==> newData[k] == Plain(k, m[k]))
    && (forall k :: k in m && k !in keys && m[k].Obj? ==> Games(m[k]).Some? && newData[k] == Games(m[k]).value)
    && (forall k :: k in m && k !in keys && !m[k].Obj? ==> newData[k] == Plain(k, m[k]))
  }

  /** Visiting one key keeps the invariant. */
  lemma NestedStep(m: map<string, Json>, before: map<string, Json>, keys: set<string>, key: string, after: map<string, Json>)
    requires key in keys && NestedSoFar(m, before, keys)
    requires m[key].Obj? ==> Games(m[key]).Some? && after == before[key := Games(m[key]).value]
    requires !m[key].Obj? ==> after == before
    ensures NestedSoFar(m, after, keys - {key})
  {
    PlainKeepsObjects(key, m[key]);
  }

  /** With every key visited, the invariant is the nested result. */
  lemma NestedDone(m: map<string, Json>, newData: map<string, Json>)
    requires NestedSoFar(m, newData, {})
    ensures forall k | k in m && m[k].Obj? :: Games(m[k]).Some?
    ensures newData == Nested(m)
  {
  }

  /** A value with a `null` somewhere in it, at any depth. */
  ghost predicate ContainsNull(d: Json) {
    match d
    case Null => true
    case Arr(items) => exists i | 0 <= i < |items| :: ContainsNull(items[i])
    case Obj(m) => exists k | k in m :: ContainsNull(m[k])
    case _ => false
  }

  /**
    Formatting keeps the shape of the response: a scalar comes back as it
    was (a relative URL at the top is not rewritten), an array as an array
    of the same length, an object as an object with the same keys.
   */
  lemma GamesKeepsShape(d: Json)
    requires Games(d).Some?
    ensures !d.Arr? && !d.Obj? ==> Games(d).value == d
    ensures d.Arr? ==> Games(d).value.Arr? && |Games(d).value.items| == |d.items|
    ensures d.Obj? ==> Games(d).value.Obj? && Games(d).value.fields.Keys == d.fields.Keys
  {
  }

  /** A `screenshots` entry changes only where it is a relative URL or holds one under `url`. */
  lemma ShotMeaning(s: Json)
    ensures Shot(s) == Null <==> s == Null
    ensures Shot(s) != s ==>
              (IsRelative(s) && Shot(s) == Str(Cdn + s.s))
              || (s.Obj? && "url" in s.fields && IsRelative(s.fields["url"])
                  && Shot(s) == Obj(s.fields["url" := Str(Cdn + s.fields["url"].s)]))
    ensures Shot(Shot(s)) == Shot(s)
  {
    RewriteMeaning(s);
    if s.Obj? && "url" in s.fields {
      RewriteMeaning(s.fields["url"]);
      if Truthy(s.fields["url"]) && !IsRelative(s.fields["url"]) {
        assert s.fields["url" := s.fields["url"]] == s.fields;
      }
    }
  }

  lemma ShotsIdempotent(items: seq<Json>)
    ensures Shots(Shots(items)) == Shots(items)
    ensures Null in Shots(items) <==> Null in items
  {
    forall i | 0 <= i < |items| {
      ShotMeaning(items[i]);
    }
    if Null in Shots(items) {
      var i :| 0 <= i < |items| && Shots(items)[i] == Null;
      assert items[i] == Null;
    }
    if Null in items {
      var i :| 0 <= i < |items| && items[i] == Null;
      assert Shots(items)[i] == Null;
    }
  }

  lemma PlainIdempotent(k: string, v: Json)
    ensures Plain(k, Plain(k, v)) == Plain(k, v)
  {
    RewriteMeaning(v);
    ScreenshotsNotImageKey();
    if k == ScreenshotsKey && v.Arr? {
      ShotsIdempotent(v.items);
    }
  }

  /**
    In an object, a field that is not a nested object changes only where it
    is a relative URL under an image key (which becomes the CDN URL) or the
    `screenshots` array (whose entries change as `ShotMeaning` says); a
    nested object is formatted in turn; a nested array under any other key
    is left as it is.
   */
  lemma GamesFields(m: map<string, Json>)
    requires Games(Obj(m)).Some?
    ensures forall k | k in m :: k in Games(Obj(m)).value.fields
    ensures forall k | k in m && m[k].Obj? :: Games(m[k]) == Some(Games(Obj(m)).value.fields[k])
    ensures forall k | k in m && !m[k].Obj? && Games(Obj(m)).value.fields[k] != m[k] ::
              (k in ImageKeys && IsRelative(m[k]) && Games(Obj(m)).value.fields[k] == Str(Cdn + m[k].s))
              || (k == ScreenshotsKey && m[k].Arr? && Games(Obj(m)).value.fields[k] == Arr(Shots(m[k].items)))
    ensures ScreenshotsKey in m && m[ScreenshotsKey].Arr? ==>
              |Shots(m[ScreenshotsKey].items)| == |m[ScreenshotsKey].items|
  {
    forall k | k in m && !m[k].Obj? {
      RewriteMeaning(m[k]);
    }
  }

  /** A `null` entry in `screenshots` makes formatting throw. */
  lemma NullShotThrows(m: map<string, Json>)
    requires NullShot(m)
    ensures Games(Obj(m)).None?
  {
  }

  /** A response with no `null` anywhere in it is always formatted. */
  lemma {:induction false} NoNullNoThrow(d: Json)
    requires !ContainsNull(d)
    ensures Games(d).Some?
    decreases d
  {
    match d
    case Arr(items) => {
      forall i | 0 <= i < |items| ensures Games(items[i]).Some? {
        assert !ContainsNull(items[i]);
        NoNullNoThrow(items[i]);
      }
    }
    case Obj(m) => {
      if ScreenshotsKey in m && m[ScreenshotsKey].Arr? {
        var shots := m[ScreenshotsKey].items;
        assert !ContainsNull(m[ScreenshotsKey]);
        forall i | 0 <= i < |shots| ensures shots[i] != Null {
          assert !ContainsNull(shots[i]);
        }
      }
      forall k | k in m && m[k].Obj? ensures Games(m[k]).Some? {
        assert !ContainsNull(m[k]);
        NoNullNoThrow(m[k]);
      }
    }
    case _ => {
    }
  }

  /** Formatting a formatted response changes nothing more. */
  lemma {:induction false} GamesIdempotent(d: Json)
    requires Games(d).Some?
    ensures Games(Games(d).value) == Games(d)
    decreases d
  {
    var e := Games(d).value;
    if !Truthy(d) {
      return;
    }
    match d
    case Arr(items) => {
      var es := e.items;
      forall i | 0 <= i < |items| ensures Games(es[i]) == Some(es[i]) {
        GamesIdempotent(items[i]);
      }
      assert es == seq(|es|, i requires 0 <= i < |es| => Games(es[i]).value);
    }
    case Obj(m) => {
      var n := e.fields;
      assert n == Nested(m);
      forall k | k in m ensures n[k].Obj? <==> m[k].Obj? {
        PlainKeepsObjects(k, m[k]);
        if m[k].Obj? {
          GamesKeepsShape(m[k]);
        }
      }
      forall k | k in m && m[k].Obj? ensures Games(n[k]) == Some(n[k]) {
        GamesIdempotent(m[k]);
      }
      if ScreenshotsKey in n && n[ScreenshotsKey].Arr? {
        var v := m[ScreenshotsKey];
        ScreenshotsNotImageKey();
        assert n[ScreenshotsKey] == Plain(ScreenshotsKey, v);
        assert v.Arr?;
        ShotsIdempotent(v.items);
      }
      assert !NullShot(n);
      forall k | k in m && !m[k].Obj? ensures Plain(k, n[k]) == n[k] {
        PlainIdempotent(k, m[k]);
      }
      assert Nested(n) == n;
    }
    case _ => {
    }
  }
}
