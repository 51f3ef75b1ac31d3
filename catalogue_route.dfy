/**
  The catalogue route's `formatResponse`: the shallow variant of the games
  route's. Arrays are formatted element by element; in an object only
  `cover`, `icon` and `backgroundImage` are rewritten, and only string
  entries of `screenshots`; nested objects are not visited.
 */
module CatalogueRoute {
  import opened Wrappers
  import opened JsonValues
  import GamesRoute

  const CatalogueKeys: seq<string> := ["cover", "icon", "backgroundImage"]

  lemma ScreenshotsNotCatalogueKey()
    ensures GamesRoute.ScreenshotsKey !in CatalogueKeys
  {
  }

  /** A `screenshots` entry: strings are rewritten, anything else is kept. */
  function StringShot(s: Json): Json {
    if s.Str? then Rewrite(s) else s
  }

  function StringShots(items: seq<Json>): seq<Json> {
    seq(|items|, i requires 0 <= i < |items| => StringShot(items[i]))
  }

  /** `formatResponse` of the catalogue route: it keeps the kind and the truthiness of the value. */
  function Catalogue(data: Json): (r: Json)
    decreases data, 1
    ensures r.Arr? == data.Arr? && r.Obj? == data.Obj? && r.Str? == data.Str?
    ensures Truthy(r) == Truthy(data)
  {
    if !Truthy(data) then data
    else match data
      case Arr(items) => Arr(CatalogueEach(items))
      case Obj(m) =>
        var m1 := RewriteKeys(m, CatalogueKeys);
        var sc := GamesRoute.ScreenshotsKey;
        Obj(if sc in m1 && m1[sc].Arr? then m1[sc := Arr(StringShots(m1[sc].items))] else m1)
      case _ => data
  }

  /** An array's elements, each formatted. */
  function CatalogueEach(items: seq<Json>): (r: seq<Json>)
    decreases items, 0
    ensures |r| == |items|
    ensures forall i :: 0 <= i < |items| ==> r[i] == Catalogue(items[i])
  {
    seq(|items|, i requires 0 <= i < |items| => Catalogue(items[i]))
  }

  /**
    Formatting keeps the shape of the response: a scalar comes back as it
    was, an array as an array of the same length, an object as an object
    with the same keys.
   */
  lemma CatalogueKeepsShape(d: Json)
    ensures !d.Arr? && !d.Obj? ==> Catalogue(d) == d
    ensures d.Arr? ==> Catalogue(d).Arr? && |Catalogue(d).items| == |d.items|
    ensures d.Obj? ==> Catalogue(d).Obj? && Catalogue(d).fields.Keys == d.fields.Keys
  {
    if d.Obj? {
      RewriteKeysEffect(d.fields, CatalogueKeys);
    }
  }

  /** What one field of an object becomes, read independently of the other fields. */
  function Field(k: string, v: Json): Json {
    if k in CatalogueKeys then Rewrite(v)
    else if k == GamesRoute.ScreenshotsKey && v.Arr? then Arr(StringShots(v.items))
    else v
  }

  /** The key-by-key loop and the screenshots step amount to formatting each field on its own. */
  lemma CatalogueByField(m: map<string, Json>)
    ensures Catalogue(Obj(m)) == Obj(map k | k in m :: Field(k, m[k]))
  {
    var sc := GamesRoute.ScreenshotsKey;
    var m1 := RewriteKeys(m, CatalogueKeys);
    var n := Catalogue(Obj(m)).fields;
    var f := map k | k in m :: Field(k, m[k]);
    RewriteKeysEffect(m, CatalogueKeys);
    ScreenshotsNotCatalogueKey();
    assert n == if sc in m1 && m1[sc].Arr? then m1[sc := Arr(StringShots(m1[sc].items))] else m1;
    assert n.Keys == f.Keys;
    forall k | k in m ensures n[k] == f[k] {
      RewriteMeaning(m[k]);
      if k == sc {
        assert m1[k] == m[k];
      }
    }
    assert n == f;
  }

  /**
    In an object, a field changes only where it is a relative URL under one
    of the three keys (and becomes the CDN URL) or is the `screenshots`
    array (whose string entries are rewritten and the rest kept); nested
    objects and nested arrays under other keys are left as they are.
   */
  lemma CatalogueFields(m: map<string, Json>)
    ensures Catalogue(Obj(m)).fields.Keys == m.Keys
    ensures forall k | k in m && k != GamesRoute.ScreenshotsKey && Catalogue(Obj(m)).fields[k] != m[k] ::
              k in CatalogueKeys && IsRelative(m[k]) && Catalogue(Obj(m)).fields[k] == Str(Cdn + m[k].s)
    ensures var sc := GamesRoute.ScreenshotsKey;
            sc in m ==>
              Catalogue(Obj(m)).fields[sc] == if m[sc].Arr? then Arr(StringShots(m[sc].items)) else m[sc]
    ensures forall k | k in m && m[k].Obj? :: Catalogue(Obj(m)).fields[k] == m[k]
  {
    CatalogueByField(m);
    ScreenshotsNotCatalogueKey();
    forall k | k in m {
      RewriteMeaning(m[k]);
    }
  }

  lemma FieldIdempotent(k: string, v: Json)
    ensures Field(k, Field(k, v)) == Field(k, v)
  {
    RewriteMeaning(v);
    ScreenshotsNotCatalogueKey();
    if k == GamesRoute.ScreenshotsKey && v.Arr? {
      var xs := v.items;
      forall i | 0 <= i < |xs| ensures StringShot(StringShot(xs[i])) == StringShot(xs[i]) {
        RewriteMeaning(xs[i]);
      }
      assert StringShots(StringShots(xs)) == StringShots(xs);
    }
  }

  /** Formatting a formatted response changes nothing more. */
  lemma {:induction false} CatalogueIdempotent(d: Json)
    ensures Catalogue(Catalogue(d)) == Catalogue(d)
    decreases d
  {
    if !Truthy(d) {
      return;
    }
    match d
    case Arr(items) => {
      var es := Catalogue(d).items;
      forall i | 0 <= i < |items| ensures Catalogue(es[i]) == es[i] {
        CatalogueIdempotent(items[i]);
      }
      assert Catalogue(Catalogue(d)).items == es;
    }
    case Obj(m) => {
      var n := Catalogue(d).fields;
      CatalogueByField(m);
      CatalogueByField(n);
      forall k | k in m ensures Field(k, n[k]) == n[k] {
        FieldIdempotent(k, m[k]);
      }
      assert Catalogue(Obj(n)).fields == n;
    }
    case _ => {
    }
  }

  /**
    On a flat object (no nested objects, none of the twelve image keys only
    the games route knows, `screenshots` entries all strings) the two
    routes format alike; the games route's keys include the catalogue's.
   */
  lemma AgreesWithGames(m: map<string, Json>)
    requires forall k | k in m :: !m[k].Obj?
    requires forall k | k in m :: k in CatalogueKeys || k !in GamesRoute.ImageKeys
    requires var sc := GamesRoute.ScreenshotsKey;
             sc in m && m[sc].Arr? ==> forall i | 0 <= i < |m[sc].items| :: m[sc].items[i].Str?
    ensures forall k | k in CatalogueKeys :: k in GamesRoute.ImageKeys
    ensures GamesRoute.Games(Obj(m)) == Some(Catalogue(Obj(m)))
  {
    CatalogueKeysAreImageKeys();
    var sc := GamesRoute.ScreenshotsKey;
    if sc in m && m[sc].Arr? {
      StringShotsAgree(m[sc].items);
    }
    assert !GamesRoute.NullShot(m);
    GamesOnFlat(m);
    CatalogueByField(m);
    PlainsAreFields(m);
  }

  lemma PlainsAreFields(m: map<string, Json>)
    requires forall k | k in m :: k in CatalogueKeys || k !in GamesRoute.ImageKeys
    requires var sc := GamesRoute.ScreenshotsKey;
             sc in m && m[sc].Arr? ==> GamesRoute.Shots(m[sc].items) == StringShots(m[sc].items)
    ensures (map k | k in m :: GamesRoute.Plain(k, m[k])) == (map k | k in m :: Field(k, m[k]))
  {
    var g := map k | k in m :: GamesRoute.Plain(k, m[k]);
    var f := map k | k in m :: Field(k, m[k]);
    forall k | k in m ensures g[k] == f[k] {
      PlainIsField(k, m[k]);
    }
    assert g == f;
  }

  /** The catalogue's three keys are the first three of the games route's. */
  lemma CatalogueKeysAreImageKeys()
    ensures forall k | k in CatalogueKeys :: k in GamesRoute.ImageKeys
  {
    assert CatalogueKeys == GamesRoute.ImageKeys[..3];
  }

  /** On string entries the two routes' `screenshots` steps agree, and there is no `null` entry. */
  lemma StringShotsAgree(xs: seq<Json>)
    requires forall i | 0 <= i < |xs| :: xs[i].Str?
    ensures Null !in xs && GamesRoute.Shots(xs) == StringShots(xs)
  {
  }

  /** One field that is not an object, under a key both routes treat alike. */
  lemma PlainIsField(k: string, v: Json)
    requires k in CatalogueKeys || k !in GamesRoute.ImageKeys
    requires k == GamesRoute.ScreenshotsKey && v.Arr? ==> GamesRoute.Shots(v.items) == StringShots(v.items)
    ensures GamesRoute.Plain(k, v) == Field(k, v)
  {
    CatalogueKeysAreImageKeys();
    GamesRoute.ScreenshotsNotImageKey();
    ScreenshotsNotCatalogueKey();
    RewriteMeaning(v);
  }

  /** Without nested objects and `null` screenshots the games route formats field by field. */
  lemma GamesOnFlat(m: map<string, Json>)
    requires forall k | k in m :: !m[k].Obj?
    requires !GamesRoute.NullShot(m)
    ensures GamesRoute.Games(Obj(m)) == Some(Obj(map k | k in m :: GamesRoute.Plain(k, m[k])))
  {
    var n := GamesRoute.Nested(m);
    assert GamesRoute.Games(Obj(m)) == Some(Obj(n));
    assert n == map k | k in m :: GamesRoute.Plain(k, m[k]);
  }
}
