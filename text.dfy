/**
  The JavaScript string built-ins the patcher and the route helpers rely on,
  as pure functions over `string`: `startsWith`, `endsWith`, `substring`,
  `includes`, `indexOf`, `split` with a non-empty separator and `join`.
  `Split` then `Join` is how `patchContent` replaces every occurrence of a
  pattern, so the lemmas at the end say when that leaves no occurrence behind.
 */
module Text {
  import opened Wrappers

  /** `s.startsWith(p)` */
  predicate StartsWith(s: string, p: string) {
    |p| <= |s| && s[..|p|] == p
  }

  /** `s.endsWith(p)` */
  predicate EndsWith(s: string, p: string) {
    |p| <= |s| && s[|s| - |p|..] == p
  }

  /** `p` occurs in `s` starting at index `i`. */
  predicate OccursAt(s: string, p: string, i: int) {
    0 <= i && i + |p| <= |s| && s[i..i + |p|] == p
  }

  /** `s.includes(p)` */
  predicate Contains(s: string, p: string) {
    exists i | 0 <= i <= |s| - |p| :: OccursAt(s, p, i)
  }

  /** `s.indexOf(p, from)`: the leftmost occurrence at or after `from`. */
  function IndexOf(s: string, p: string, from: nat): (r: Option<nat>)
    decreases |s| - from
    ensures r.Some? ==> from <= r.value && OccursAt(s, p, r.value)
    ensures r.Some? ==> forall j :: from <= j < r.value ==> !OccursAt(s, p, j)
    ensures r.None? ==> forall j :: from <= j ==> !OccursAt(s, p, j)
  {
    if |s| < from + |p| then None
    else if OccursAt(s, p, from) then Some(from)
    else IndexOf(s, p, from + 1)
  }

  lemma OccursInPrefix(s: string, p: string, i: nat, j: int)
    requires i <= |s|
    ensures OccursAt(s[..i], p, j) ==> OccursAt(s, p, j)
  {
    if OccursAt(s[..i], p, j) {
      assert s[..i][j..j + |p|] == s[j..j + |p|];
    }
  }

  /**
    `s.split(p)` for a non-empty separator: the pieces between the
    leftmost, non-overlapping occurrences of `p`. No piece contains `p`.
   */
  function Split(s: string, p: string): (parts: seq<string>)
    requires p != ""
    decreases |s|
    ensures |parts| >= 1
    ensures forall k :: 0 <= k < |parts| ==> !Contains(parts[k], p)
  {
    match IndexOf(s, p, 0)
    case None => [s]
    case Some(i) =>
      var head := s[..i];
      assert !Contains(head, p) by {
        forall j | 0 <= j <= |head| - |p| ensures !OccursAt(head, p, j) {
          OccursInPrefix(s, p, i, j);
        }
      }
      [head] + Split(s[i + |p|..], p)
  }

  /** `parts.join(sep)` */
  function Join(parts: seq<string>, sep: string): string {
    if |parts| == 0 then ""
    else if |parts| == 1 then parts[0]
    else parts[0] + sep + Join(parts[1..], sep)
  }

  /** `s.split(p).join(t)`: replace every occurrence of `p` by `t`. */
  function ReplaceAll(s: string, p: string, t: string): string
    requires p != ""
  {
    Join(Split(s, p), t)
  }

  /**
    Placing `q` at offset `e` against `t` (so that `q[k]` faces `t[e + k]`),
    the characters agree wherever the two face each other.
   */
  ghost predicate Agree(q: string, t: string, e: int) {
    forall k :: 0 <= k < |q| && 0 <= e + k < |t| ==> q[k] == t[e + k]
  }

  /**
    Some placement of `q` that shares at least one position with `t`
    agrees with it: an occurrence of `q` may straddle, contain or lie
    inside an inserted copy of `t`.
   */
  ghost predicate Overlap(q: string, t: string) {
    exists e | -|q| < e < |t| :: Agree(q, t, e)
  }

  /** Splitting and joining with the same separator gives back the string. */
  lemma {:induction false} SplitJoin(s: string, p: string)
    requires p != ""
    decreases |s|
    ensures Join(Split(s, p), p) == s
  {
    match IndexOf(s, p, 0)
    case None =>
    case Some(i) =>
      var rest := s[i + |p|..];
      var parts := Split(rest, p);
      SplitJoin(rest, p);
      var all := [s[..i]] + parts;
      assert Split(s, p) == all;
      assert all[1..] == parts;
      assert Join(all, p) == s[..i] + p + Join(parts, p);
      assert s[i..i + |p|] == p;
      assert s == s[..i] + s[i..i + |p|] + rest;
  }

  /** A string without `p` splits into itself alone. */
  lemma SplitAbsent(s: string, p: string)
    requires p != ""
    ensures !Contains(s, p) <==> Split(s, p) == [s]
  {
    if !Contains(s, p) {
      assert IndexOf(s, p, 0).None?;
    }
  }

  /** Replacing a pattern that does not occur changes nothing, and conversely. */
  lemma ReplaceAllAbsent(s: string, p: string, t: string)
    requires p != ""
    ensures !Contains(s, p) ==> ReplaceAll(s, p, t) == s
  {
    SplitAbsent(s, p);
  }

  /** Every piece of a split is a substring of the original string. */
  lemma {:induction false} SplitInherits(s: string, p: string, q: string)
    requires p != ""
    requires !Contains(s, q)
    decreases |s|
    ensures forall k :: 0 <= k < |Split(s, p)| ==> !Contains(Split(s, p)[k], q)
  {
    match IndexOf(s, p, 0)
    case None =>
    case Some(i) =>
      var rest := s[i + |p|..];
      assert !Contains(s[..i], q) by {
        forall j | 0 <= j <= i - |q| ensures !OccursAt(s[..i], q, j) {
          OccursInPrefix(s, q, i, j);
        }
      }
      assert !Contains(rest, q) by {
        forall j | 0 <= j <= |rest| - |q| ensures !OccursAt(rest, q, j) {
          if OccursAt(rest, q, j) {
            assert rest[j..j + |q|] == s[i + |p| + j..i + |p| + j + |q|];
            assert OccursAt(s, q, i + |p| + j);
          }
        }
      }
      SplitInherits(rest, p, q);
  }

  /**
    Joining pieces free of `q` with a non-empty separator that `q` cannot
    overlap gives a string free of `q`.
   */
  lemma {:induction false} JoinAvoids(parts: seq<string>, sep: string, q: string)
    requires q != "" && sep != ""
    requires !Overlap(q, sep)
    requires forall k :: 0 <= k < |parts| ==> !Contains(parts[k], q)
    ensures !Contains(Join(parts, sep), q)
  {
    if |parts| > 1 {
      var x, rest := parts[0], Join(parts[1..], sep);
      JoinAvoids(parts[1..], sep, q);
      var joined := x + sep + rest;
      assert Join(parts, sep) == joined;
      if Contains(joined, q) {
        var i :| 0 <= i <= |joined| - |q| && OccursAt(joined, q, i);
        JoinedOccurrence(x, sep, rest, q, i);
      }
    }
  }

  /**
    An occurrence of `q` in `x + sep + rest` lies inside `x`, inside `rest`,
    or shares a position with `sep` and agrees with it there.
   */
  lemma JoinedOccurrence(x: string, sep: string, rest: string, q: string, i: int)
    ensures OccursAt(x + sep + rest, q, i) ==>
              OccursAt(x, q, i) || OccursAt(rest, q, i - |x| - |sep|)
              || (-|q| < i - |x| < |sep| && Agree(q, sep, i - |x|))
  {
    var joined := x + sep + rest;
    if OccursAt(joined, q, i) {
      if i + |q| <= |x| {
        assert joined[i..i + |q|] == x[i..i + |q|];
      } else if i >= |x| + |sep| {
        var j := i - |x| - |sep|;
        assert joined[|x| + |sep|..] == rest;
        assert joined[i..i + |q|] == joined[|x| + |sep|..][j..j + |q|];
      } else {
        var e := i - |x|;
        forall k | 0 <= k < |q| && 0 <= e + k < |sep| ensures q[k] == sep[e + k] {
          assert q[k] == joined[i..i + |q|][k] == joined[i + k];
        }
      }
    }
  }

  /** Under no overlap, replace-all leaves no occurrence of the pattern. */
  lemma ReplaceAllRemoves(s: string, p: string, t: string)
    requires p != "" && t != ""
    requires !Overlap(p, t)
    ensures !Contains(ReplaceAll(s, p, t), p)
  {
    JoinAvoids(Split(s, p), t, p);
  }

  /**
    Replace-all cannot create an occurrence of a string `q` that `t` cannot
    overlap: what was free of `q` stays free of it.
   */
  lemma ReplaceAllKeepsAbsent(s: string, p: string, t: string, q: string)
    requires p != "" && t != "" && q != ""
    requires !Contains(s, q)
    requires !Overlap(q, t)
    ensures !Contains(ReplaceAll(s, p, t), q)
  {
    SplitInherits(s, p, q);
    JoinAvoids(Split(s, p), t, q);
  }

  /**
    Replace-all keeps an occurrence of `q` that no copy of `p` can overlap:
    the occurrence lies inside one piece of the split, and every piece
    survives into the joined result.
   */
  lemma {:induction false} ReplaceAllKeepsPresent(s: string, p: string, t: string, q: string, i: int)
    requires p != ""
    requires OccursAt(s, q, i)
    requires !Overlap(p, q)
    decreases |s|
    ensures Contains(ReplaceAll(s, p, t), q)
  {
    match IndexOf(s, p, 0)
    case None =>
      SplitAbsent(s, p);
    case Some(m) =>
      if i + |q| <= m {
        KeptInFront(s, p, t, q, m, i);
      } else if i >= m + |p| {
        var rest, j := s[m + |p|..], i - m - |p|;
        assert rest[j..j + |q|] == s[i..i + |q|];
        ReplaceAllKeepsPresent(rest, p, t, q, j);
        var n :| 0 <= n <= |ReplaceAll(rest, p, t)| - |q| && OccursAt(ReplaceAll(rest, p, t), q, n);
        KeptBehind(s, p, t, q, m, n);
      } else {
        SharedPositions(s, p, q, m, i);
      }
  }

  /** An occurrence before the leftmost `p` stays where it was. */
  lemma KeptInFront(s: string, p: string, t: string, q: string, m: nat, i: int)
    requires p != "" && IndexOf(s, p, 0) == Some(m)
    requires OccursAt(s, q, i) && i + |q| <= m
    ensures Contains(ReplaceAll(s, p, t), q)
  {
    ReplaceAllFirst(s, p, t, m);
    var head := s[..m];
    assert head[i..i + |q|] == s[i..i + |q|];
    OccursInFront(head, t + ReplaceAll(s[m + |p|..], p, t), q, i);
    assert OccursAt(ReplaceAll(s, p, t), q, i);
  }

  /** An occurrence in what replace-all makes of the rest moves right by the head and the target. */
  lemma KeptBehind(s: string, p: string, t: string, q: string, m: nat, n: int)
    requires p != "" && IndexOf(s, p, 0) == Some(m)
    requires OccursAt(ReplaceAll(s[m + |p|..], p, t), q, n)
    ensures Contains(ReplaceAll(s, p, t), q)
  {
    ReplaceAllFirst(s, p, t, m);
    var tail := ReplaceAll(s[m + |p|..], p, t);
    OccursBehind(t, tail, q, n);
    OccursBehind(s[..m], t + tail, q, |t| + n);
    assert OccursAt(ReplaceAll(s, p, t), q, m + |t| + n);
  }

  /** Replace-all rewrites the leftmost occurrence and carries on after it. */
  lemma ReplaceAllFirst(s: string, p: string, t: string, m: nat)
    requires p != "" && IndexOf(s, p, 0) == Some(m)
    ensures ReplaceAll(s, p, t) == s[..m] + (t + ReplaceAll(s[m + |p|..], p, t))
  {
    var parts := Split(s[m + |p|..], p);
    var all := [s[..m]] + parts;
    assert Split(s, p) == all;
    assert all[1..] == parts;
  }

  lemma OccursInFront(a: string, b: string, q: string, i: int)
    ensures OccursAt(a, q, i) ==> OccursAt(a + b, q, i)
  {
    if OccursAt(a, q, i) {
      assert (a + b)[i..i + |q|] == a[i..i + |q|];
    }
  }

  lemma OccursBehind(a: string, b: string, q: string, n: int)
    ensures OccursAt(b, q, n) ==> OccursAt(a + b, q, |a| + n)
  {
    if OccursAt(b, q, n) {
      assert (a + b)[|a| + n..|a| + n + |q|] == b[n..n + |q|];
    }
  }

  /** Two occurrences in one string that share a position agree there. */
  lemma SharedPositions(s: string, p: string, q: string, m: int, i: int)
    ensures OccursAt(s, p, m) && OccursAt(s, q, i) && m < i + |q| && i < m + |p| ==> Overlap(p, q)
  {
    if OccursAt(s, p, m) && OccursAt(s, q, i) && m < i + |q| && i < m + |p| {
      var e := m - i;
      forall k | 0 <= k < |p| && 0 <= e + k < |q| ensures p[k] == q[e + k] {
        assert p[k] == s[m..m + |p|][k] == s[m + k];
        assert q[e + k] == s[i..i + |q|][e + k] == s[m + k];
      }
      assert Agree(p, q, e);
    }
  }

  /** A string lacking a character of `p` does not contain `p`. */
  lemma MissingChar(s: string, p: string, c: char)
    requires c in p && c !in s
    ensures !Contains(s, p)
  {
    var k :| 0 <= k < |p| && p[k] == c;
    forall i | 0 <= i <= |s| - |p| ensures !OccursAt(s, p, i) {
      assert s[i..i + |p|][k] == s[i + k] != c;
    }
  }

  /**
    A string made of `p` followed by a tail shorter than `p` is rewritten
    to `t` followed by that tail.
   */
  lemma ReplaceAllLeading(p: string, tail: string, t: string)
    requires p != "" && |tail| < |p|
    ensures ReplaceAll(p + tail, p, t) == t + tail
  {
    var s := p + tail;
    assert OccursAt(s, p, 0) by { assert s[..|p|] == p; }
    assert IndexOf(s, p, 0) == Some(0);
    assert s[|p|..] == tail;
    assert IndexOf(tail, p, 0) == None;
    assert Split(s, p) == ["", tail];
    assert Join(["", tail], t) == "" + t + Join([tail], t);
  }

  /** Replace-all introduces no character found in neither the string nor the target. */
  lemma {:induction false} ReplaceAllChars(s: string, p: string, t: string, c: char)
    requires p != ""
    requires c !in s && c !in t
    decreases |s|
    ensures c !in ReplaceAll(s, p, t)
  {
    match IndexOf(s, p, 0)
    case None =>
    case Some(i) =>
      var head, rest := s[..i], s[i + |p|..];
      assert c !in head && c !in rest by {
        assert forall k :: 0 <= k < |head| ==> head[k] == s[k];
        assert forall k :: 0 <= k < |rest| ==> rest[k] == s[i + |p| + k];
      }
      ReplaceAllChars(rest, p, t, c);
      var ps := Split(rest, p);
      assert Split(s, p) == [head] + ps;
      assert ([head] + ps)[1..] == ps;
      assert ReplaceAll(s, p, t) == head + t + ReplaceAll(rest, p, t);
  }
}
