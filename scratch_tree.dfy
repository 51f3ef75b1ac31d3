/**
  The scratch directory an archive is extracted into: a tree of named
  entries, the listing of its script files (`findJsFiles`), and reading and
  rewriting one file in it.
 */
module ScratchTree {
  import opened Wrappers
  import opened Text

  /** A file with its (decoded) text, or a directory with its listing in `readdir` order. */
  datatype Node = File(text: string) | Dir(entries: seq<Entry>)
  datatype Entry = Entry(name: string, node: Node)

  /** A path below the scratch directory, one name per level. */
  type Path = seq<string>

  /** The names the scan picks up: those ending in `.js` or `.mjs`. */
  predicate IsScript(name: string) {
    EndsWith(name, ".js") || EndsWith(name, ".mjs")
  }

  /** A real directory tree: no two entries of one directory share a name. */
  ghost predicate WellFormed(node: Node) {
    match node
    case File(_) => true
    case Dir(entries) =>
      && (forall i, j :: 0 <= i < j < |entries| ==> entries[i].name != entries[j].name)
      && (forall i :: 0 <= i < |entries| ==> WellFormed(entries[i].node))
  }

  /**
    The script files below `node`, each path written after `at`: the
    entries in listing order, a directory descended into where it is met,
    a file kept when its name is a script name.
   */
  function JsFiles(node: Node, at: Path): seq<Path>
    decreases node, 1, 0
  {
    match node
    case File(_) => []
    case Dir(entries) => Listing(node, at, |entries|)
  }

  /** The script files found under the first `n` entries of the directory `node`. */
  function Listing(node: Node, at: Path, n: nat): seq<Path>
    requires node.Dir? && n <= |node.entries|
    decreases node, 0, n
  {
    if n == 0 then []
    else
      Listing(node, at, n - 1) + Part(node.entries[n - 1], at)
  }

  /** What one entry adds: a directory's own listing, a script file's path, or nothing. */
  function Part(e: Entry, at: Path): seq<Path>
    decreases e.node, 2
  {
    if e.node.Dir? then JsFiles(e.node, at + [e.name])
    else if IsScript(e.name) then [at + [e.name]]
    else []
  }

  /** Index of the first entry of `entries` named `name`, if any. */
  function Lookup(entries: seq<Entry>, name: string): (r: Option<nat>)
    ensures r.Some? ==> r.value < |entries| && entries[r.value].name == name
    ensures r.Some? ==> forall k :: 0 <= k < r.value ==> entries[k].name != name
    ensures r.None? ==> forall k :: 0 <= k < |entries| ==> entries[k].name != name
  {
    if |entries| == 0 then None
    else if entries[0].name == name then Some(0)
    else match Lookup(entries[1..], name)
      case None => None
      case Some(k) => Some(k + 1)
  }

  /** The text of the file at `p`, `None` when `p` names a directory or nothing. */
  function FileAt(node: Node, p: Path): Option<string>
    decreases node
  {
    if p == [] then
      (if node.File? then Some(node.text) else None)
    else if node.File? then None
    else match Lookup(node.entries, p[0])
      case None => None
      case Some(k) => FileAt(node.entries[k].node, p[1..])
  }

  /** `node` with the file at `p` given the text `text`; anything else left as it is. */
  function Put(node: Node, p: Path, text: string): Node
    decreases node
  {
    if p == [] then
      (if node.File? then File(text) else node)
    else if node.File? then node
    else match Lookup(node.entries, p[0])
      case None => node
      case Some(k) =>
        var e := node.entries[k];
        Dir(node.entries[k := Entry(e.name, Put(e.node, p[1..], text))])
  }

  /** Writing a file and reading it back gives the new text. */
  lemma {:induction false} PutThenRead(node: Node, p: Path, text: string)
    requires FileAt(node, p).Some?
    ensures FileAt(Put(node, p, text), p) == Some(text)
    decreases node
  {
    if p != [] {
      var k := Lookup(node.entries, p[0]).value;
      var e := node.entries[k];
      var entries' := node.entries[k := Entry(e.name, Put(e.node, p[1..], text))];
      LookupUpdate(node.entries, k, Entry(e.name, Put(e.node, p[1..], text)), p[0]);
      PutThenRead(e.node, p[1..], text);
    }
  }

  /** Writing a file leaves every other path reading as before. */
  lemma {:induction false} PutElsewhere(node: Node, p: Path, q: Path, text: string)
    requires p != q
    ensures FileAt(Put(node, p, text), q) == FileAt(node, q)
    decreases node
  {
    if p != [] && q != [] && node.Dir? {
      match Lookup(node.entries, p[0])
      case None =>
      case Some(k) =>
        var e := node.entries[k];
        var e' := Entry(e.name, Put(e.node, p[1..], text));
        LookupUpdate(node.entries, k, e', q[0]);
        if q[0] == p[0] {
          PutElsewhere(e.node, p[1..], q[1..], text);
        }
    }
  }

  /** Replacing an entry by one of the same name leaves every lookup where it was. */
  lemma LookupUpdate(entries: seq<Entry>, k: nat, e: Entry, name: string)
    requires k < |entries| && e.name == entries[k].name
    ensures Lookup(entries[k := e], name) == Lookup(entries, name)
  {
    var u := entries[k := e];
    match Lookup(entries, name)
    case None =>
      assert forall j :: 0 <= j < |u| ==> u[j].name == entries[j].name;
    case Some(i) =>
      assert forall j :: 0 <= j <= i ==> u[j].name == entries[j].name;
      LookupFirst(u, name, i);
  }

  /** The first entry of a given name is the one `Lookup` finds. */
  lemma LookupFirst(entries: seq<Entry>, name: string, i: nat)
    requires i < |entries| && entries[i].name == name
    requires forall k :: 0 <= k < i ==> entries[k].name != name
    ensures Lookup(entries, name) == Some(i)
  {
    match Lookup(entries, name)
    case None =>
    case Some(j) =>
  }

  /** A readable script file at `q`: a non-empty path ending in a script name. */
  ghost predicate ScriptAt(node: Node, q: Path) {
    q != [] && IsScript(q[|q| - 1]) && FileAt(node, q).Some?
  }

  /** Every listed path extends `at` by at least one name. */
  lemma {:induction false} ListedBelow(node: Node, at: Path)
    ensures forall p :: p in JsFiles(node, at) ==> |p| > |at| && p[..|at|] == at
    decreases node, 1, 0
  {
    if node.Dir? {
      ListingBelow(node, at, |node.entries|);
    }
  }

  lemma {:induction false} ListingBelow(node: Node, at: Path, n: nat)
    requires node.Dir? && n <= |node.entries|
    ensures forall p :: p in Listing(node, at, n) ==> |p| > |at| && p[..|at|] == at
    decreases node, 0, n
  {
    if n > 0 {
      var e := node.entries[n - 1];
      var part := Part(e, at);
      assert Listing(node, at, n) == Listing(node, at, n - 1) + part;
      ListingBelow(node, at, n - 1);
      if e.node.Dir? {
        ListedBelow(e.node, at + [e.name]);
        forall p | p in JsFiles(e.node, at + [e.name]) ensures |p| > |at| && p[..|at|] == at {
          assert p[..|at| + 1][..|at|] == p[..|at|];
        }
      }
      forall p | p in part ensures |p| > |at| && p[..|at|] == at {
        if !e.node.Dir? {
          assert p == at + [e.name];
          assert p[..|at|] == at;
        }
      }
    }
  }

  /**
    In a well-formed tree the listing names exactly the readable script
    files: `at + q` is listed if and only if a script file sits at `q`.
   */
  lemma {:induction false} ListedIffScript(node: Node, at: Path, q: Path)
    requires WellFormed(node)
    ensures at + q in JsFiles(node, at) <==> ScriptAt(node, q)
    decreases node, 1, 0
  {
    if node.Dir? {
      var entries := node.entries;
      ListingIffScript(node, at, q, |entries|);
      if q != [] {
        match Lookup(entries, q[0])
        case None =>
        case Some(k) =>
          var e := entries[k];
          assert FileAt(node, q) == FileAt(e.node, q[1..]);
          if q[1..] != [] {
            assert q[|q| - 1] == q[1..][|q[1..]| - 1];
          }
          assert EntryScriptAt(e, q) <==> ScriptAt(node, q);
          assert forall j :: 0 <= j < |entries| && EntryScriptAt(entries[j], q) ==> j == k;
      }
    }
  }

  /**
    The same within the first `n` entries: `at + q` is listed there if and
    only if `q` runs through one of those entries to a script file.
   */
  lemma {:induction false} ListingIffScript(node: Node, at: Path, q: Path, n: nat)
    requires WellFormed(node) && node.Dir? && n <= |node.entries|
    ensures at + q in Listing(node, at, n) <==>
            exists k | 0 <= k < n :: EntryScriptAt(node.entries[k], q)
    decreases node, 0, n
  {
    if n > 0 {
      var e := node.entries[n - 1];
      ListingIffScript(node, at, q, n - 1);
      EntryIffScript(e, at, q);
      assert (exists k | 0 <= k < n :: EntryScriptAt(node.entries[k], q)) <==>
             (exists k | 0 <= k < n - 1 :: EntryScriptAt(node.entries[k], q)) || EntryScriptAt(e, q);
    }
  }

  /** `q` runs through the entry `e` to a script file. */
  ghost predicate EntryScriptAt(e: Entry, q: Path) {
    || (q != [] && q[0] == e.name && ScriptAt(e.node, q[1..]))
    || (q == [e.name] && e.node.File? && IsScript(e.name))
  }

  lemma PrefixName(at: Path, q: Path, name: string)
    requires |at + q| > |at + [name]| && (at + q)[..|at| + 1] == at + [name]
    ensures q != [] && q[0] == name
  {
    assert (at + q)[|at|] == (at + [name])[|at|];
  }

  /** One entry's share of the listing. */
  lemma {:induction false} EntryIffScript(e: Entry, at: Path, q: Path)
    requires WellFormed(e.node)
    ensures at + q in Part(e, at)
            <==> EntryScriptAt(e, q)
  {
    if e.node.Dir? {
      var inner := JsFiles(e.node, at + [e.name]);
      ListedBelow(e.node, at + [e.name]);
      if at + q in inner {
        PrefixName(at, q, e.name);
      }
      if q != [] && q[0] == e.name {
        assert at + q == (at + [e.name]) + q[1..];
        ListedIffScript(e.node, at + [e.name], q[1..]);
      }
    } else {
      assert q == (at + q)[|at|..] && [e.name] == (at + [e.name])[|at|..];
      if q != [] && q[0] == e.name {
        assert FileAt(e.node, q[1..]).Some? ==> q[1..] == [];
        assert q[1..] == [] ==> q == [e.name];
      }
    }
  }

  /** No path occurs twice in `s`. */
  predicate Distinct(s: seq<Path>) {
    forall i, j :: 0 <= i < j < |s| ==> s[i] != s[j]
  }

  lemma DistinctConcat(a: seq<Path>, b: seq<Path>)
    requires Distinct(a) && Distinct(b) && forall p :: p in a ==> p !in b
    ensures Distinct(a + b)
  {
    forall i, j | 0 <= i < j < |a + b| ensures (a + b)[i] != (a + b)[j] {
      if j < |a| {
        assert (a + b)[i] == a[i] && (a + b)[j] == a[j];
      } else if i >= |a| {
        assert (a + b)[i] == b[i - |a|] && (a + b)[j] == b[j - |a|];
      } else {
        assert (a + b)[i] == a[i] && (a + b)[j] == b[j - |a|];
        assert a[i] in a && b[j - |a|] in b;
      }
    }
  }

  /** Every path the first `n` entries contribute goes through one of them. */
  lemma {:induction false} ListingThrough(node: Node, at: Path, n: nat)
    requires node.Dir? && n <= |node.entries|
    ensures forall p :: p in Listing(node, at, n) ==>
              |p| > |at| && exists k | 0 <= k < n :: p[|at|] == node.entries[k].name
    decreases n
  {
    if n > 0 {
      var e := node.entries[n - 1];
      var part := Part(e, at);
      assert Listing(node, at, n) == Listing(node, at, n - 1) + part;
      ListingThrough(node, at, n - 1);
      EntryThrough(e, at);
      forall p | p in Listing(node, at, n)
        ensures |p| > |at| && exists k | 0 <= k < n :: p[|at|] == node.entries[k].name
      {
        if p in Listing(node, at, n - 1) {
          var k :| 0 <= k < n - 1 && p[|at|] == node.entries[k].name;
          assert 0 <= k < n;
        } else {
          assert p in part;
          assert p[|at|] == node.entries[n - 1].name;
        }
      }
    }
  }

  /** Every path an entry contributes goes through that entry. */
  lemma EntryThrough(e: Entry, at: Path)
    ensures forall p :: p in Part(e, at)
              ==> |p| > |at| && p[|at|] == e.name
  {
    if e.node.Dir? {
      ListedBelow(e.node, at + [e.name]);
      forall p | p in JsFiles(e.node, at + [e.name]) ensures |p| > |at| && p[|at|] == e.name {
        assert p[..|at| + 1][|at|] == p[|at|];
      }
    }
  }

  /** In a well-formed tree no script file is listed twice. */
  lemma {:induction false} ListedOnce(node: Node, at: Path)
    requires WellFormed(node)
    ensures Distinct(JsFiles(node, at))
    decreases node, 1, 0
  {
    if node.Dir? {
      ListingOnce(node, at, |node.entries|);
    }
  }

  lemma {:induction false} ListingOnce(node: Node, at: Path, n: nat)
    requires WellFormed(node) && node.Dir? && n <= |node.entries|
    ensures Distinct(Listing(node, at, n))
    decreases node, 0, n
  {
    if n > 0 {
      var e := node.entries[n - 1];
      var part := Part(e, at);
      assert Listing(node, at, n) == Listing(node, at, n - 1) + part;
      ListingOnce(node, at, n - 1);
      if e.node.Dir? {
        ListedOnce(e.node, at + [e.name]);
      }
      EarlierApart(node, at, n);
      DistinctConcat(Listing(node, at, n - 1), part);
    }
  }

  /** What the first `n - 1` entries contribute is disjoint from what entry `n - 1` does. */
  lemma EarlierApart(node: Node, at: Path, n: nat)
    requires WellFormed(node) && node.Dir? && 0 < n <= |node.entries|
    ensures var e := node.entries[n - 1];
            forall p :: p in Listing(node, at, n - 1) ==>
              p !in Part(e, at)
  {
    var e := node.entries[n - 1];
    var part := Part(e, at);
    ListingThrough(node, at, n - 1);
    EntryThrough(e, at);
    forall p | p in Listing(node, at, n - 1) ensures p !in part {
      var k :| 0 <= k < n - 1 && p[|at|] == node.entries[k].name;
      assert node.entries[k].name != e.name;
    }
  }

  /**
    The listing scans the directory the source walks: `findJsFiles` pushes
    onto a shared list as it recurses; here the list is threaded through.
   */
  method FindJsFiles(node: Node, at: Path, acc: seq<Path>) returns (found: seq<Path>)
    ensures found == acc + JsFiles(node, at)
    decreases node
  {
    found := acc;
    if node.Dir? {
      var entries := node.entries;
      for i := 0 to |entries|
        invariant found == acc + Listing(node, at, i)
      {
        var e := entries[i];
        if e.node.Dir? {
          found := FindJsFiles(e.node, at + [e.name], found);
        } else if IsScript(e.name) {
          found := found + [at + [e.name]];
        }
      }
    }
  }
}
