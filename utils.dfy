/**
 * Helpers behind the schema index page: `split_path` (built on
 * `posixpath.split`), the dict tree that `tree_insert` grows and
 * `tree_sort` orders, and the part of `urljoin` that is not
 * `urlparse.urljoin`.
 */
module Utils {
  import opened Wrappers
  import opened PyStrings

  // ---------------------------------------------------------------------
  // split_path
  // ---------------------------------------------------------------------

  /** `s.rfind('/')`: the index of the last slash, or -1. */
  function LastSlash(s: string): (r: int)
    ensures -1 <= r < |s|
    ensures r >= 0 ==> s[r] == '/'
    ensures forall i :: r < i < |s| ==> s[i] != '/'
  {
    if s == [] then -1
    else if s[|s| - 1] == '/' then |s| - 1
    else LastSlash(s[..|s| - 1])
  }

  /** `s.rstrip('/')`. */
  function RStripSlashes(s: string): (r: string)
    ensures r <= s
    ensures r == [] || r[|r| - 1] != '/'
    ensures forall i :: |r| <= i < |s| ==> s[i] == '/'
  {
    if s != [] && s[|s| - 1] == '/' then RStripSlashes(s[..|s| - 1]) else s
  }

  predicate AllSlashes(s: string)
  {
    forall i :: 0 <= i < |s| ==> s[i] == '/'
  }

  /**
   * `posixpath.split(p)`: everything after the last slash is the tail; the
   * head loses its trailing slashes unless it consists of slashes only.
   */
  function PosixSplit(p: string): (string, string)
  {
    var i := LastSlash(p) + 1;
    var head, tail := p[..i], p[i..];
    if head != [] && !AllSlashes(head) then (RStripSlashes(head), tail)
    else (head, tail)
  }

  /** `s.split('/')`: the pieces between slashes, empty ones included. */
  function Segments(s: string): (r: seq<string>)
    ensures |r| >= 1
    decreases |s|
  {
    var j := LastSlash(s);
    if j < 0 then [s] else Segments(s[..j]) + [s[j + 1..]]
  }

  /** The pieces that are not empty, in order. */
  function NonEmpty(parts: seq<string>): (r: seq<string>)
    ensures forall i :: 0 <= i < |r| ==> r[i] != ""
  {
    if parts == [] then []
    else if parts[|parts| - 1] == "" then NonEmpty(parts[..|parts| - 1])
    else NonEmpty(parts[..|parts| - 1]) + [parts[|parts| - 1]]
  }

  /** The segments joined with `/`: `'/'.join(parts)`. */
  function Join(parts: seq<string>): string
  {
    if parts == [] then ""
    else if |parts| == 1 then parts[0]
    else Join(parts[..|parts| - 1]) + "/" + parts[|parts| - 1]
  }

  /**
   * What `split_path` returns for a path that does not start with a slash:
   * the non-empty segments before the last slash, then whatever follows
   * the last slash (empty when the path ends with a slash). The empty path
   * has no parts.
   */
  function PathParts(s: string): seq<string>
  {
    if s == [] then []
    else
      var segs := Segments(s);
      NonEmpty(segs[..|segs| - 1]) + [segs[|segs| - 1]]
  }

  lemma {:induction false} NonEmptyIdentity(parts: seq<string>)
    requires forall i :: 0 <= i < |parts| ==> parts[i] != ""
    ensures NonEmpty(parts) == parts
  {
    if parts != [] {
      var front := parts[..|parts| - 1];
      NonEmptyIdentity(front);
      assert front + [parts[|parts| - 1]] == parts;
    }
  }

  lemma SegmentsSlashEnd(v: string)
    ensures Segments(v + "/") == Segments(v) + [""]
  {
    var u := v + "/";
    assert LastSlash(u) == |v|;
    assert u[..|v|] == v && u[|v| + 1..] == "";
  }

  lemma LastSegment(u: string)
    ensures Segments(u)[|Segments(u)| - 1] == u[LastSlash(u) + 1..]
  {
  }

  lemma NonEmptyAppend(parts: seq<string>, x: string)
    ensures NonEmpty(parts + [x]) == if x == "" then NonEmpty(parts) else NonEmpty(parts) + [x]
  {
    assert (parts + [x])[..|parts|] == parts;
  }

  /** Stripping trailing slashes drops exactly the empty segments. */
  lemma {:induction false} StripParts(u: string)
    requires u == [] || u[0] != '/'
    ensures PathParts(RStripSlashes(u)) == NonEmpty(Segments(u))
    decreases |u|
  {
    if u == [] {
      assert Segments(u) == [""];
      NonEmptyAppend([], "");
    } else if u[|u| - 1] == '/' {
      var v := u[..|u| - 1];
      assert u == v + "/";
      SegmentsSlashEnd(v);
      NonEmptyAppend(Segments(v), "");
      StripParts(v);
    } else {
      StripPlain(u);
    }
  }

  lemma StripPlain(u: string)
    requires u != [] && u[|u| - 1] != '/'
    ensures PathParts(RStripSlashes(u)) == NonEmpty(Segments(u))
  {
    var segs := Segments(u);
    var front, last := segs[..|segs| - 1], segs[|segs| - 1];
    assert last != "" by {
      LastSegment(u);
      assert LastSlash(u) < |u| - 1;
    }
    assert segs == front + [last];
    NonEmptyAppend(front, last);
    assert RStripSlashes(u) == u;
  }

  /** One round of `split_path`'s loop: the parts of the head, then the tail. */
  lemma SplitStep(t: string)
    requires t != [] && t[0] != '/'
    ensures |PosixSplit(t).0| < |t|
    ensures PosixSplit(t).0 == [] || PosixSplit(t).0[0] != '/'
    ensures PathParts(t) == PathParts(PosixSplit(t).0) + [PosixSplit(t).1]
  {
    var j := LastSlash(t);
    if j >= 0 {
      var head0 := t[..j + 1];
      assert head0[0] == t[0];
      assert !AllSlashes(head0);
      assert head0[..j] == t[..j];
      assert RStripSlashes(head0) == RStripSlashes(t[..j]);
      assert t[..j] == [] || t[..j][0] == t[0];
      StripParts(t[..j]);
    } else {
      assert t[..0] == [];
    }
  }

  /** What is left of `split_path`'s work: the parts of `rest` come before `result`. */
  ghost predicate SplitRemaining(s: string, rest: string, result: seq<string>)
  {
    PathParts(s) == PathParts(rest) + result
  }

  lemma SplitRemainingStep(s: string, rest: string, result: seq<string>)
    requires rest != [] && rest[0] != '/' && SplitRemaining(s, rest, result)
    ensures SplitRemaining(s, PosixSplit(rest).0, [PosixSplit(rest).1] + result)
    ensures |PosixSplit(rest).0| < |rest|
    ensures PosixSplit(rest).0 == [] || PosixSplit(rest).0[0] != '/'
  {
    SplitStep(rest);
  }

  /**
   * `split_path(s)`. The loop runs while the remaining string is not
   * empty; see LeadingSlashNeverShrinks for a path that starts with a
   * slash, on which the loop never ends.
   */
  method SplitPath(s: string) returns (result: seq<string>)
    requires s == [] || s[0] != '/'
    ensures result == PathParts(s)
  {
    result := [];
    var rest := s;
    assert PathParts(s) + [] == PathParts(s);
    while rest != []
      invariant rest == [] || rest[0] != '/'
      invariant SplitRemaining(s, rest, result)
      decreases |rest|
    {
      var parts := PosixSplit(rest);
      SplitRemainingStep(s, rest, result);
      result := [parts.1] + result;
      rest := parts.0;
    }
  }

  /**
   * On a path that starts with a slash the head always keeps a leading
   * slash, so the string `split_path` loops on never becomes empty.
   */
  lemma LeadingSlashNeverShrinks(s: string)
    requires s != [] && s[0] == '/'
    ensures PosixSplit(s).0 != [] && PosixSplit(s).0[0] == '/'
  {
    var j := LastSlash(s);
    assert j >= 0;
    var head0 := s[..j + 1];
    if !AllSlashes(head0) {
      var h := RStripSlashes(head0);
      assert h[0] == head0[0];
    }
  }

  /** `'/'.join(s.split('/')) == s`. */
  lemma {:induction false} JoinSegments(s: string)
    ensures Join(Segments(s)) == s
    decreases |s|
  {
    var j := LastSlash(s);
    if j >= 0 {
      var front := Segments(s[..j]);
      JoinSegments(s[..j]);
      assert (front + [s[j + 1..]])[..|front|] == front;
      assert s == s[..j] + "/" + s[j + 1..];
    }
  }

  /**
   * A path without empty segments (so without a leading, trailing or
   * doubled slash) splits into exactly its segments, and joining them with
   * `/` gives the path back.
   */
  lemma SplitPathRoundTrip(s: string)
    requires forall i :: 0 <= i < |Segments(s)| ==> Segments(s)[i] != ""
    ensures PathParts(s) == Segments(s)
    ensures Join(PathParts(s)) == s
  {
    var segs := Segments(s);
    NonEmptyIdentity(segs[..|segs| - 1]);
    assert segs[..|segs| - 1] + [segs[|segs| - 1]] == segs;
    JoinSegments(s);
  }

  // ---------------------------------------------------------------------
  // The index tree
  // ---------------------------------------------------------------------

  /**
   * An entry of a `'.'` list: a plain string (a file name) or a dict with
   * a `name` key and string-valued other keys, such as the index page's
   * `{'name': ..., 'link': ...}`.
   */
  datatype Entry = Plain(text: string) | Named(name: string, fields: map<string, string>)

  /**
   * A dict tree node: the list under its `'.'` key, if it has one, and its
   * other keys, each holding a subtree.
   */
  datatype Tree = Tree(files: Option<seq<Entry>>, children: map<string, Tree>)

  const EmptyTree := Tree(None, map[])

  /** The node's `'.'` list, taking a missing one as empty. */
  function FilesOf(t: Tree): seq<Entry>
  {
    if t.files.Some? then t.files.value else []
  }

  /** The node reached from `t` by following the keys of `path`. */
  function At(t: Tree, path: seq<string>): Option<Tree>
    decreases |path|
  {
    if path == [] then Some(t)
    else if path[0] in t.children then At(t.children[path[0]], path[1..])
    else None
  }

  /** The `'.'` list of the node at `path`, empty if there is none. */
  function FilesAt(t: Tree, path: seq<string>): seq<Entry>
  {
    match At(t, path)
    case None => []
    case Some(n) => FilesOf(n)
  }

  /** No node has a subtree under the key `'.'`, which names the list. */
  ghost predicate Proper(t: Tree)
  {
    "." !in t.children && forall k :: k in t.children ==> Proper(t.children[k])
  }

  /** `tree_insert(tree, path, e)` on values: the tree after the call. */
  function Inserted(t: Tree, path: seq<string>, e: Entry): Tree
    decreases |path|
  {
    if path == [] then t.(files := Some(FilesOf(t) + [e]))
    else
      var child := if path[0] in t.children then t.children[path[0]] else EmptyTree;
      t.(children := t.children[path[0] := Inserted(child, path[1..], e)])
  }

  /** The caller's list that `tree_insert` takes its path from. */
  class PathList {
    var items: seq<string>

    constructor (items: seq<string>)
      ensures this.items == items
    {
      this.items := items;
    }
  }

  /**
   * `tree_insert`: pops the first key off the caller's path list, descends
   * (creating the node if it is missing) and recurses; with the path used
   * up it appends to the node's `'.'` list, creating it if absent.
   */
  method TreeInsert(tree: Tree, path: PathList, e: Entry) returns (r: Tree)
    modifies path
    ensures path.items == []
    ensures r == Inserted(tree, old(path.items), e)
    decreases |path.items|
  {
    if path.items != [] {
      var current := path.items[0];
      path.items := path.items[1..];
      var child := if current in tree.children then tree.children[current] else EmptyTree;
      var sub := TreeInsert(child, path, e);
      r := tree.(children := tree.children[current := sub]);
    } else {
      r := tree.(files := Some(FilesOf(tree) + [e]));
    }
  }

  lemma {:induction false} EmptyTreeHasNoFiles(path: seq<string>)
    ensures FilesAt(EmptyTree, path) == []
  {
  }

  /**
   * After the insertion the node at `path` exists and its list is the old
   * one (empty if there was none) with `e` at the end.
   */
  lemma {:induction false} InsertedAppends(t: Tree, path: seq<string>, e: Entry)
    ensures At(Inserted(t, path, e), path).Some?
    ensures FilesAt(Inserted(t, path, e), path) == FilesAt(t, path) + [e]
    decreases |path|
  {
    if path != [] {
      var child := if path[0] in t.children then t.children[path[0]] else EmptyTree;
      InsertedAppends(child, path[1..], e);
      if path[0] !in t.children {
        EmptyTreeHasNoFiles(path[1..]);
      }
    }
  }

  /** Every node on the way to `path` exists afterwards. */
  lemma {:induction false} InsertedCreatesPath(t: Tree, path: seq<string>, e: Entry, i: nat)
    requires i <= |path|
    ensures At(Inserted(t, path, e), path[..i]).Some?
    decreases |path|
  {
    if i > 0 {
      var child := if path[0] in t.children then t.children[path[0]] else EmptyTree;
      InsertedCreatesPath(child, path[1..], e, i - 1);
      assert path[..i][1..] == path[1..][..i - 1];
    }
  }

  /** Every list other than the one at `path` is left as it was. */
  lemma {:induction false} InsertedKeepsOtherLists(t: Tree, path: seq<string>, e: Entry, q: seq<string>)
    requires q != path
    ensures FilesAt(Inserted(t, path, e), q) == FilesAt(t, q)
    decreases |path|
  {
    if path == [] {
      assert q != [];
    } else if q != [] {
      var child := if path[0] in t.children then t.children[path[0]] else EmptyTree;
      if q[0] == path[0] {
        assert q[1..] != path[1..];
        InsertedKeepsOtherLists(child, path[1..], e, q[1..]);
        if path[0] !in t.children {
          EmptyTreeHasNoFiles(q[1..]);
        }
      }
    }
  }

  /**
   * Every node off the way to `path`, in another branch or below the
   * target, is the same subtree as before.
   */
  lemma {:induction false} InsertedKeepsOtherBranches(t: Tree, path: seq<string>, e: Entry, q: seq<string>)
    requires !(q <= path)
    ensures At(Inserted(t, path, e), q) == At(t, q)
    decreases |path|
  {
    assert q != [];
    if path != [] && q[0] == path[0] {
      var child := if path[0] in t.children then t.children[path[0]] else EmptyTree;
      assert !(q[1..] <= path[1..]);
      InsertedKeepsOtherBranches(child, path[1..], e, q[1..]);
      if path[0] !in t.children {
        assert At(EmptyTree, q[1..]) == None by {
          assert q[1..] != [];
        }
      }
    }
  }

  /** Inserting along a path without a `'.'` key keeps the tree proper. */
  lemma {:induction false} InsertedProper(t: Tree, path: seq<string>, e: Entry)
    requires Proper(t) && "." !in path
    ensures Proper(Inserted(t, path, e))
    decreases |path|
  {
    if path != [] {
      var child := if path[0] in t.children then t.children[path[0]] else EmptyTree;
      assert "." !in path[1..];
      InsertedProper(child, path[1..], e);
    }
  }

  // ---------------------------------------------------------------------
  // tree_sort
  // ---------------------------------------------------------------------

  /**
   * The sort key of a `'.'` entry: the lower-cased `name` of a dict, the
   * lower-cased string itself otherwise.
   */
  function Key(e: Entry): string
  {
    match e
    case Plain(s) => Lower(s)
    case Named(n, _) => Lower(n)
  }

  /**
   * The key as `tree_sort` computes it: `'name' in e` is a substring test
   * on a plain string, so a file name containing `name` takes the
   * `e['name']` branch, which raises TypeError (None here).
   */
  function KeyAsWritten(e: Entry): (r: Option<string>)
    ensures r.None? <==> e.Plain? && Contains(e.text, "name")
    ensures r.Some? ==> r.value == Key(e)
  {
    match e
    case Named(n, _) => Some(Lower(n))
    case Plain(s) => if Contains(s, "name") then None else Some(Lower(s))
  }

  /** `e` is not ordered after `f`: key(e) <= key(f). */
  predicate NotAfter(e: Entry, f: Entry)
  {
    !Less(Key(f), Key(e))
  }

  predicate SortedByKey(es: seq<Entry>)
  {
    forall i, j :: 0 <= i < j < |es| ==> NotAfter(es[i], es[j])
  }

  /** Places `e` in front of the first entry whose key is not smaller. */
  function InsertByKey(e: Entry, sorted: seq<Entry>): (r: seq<Entry>)
    ensures multiset(r) == multiset(sorted) + multiset{e}
  {
    if sorted == [] || !Less(Key(sorted[0]), Key(e)) then [e] + sorted
    else
      assert sorted == [sorted[0]] + sorted[1..];
      [sorted[0]] + InsertByKey(e, sorted[1..])
  }

  /** `sorted(entries, key=Key)`: a stable sort on the keys. */
  function SortByKey(es: seq<Entry>): (r: seq<Entry>)
    ensures multiset(r) == multiset(es)
  {
    if es == [] then []
    else
      assert es == [es[0]] + es[1..];
      InsertByKey(es[0], SortByKey(es[1..]))
  }

  lemma NotAfterTransitive(a: Entry, b: Entry, c: Entry)
    requires NotAfter(a, b) && NotAfter(b, c)
    ensures NotAfter(a, c)
  {
    if Less(Key(c), Key(a)) {
      if Key(a) == Key(b) {
      } else {
        LessTotal(Key(a), Key(b));
        LessTransitive(Key(c), Key(a), Key(b));
      }
    }
  }

  /** A sorted list stays sorted with an entry in front that is not after any of it. */
  lemma ConsSorted(x: Entry, es: seq<Entry>)
    requires SortedByKey(es)
    requires forall j :: 0 <= j < |es| ==> NotAfter(x, es[j])
    ensures SortedByKey([x] + es)
  {
    var r := [x] + es;
    forall i, j | 0 <= i < j < |r|
      ensures NotAfter(r[i], r[j])
    {
      assert r[j] == es[j - 1];
      if i > 0 {
        assert r[i] == es[i - 1];
      }
    }
  }

  lemma {:induction false} InsertByKeySorted(e: Entry, sorted: seq<Entry>)
    requires SortedByKey(sorted)
    ensures SortedByKey(InsertByKey(e, sorted))
    decreases |sorted|
  {
    if sorted == [] {
      assert InsertByKey(e, sorted) == [e];
    } else if !Less(Key(sorted[0]), Key(e)) {
      forall j | 0 <= j < |sorted|
        ensures NotAfter(e, sorted[j])
      {
        if j > 0 {
          NotAfterTransitive(e, sorted[0], sorted[j]);
        }
      }
      ConsSorted(e, sorted);
    } else {
      InsertLaterSorted(e, sorted);
    }
  }

  lemma {:induction false} InsertLaterSorted(e: Entry, sorted: seq<Entry>)
    requires SortedByKey(sorted) && sorted != [] && Less(Key(sorted[0]), Key(e))
    ensures SortedByKey(InsertByKey(e, sorted))
    decreases |sorted|, 0
  {
    var s0, rest := sorted[0], sorted[1..];
    var tail := InsertByKey(e, rest);
    assert SortedByKey(rest) by {
      forall i, j | 0 <= i < j < |rest|
        ensures NotAfter(rest[i], rest[j])
      {
        assert rest[i] == sorted[i + 1] && rest[j] == sorted[j + 1];
      }
    }
    InsertByKeySorted(e, rest);
    assert NotAfter(s0, e) by {
      LessAsymmetric(Key(s0), Key(e));
    }
    forall j | 0 <= j < |tail|
      ensures NotAfter(s0, tail[j])
    {
      assert tail[j] in multiset(rest) + multiset{e};
      if tail[j] != e {
        assert tail[j] in rest;
        var k :| 0 <= k < |rest| && rest[k] == tail[j];
        assert sorted[k + 1] == tail[j];
      }
    }
    ConsSorted(s0, tail);
  }

  /** The `'.'` list comes out ordered by key. */
  lemma {:induction false} SortByKeySorted(es: seq<Entry>)
    ensures SortedByKey(SortByKey(es))
  {
    if es != [] {
      SortByKeySorted(es[1..]);
      InsertByKeySorted(es[0], SortByKey(es[1..]));
    }
  }

  /** The entries with key `k`, in order. */
  function WithKey(es: seq<Entry>, k: string): (r: seq<Entry>)
    ensures forall i :: 0 <= i < |r| ==> Key(r[i]) == k
  {
    if es == [] then []
    else if Key(es[0]) == k then [es[0]] + WithKey(es[1..], k)
    else WithKey(es[1..], k)
  }

  lemma {:induction false} InsertByKeyStable(e: Entry, sorted: seq<Entry>, k: string)
    ensures WithKey(InsertByKey(e, sorted), k) ==
      (if Key(e) == k then [e] + WithKey(sorted, k) else WithKey(sorted, k))
    decreases |sorted|
  {
    if sorted != [] && Less(Key(sorted[0]), Key(e)) {
      InsertByKeyStable(e, sorted[1..], k);
      var s := [sorted[0]] + InsertByKey(e, sorted[1..]);
      assert s[1..] == InsertByKey(e, sorted[1..]);
      if Key(e) == k {
        LessIrreflexive(k);
      }
    } else {
      var s := [e] + sorted;
      assert s[1..] == sorted;
    }
  }

  /**
   * The sort is stable: the entries that share a key keep the order they
   * had in the input list.
   */
  lemma {:induction false} SortByKeyStable(es: seq<Entry>, k: string)
    ensures WithKey(SortByKey(es), k) == WithKey(es, k)
  {
    if es != [] {
      SortByKeyStable(es[1..], k);
      InsertByKeyStable(es[0], SortByKey(es[1..]), k);
    }
  }

  /** `'.'` lists as `tree_sort` leaves them: None when a key raises. */
  function SortedFilesAsWritten(es: seq<Entry>): Option<seq<Entry>>
  {
    if forall i :: 0 <= i < |es| ==> KeyAsWritten(es[i]).Some? then Some(SortByKey(es))
    else None
  }

  /**
   * A plain file name that contains `name` makes `tree_sort` raise,
   * whereas the key the code documents orders it without trouble.
   */
  lemma FileNameContainingNameFaults()
    ensures SortedFilesAsWritten([Plain("filename.json")]) == None
    ensures SortByKey([Plain("filename.json")]) == [Plain("filename.json")]
  {
    assert OccursAt("filename.json", "name", 4) by {
      assert "filename.json"[4..8] == "name";
    }
    assert KeyAsWritten(Plain("filename.json")).None?;
  }

  /** For every list whose keys do not raise, the code and Key agree. */
  lemma SortedFilesAsWrittenAgrees(es: seq<Entry>)
    requires forall i :: 0 <= i < |es| ==> !(es[i].Plain? && Contains(es[i].text, "name"))
    ensures SortedFilesAsWritten(es) == Some(SortByKey(es))
  {
    forall i | 0 <= i < |es|
      ensures KeyAsWritten(es[i]).Some?
    {
    }
  }

  predicate StrictlyAscending(ks: seq<string>)
  {
    forall i, j :: 0 <= i < j < |ks| ==> Less(ks[i], ks[j])
  }

  /** `k` is the smallest member of `s`. */
  predicate IsMin(k: string, s: set<string>)
  {
    k in s && forall j :: j in s ==> j == k || Less(k, j)
  }

  lemma {:induction false} MinExists(s: set<string>)
    requires s != {}
    ensures exists k :: IsMin(k, s)
    decreases |s|
  {
    var x :| x in s;
    var others := s - {x};
    if others == {} {
      forall j | j in s
        ensures j == x
      {
        assert j !in others;
      }
      assert IsMin(x, s);
    } else {
      MinExists(others);
      var m :| IsMin(m, others);
      if Less(x, m) {
        forall j | j in s
          ensures j == x || Less(x, j)
        {
          if j != x && j != m {
            assert j in others;
            LessTransitive(x, m, j);
          }
        }
        assert IsMin(x, s);
      } else {
        LessTotal(x, m);
        forall j | j in s
          ensures j == m || Less(m, j)
        {
          if j != x {
            assert j in others;
          }
        }
        assert IsMin(m, s);
      }
    }
  }

  /** A set has only one smallest member. */
  lemma MinUnique(s: set<string>)
    ensures forall k, m :: IsMin(k, s) && IsMin(m, s) ==> k == m
  {
    forall k, m | IsMin(k, s) && IsMin(m, s)
      ensures k == m
    {
      if k != m {
        LessAsymmetric(k, m);
      }
    }
  }

  /** `sorted(keys)`: the keys in ascending order, each once. */
  function SortedKeys(s: set<string>): (r: seq<string>)
    ensures forall k :: k in r <==> k in s
    ensures forall i :: 0 <= i < |r| ==> r[i] in s
    decreases |s|
  {
    if s == {} then []
    else
      MinExists(s);
      MinUnique(s);
      var k :| IsMin(k, s);
      [k] + SortedKeys(s - {k})
  }

  /** The keys come out strictly ascending, so each of them once. */
  lemma {:induction false} SortedKeysAscending(s: set<string>)
    ensures StrictlyAscending(SortedKeys(s))
    ensures |SortedKeys(s)| == |s|
    decreases |s|
  {
    if s != {} {
      var r := SortedKeys(s);
      var k := r[0];
      assert IsMin(k, s);
      var rest := SortedKeys(s - {k});
      assert r == [k] + rest;
      SortedKeysAscending(s - {k});
      forall i, j | 0 <= i < j < |r|
        ensures Less(r[i], r[j])
      {
        if i > 0 {
          assert r[i] == rest[i - 1] && r[j] == rest[j - 1];
        } else {
          assert r[j] == rest[j - 1] && r[j] in s - {k};
        }
      }
    }
  }

  /** The `OrderedDict` `tree_sort` builds: `'.'` first, then the keys in order. */
  datatype SortedTree = SortedTree(files: Option<seq<Entry>>, children: seq<(string, SortedTree)>)

  function KeysOf(cs: seq<(string, SortedTree)>): (r: seq<string>)
    ensures |r| == |cs|
    ensures forall i :: 0 <= i < |cs| ==> r[i] == cs[i].0
  {
    seq(|cs|, i requires 0 <= i < |cs| => cs[i].0)
  }

  /** `tree_sort(t)`'s result (with the key documented for entries). */
  ghost function TreeSorted(t: Tree): SortedTree
    decreases t, 1
  {
    SortedTree(
      if t.files.Some? then Some(SortByKey(t.files.value)) else None,
      SortedChildren(t, SortedKeys(t.children.Keys)))
  }

  /** The subtrees under the keys `ks` of `t`, each sorted, in the order of `ks`. */
  ghost function SortedChildren(t: Tree, ks: seq<string>): (r: seq<(string, SortedTree)>)
    requires forall i :: 0 <= i < |ks| ==> ks[i] in t.children
    ensures KeysOf(r) == ks
    decreases t, 0, |ks|
  {
    if ks == [] then []
    else
      var k := ks[|ks| - 1];
      SortedChildren(t, ks[..|ks| - 1]) + [(k, TreeSorted(t.children[k]))]
  }

  /** Each child of the result is the sorted subtree under its key. */
  lemma {:induction false} SortedChildrenAt(t: Tree, ks: seq<string>, i: nat)
    requires forall j :: 0 <= j < |ks| ==> ks[j] in t.children
    requires i < |ks|
    ensures SortedChildren(t, ks)[i] == (ks[i], TreeSorted(t.children[ks[i]]))
    decreases |ks|
  {
    if i < |ks| - 1 {
      SortedChildrenAt(t, ks[..|ks| - 1], i);
    }
  }

  /**
   * The result keeps the `'.'` list if there is one, as a sorted
   * permutation, and has the node's other keys, each once, ascending.
   */
  lemma TreeSortedShape(t: Tree)
    ensures TreeSorted(t).files.Some? <==> t.files.Some?
    ensures t.files.Some? ==> multiset(TreeSorted(t).files.value) == multiset(t.files.value)
    ensures t.files.Some? ==> SortedByKey(TreeSorted(t).files.value)
    ensures StrictlyAscending(KeysOf(TreeSorted(t).children))
    ensures forall k :: k in KeysOf(TreeSorted(t).children) <==> k in t.children
  {
    SortByKeySorted(FilesOf(t));
    SortedKeysAscending(t.children.Keys);
  }

  /** Ordered at every level: sorted `'.'` lists and ascending keys. */
  ghost predicate SortedEverywhere(st: SortedTree)
  {
    (st.files.Some? ==> SortedByKey(st.files.value)) &&
    StrictlyAscending(KeysOf(st.children)) &&
    forall i :: 0 <= i < |st.children| ==> SortedEverywhere(st.children[i].1)
  }

  lemma {:induction false} TreeSortedEverywhere(t: Tree)
    ensures SortedEverywhere(TreeSorted(t))
  {
    var r := TreeSorted(t);
    var ks := SortedKeys(t.children.Keys);
    TreeSortedShape(t);
    forall i | 0 <= i < |r.children|
      ensures SortedEverywhere(r.children[i].1)
    {
      SortedChildrenAt(t, ks, i);
      TreeSortedEverywhere(t.children[ks[i]]);
    }
  }

  /** The input tree after `tree_sort`: every `'.'` key popped. */
  function Stripped(t: Tree): (r: Tree)
    ensures r.files.None? && r.children.Keys == t.children.Keys
  {
    Tree(None, map k | k in t.children :: Stripped(t.children[k]))
  }

  /**
   * The popping reaches every node: the stripped tree has the same nodes
   * as before and none of them has a `'.'` list.
   */
  lemma {:induction false} StrippedEverywhere(t: Tree, path: seq<string>)
    ensures At(Stripped(t), path).Some? <==> At(t, path).Some?
    ensures At(Stripped(t), path).Some? ==> At(Stripped(t), path).value.files.None?
    decreases |path|
  {
    if path != [] && path[0] in t.children {
      StrippedEverywhere(t.children[path[0]], path[1..]);
    }
  }

  /** The subtrees under the keys `ks` of `t` as the pops leave them. */
  function StrippedChildren(t: Tree, ks: seq<string>): (r: map<string, Tree>)
    requires forall j :: 0 <= j < |ks| ==> ks[j] in t.children
    ensures forall k :: k in r <==> k in ks
    ensures forall k :: k in r ==> r[k] == Stripped(t.children[k])
  {
    if ks == [] then map[]
    else
      var k := ks[|ks| - 1];
      StrippedChildren(t, ks[..|ks| - 1])[k := Stripped(t.children[k])]
  }

  /** One more key visited by the loop of `tree_sort`. */
  lemma SortedChildrenSnoc(t: Tree, ks: seq<string>, i: nat)
    requires forall j :: 0 <= j < |ks| ==> ks[j] in t.children
    requires i < |ks|
    ensures SortedChildren(t, ks[..i + 1]) ==
      SortedChildren(t, ks[..i]) + [(ks[i], TreeSorted(t.children[ks[i]]))]
  {
    assert ks[..i + 1][..i] == ks[..i];
  }

  lemma StrippedChildrenSnoc(t: Tree, ks: seq<string>, i: nat)
    requires forall j :: 0 <= j < |ks| ==> ks[j] in t.children
    requires i < |ks|
    ensures StrippedChildren(t, ks[..i + 1]) ==
      StrippedChildren(t, ks[..i])[ks[i] := Stripped(t.children[ks[i]])]
  {
    assert ks[..i + 1][..i] == ks[..i];
  }

  /**
   * `tree_sort(t)`: pops and sorts the `'.'` list, then visits the keys in
   * ascending order and sorts each subtree. Returns the result and the
   * input tree as the pops leave it.
   */
  method TreeSort(t: Tree) returns (r: SortedTree, after: Tree)
    ensures r == TreeSorted(t)
    ensures after == Stripped(t)
    decreases t, 1
  {
    var files := if t.files.Some? then Some(SortByKey(t.files.value)) else None;
    var ks := SortedKeys(t.children.Keys);
    var children, kept := SortChildren(t, ks);
    r := SortedTree(files, children);
    StrippedFrom(t, ks);
    after := Tree(None, kept);
  }

  /**
   * `tree_sort`'s loop `for k in sorted(tree.iterkeys())` over the keys
   * `ks`: the sorted subtrees in that order, and the subtrees as the
   * recursive calls leave them.
   */
  method SortChildren(t: Tree, ks: seq<string>)
      returns (children: seq<(string, SortedTree)>, kept: map<string, Tree>)
    requires forall j :: 0 <= j < |ks| ==> ks[j] in t.children
    ensures children == SortedChildren(t, ks)
    ensures kept == StrippedChildren(t, ks)
    decreases t, 0
  {
    children, kept := [], map[];
    for i := 0 to |ks|
      invariant children == SortedChildren(t, ks[..i])
      invariant kept == StrippedChildren(t, ks[..i])
    {
      var sub, subAfter := TreeSort(t.children[ks[i]]);
      SortedChildrenSnoc(t, ks, i);
      StrippedChildrenSnoc(t, ks, i);
      children := children + [(ks[i], sub)];
      kept := kept[ks[i] := subAfter];
    }
    assert ks[..|ks|] == ks;
  }

  lemma StrippedFrom(t: Tree, ks: seq<string>)
    requires forall j :: 0 <= j < |ks| ==> ks[j] in t.children
    requires forall k :: k in t.children ==> k in ks
    ensures Tree(None, StrippedChildren(t, ks)) == Stripped(t)
  {
    assert StrippedChildren(t, ks) == Stripped(t).children;
  }

  // ---------------------------------------------------------------------
  // urljoin
  // ---------------------------------------------------------------------

  /** `_add_trailing_slash`: appends a slash unless there is one already. */
  function AddTrailingSlash(s: string): (r: string)
    ensures EndsWith(r, "/")
    ensures s <= r && |r| <= |s| + 1
    ensures EndsWith(s, "/") ==> r == s
  {
    if EndsWith(s, "/") then s else s + "/"
  }

  lemma AddTrailingSlashIdempotent(s: string)
    ensures AddTrailingSlash(AddTrailingSlash(s)) == AddTrailingSlash(s)
  {
  }

  function SlashAll(parts: seq<string>): (r: seq<string>)
    ensures |r| == |parts|
    ensures forall i :: 0 <= i < |r| ==> EndsWith(r[i], "/") && parts[i] <= r[i]
  {
    seq(|parts|, i requires 0 <= i < |parts| => AddTrailingSlash(parts[i]))
  }

  /** `reduce(f, parts)` on a non-empty list. */
  function Reduce(f: (string, string) -> string, parts: seq<string>): string
    requires parts != []
  {
    if |parts| == 1 then parts[0]
    else f(Reduce(f, parts[..|parts| - 1]), parts[|parts| - 1])
  }

  /**
   * `urljoin(*args)`, with `urlparse.urljoin` (reference resolution) given
   * as `resolve`: all parts but the last get a trailing slash and are
   * resolved in turn, then the last part against that; no parts give `''`.
   */
  function UrlJoin(args: seq<string>, resolve: (string, string) -> string): (r: string)
    ensures args == [] ==> r == ""
    ensures |args| == 1 ==> r == resolve("", args[0])
  {
    if args == [] then ""
    else
      var base := if |args| > 1 then Reduce(resolve, SlashAll(args[..|args| - 1])) else "";
      resolve(base, args[|args| - 1])
  }
}
