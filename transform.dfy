/**
 * Flattening of `allOf` compositions: the deep merge `merge_dicts` and the
 * traversal inside `transform_all_of`. Values follow Python's semantics;
 * the TypeError or AttributeError Python raises on shapes the code does not
 * expect is the `Fault` outcome.
 */
module Transform {
  import opened Json

  // ---------------------------------------------------------------------
  // Nesting depth, the measure under which the traversal terminates
  // ---------------------------------------------------------------------

  /** The largest element of a set of naturals, 0 for the empty set. */
  ghost function SetMax(s: set<nat>): (r: nat)
    ensures forall x :: x in s ==> x <= r
    ensures s != {} ==> r in s
    ensures s == {} ==> r == 0
    decreases |s|
  {
    if s == {} then 0
    else
      var x :| x in s;
      var rest := SetMax(s - {x});
      assert forall y :: y in s ==> y == x || y in s - {x};
      if x > rest then x else rest
  }

  /** How deeply lists and dicts nest in a value; a scalar has depth 1. */
  ghost function Depth(v: Value): nat
  {
    match v
    case Arr(e) => 1 + SetMax(set i | 0 <= i < |e| :: Depth(e[i]))
    case Obj(m) => 1 + SetMax(set k | k in m :: Depth(m[k]))
    case _ => 1
  }

  lemma DepthPositive(v: Value)
    ensures Depth(v) >= 1
  {
  }

  lemma DepthMember(m: map<string, Value>, k: string)
    requires k in m
    ensures Depth(m[k]) < Depth(Obj(m))
  {
    var s := set k' | k' in m :: Depth(m[k']);
    assert Depth(Obj(m)) == 1 + SetMax(s);
    assert Depth(m[k]) in s;
  }

  lemma DepthElement(e: seq<Value>, i: int)
    requires 0 <= i < |e|
    ensures Depth(e[i]) < Depth(Arr(e))
  {
    var s := set i' | 0 <= i' < |e| :: Depth(e[i']);
    assert Depth(Arr(e)) == 1 + SetMax(s);
    assert Depth(e[i]) in s;
  }

  /** A dict whose values are all shallower than `b` has depth at most `b`. */
  lemma DepthAtMost(m: map<string, Value>, b: nat)
    requires b >= 1
    requires forall k :: k in m ==> Depth(m[k]) < b
    ensures Depth(Obj(m)) <= b
  {
    var s := set k | k in m :: Depth(m[k]);
    if s != {} {
      var k :| k in m && Depth(m[k]) == SetMax(s);
    }
  }

  /** Dropping keys from a dict does not make it deeper. */
  lemma DepthWithout(m: map<string, Value>, keys: set<string>)
    ensures Depth(Obj(m - keys)) <= Depth(Obj(m))
  {
    forall k | k in m - keys
      ensures Depth((m - keys)[k]) < Depth(Obj(m))
    {
      DepthMember(m, k);
    }
    DepthPositive(Obj(m));
    DepthAtMost(m - keys, Depth(Obj(m)));
  }

  // ---------------------------------------------------------------------
  // merge_dicts
  // ---------------------------------------------------------------------

  /** `new.get(k, dict())`. */
  function GetOrEmpty(d: map<string, Value>, k: string): Value
  {
    if k in d then d[k] else Obj(map[])
  }

  /**
   * `merge_dicts(first, second)` returns without raising. An empty `second`
   * is returned unchanged whatever `first` is; otherwise `first` must be a
   * dict (item assignment into a list, string or scalar raises), and so
   * must every entry that a non-empty dict of `second` is merged into.
   */
  predicate Mergeable(first: Value, second: map<string, Value>)
    decreases Obj(second)
  {
    second == map[] ||
    (first.Obj? &&
     forall k :: k in second && IsNonEmptyDict(second[k]) ==>
       Mergeable(GetOrEmpty(first.members, k), second[k].members))
  }

  /** What `merge_dicts(first, second)` returns when it does not raise. */
  function Merged(first: Value, second: map<string, Value>): (r: Value)
    requires Mergeable(first, second)
    ensures first.Obj? ==> r.Obj? && r.members.Keys == first.members.Keys + second.Keys
    decreases Obj(second)
  {
    if second == map[] then first
    else
      Obj(map k | k in first.members.Keys + second.Keys ::
        if k !in second then first.members[k]
        else if IsNonEmptyDict(second[k]) then Merged(GetOrEmpty(first.members, k), second[k].members)
        else second[k])
  }

  /**
   * The merge entry by entry: the keys are those of both dicts, a key only
   * in `first` keeps its value, a value of `second` that is not a non-empty
   * dict replaces, and a non-empty dict is merged into `first`'s entry or
   * into an empty dict.
   */
  lemma MergedEntries(first: Value, second: map<string, Value>, k: string)
    requires second != map[] && Mergeable(first, second)
    ensures first.Obj? && Merged(first, second).Obj?
    ensures k in Merged(first, second).members <==> k in first.members || k in second
    ensures k in first.members && k !in second ==>
      Merged(first, second).members[k] == first.members[k]
    ensures k in second && !IsNonEmptyDict(second[k]) ==>
      Merged(first, second).members[k] == second[k]
    ensures k in second && IsNonEmptyDict(second[k]) ==>
      Merged(first, second).members[k] == Merged(GetOrEmpty(first.members, k), second[k].members)
  {
  }

  /** Merging a dict into anything that is not a dict raises; an empty one never does. */
  lemma MergeableExactly(first: Value, second: map<string, Value>)
    ensures second == map[] ==> Mergeable(first, second) && Merged(first, second) == first
    ensures second != map[] && !first.Obj? ==> !Mergeable(first, second)
  {
  }

  /** Every dict can be merged into an empty dict. */
  lemma {:induction false} MergeableIntoEmpty(d: map<string, Value>)
    ensures Mergeable(Obj(map[]), d)
    decreases Obj(d)
  {
    forall k | k in d && IsNonEmptyDict(d[k])
      ensures Mergeable(GetOrEmpty(map[], k), d[k].members)
    {
      MergeableIntoEmpty(d[k].members);
    }
  }

  /** `merge_dicts({}, d) == d`. */
  lemma {:induction false} MergeIntoEmpty(d: map<string, Value>)
    ensures Mergeable(Obj(map[]), d) && Merged(Obj(map[]), d) == Obj(d)
    decreases Obj(d)
  {
    MergeableIntoEmpty(d);
    if d != map[] {
      var r := Merged(Obj(map[]), d).members;
      forall k | k in d
        ensures r[k] == d[k]
      {
        if IsNonEmptyDict(d[k]) {
          MergeIntoEmpty(d[k].members);
        }
      }
      assert r == d;
    }
  }

  /** `merge_dicts(d, {}) == d`, for a dict and for anything else. */
  lemma MergeEmpty(d: Value)
    ensures Mergeable(d, map[]) && Merged(d, map[]) == d
  {
  }

  /** Merging a dict into itself changes nothing. */
  lemma {:induction false} MergeSelf(d: map<string, Value>)
    ensures Mergeable(Obj(d), d) && Merged(Obj(d), d) == Obj(d)
    decreases Obj(d)
  {
    forall k | k in d && IsNonEmptyDict(d[k])
      ensures Mergeable(GetOrEmpty(d, k), d[k].members)
        && Merged(GetOrEmpty(d, k), d[k].members) == d[k]
    {
      MergeSelf(d[k].members);
    }
    if d != map[] {
      var r := Merged(Obj(d), d).members;
      assert forall k :: k in d ==> r[k] == d[k];
      assert r == d;
    }
  }

  /** A merge is no deeper than the deeper of its two inputs. */
  lemma {:induction false} MergedDepth(first: Value, second: map<string, Value>, b: nat)
    requires Mergeable(first, second)
    requires Depth(first) <= b && Depth(Obj(second)) <= b
    ensures Depth(Merged(first, second)) <= b
    decreases Obj(second)
  {
    if second != map[] {
      var f := first.members;
      var r := Merged(first, second).members;
      forall k | k in r
        ensures Depth(r[k]) < b
      {
        if k !in second {
          DepthMember(f, k);
        } else {
          DepthMember(second, k);
          if IsNonEmptyDict(second[k]) {
            DepthPositive(second[k]);
            if k in f {
              DepthMember(f, k);
            }
            assert Depth(GetOrEmpty(f, k)) <= b - 1;
            assert Obj(second[k].members) == second[k];
            MergedDepth(GetOrEmpty(f, k), second[k].members, b - 1);
          }
        }
      }
      DepthPositive(first);
      DepthAtMost(r, b);
    }
  }

  /**
   * The state of `merge_dicts`'s loop once the keys of `second` outside
   * `todo` are written into `result`: each written key holds its merged
   * entry, and every other key of `first` is as it was.
   */
  ghost predicate Written(first: map<string, Value>, second: map<string, Value>, todo: set<string>,
                          result: map<string, Value>)
  {
    && todo <= second.Keys
    && result.Keys == first.Keys + (second.Keys - todo)
    && (forall k :: k in first && k !in second ==> result[k] == first[k])
    && (forall k :: k in first && k in todo ==> result[k] == first[k])
    && (forall k :: k in second && k !in todo ==> WrittenEntry(first, second, k, result[k]))
  }

  /** `val` is what the loop writes under `k`. */
  ghost predicate WrittenEntry(first: map<string, Value>, second: map<string, Value>, k: string, val: Value)
    requires k in second
  {
    if IsNonEmptyDict(second[k]) then
      Mergeable(GetOrEmpty(first, k), second[k].members) && val == Merged(GetOrEmpty(first, k), second[k].members)
    else val == second[k]
  }

  lemma WriteStep(first: map<string, Value>, second: map<string, Value>, todo: set<string>,
                  result: map<string, Value>, k: string, val: Value)
    requires Written(first, second, todo, result) && k in todo
    requires WrittenEntry(first, second, k, val)
    ensures Written(first, second, todo - {k}, result[k := val])
  {
  }

  lemma MergedFromEntries(first: Value, second: map<string, Value>, result: map<string, Value>)
    requires first.Obj? && second != map[]
    requires Written(first.members, second, {}, result)
    ensures Mergeable(first, second) && result == Merged(first, second).members
  {
  }

  lemma NotMergeableAt(first: Value, second: map<string, Value>, k: string)
    requires k in second && IsNonEmptyDict(second[k])
    requires first.Obj? && !Mergeable(GetOrEmpty(first.members, k), second[k].members)
    ensures !Mergeable(first, second)
  {
  }

  /**
   * `merge_dicts` as written: a deep copy of `first` that the keys of
   * `second` are written into one after the other. It returns exactly when
   * the merge is defined, and then returns the merge.
   */
  method MergeDicts(first: Value, second: map<string, Value>) returns (r: Outcome<Value>)
    ensures r.Ok? <==> Mergeable(first, second)
    ensures r.Ok? ==> r.value == Merged(first, second)
    decreases Obj(second)
  {
    if second == map[] {
      return Ok(first);
    }
    if !first.Obj? {
      return Fault;
    }
    var result := first.members;
    var todo := second.Keys;
    while todo != {}
      invariant Written(first.members, second, todo, result)
      decreases |todo|
    {
      var k :| k in todo;
      var v := second[k];
      var val;
      if IsNonEmptyDict(v) {
        var sub := MergeDicts(GetOrEmpty(result, k), v.members);
        assert GetOrEmpty(result, k) == GetOrEmpty(first.members, k);
        if sub.Fault? {
          NotMergeableAt(first, second, k);
          return Fault;
        }
        val := sub.value;
      } else {
        val := v;
      }
      WriteStep(first.members, second, todo, result, k, val);
      result := result[k := val];
      todo := todo - {k};
    }
    MergedFromEntries(first, second, result);
    return Ok(Obj(result));
  }

  // ---------------------------------------------------------------------
  // transform_all_of
  // ---------------------------------------------------------------------

  /**
   * The loop over the members of an `allOf` list: each member must be a
   * dict (`pop('title', None)` raises on anything else), loses its `title`,
   * and is merged into the schema built so far, left to right.
   */
  function MergeMembers(acc: Value, members: seq<Value>): (r: Outcome<Value>)
    ensures r.Ok? && acc.Obj? ==> r.value.Obj?
    decreases |members|
  {
    if members == [] then Ok(acc)
    else if !members[0].Obj? then Fault
    else
      var x := members[0].members - {"title"};
      if !Mergeable(acc, x) then Fault
      else MergeMembers(Merged(acc, x), members[1..])
  }

  /**
   * The `allOf` branch before the final re-traversal: the members merged
   * into the node and the `allOf` key popped. Iterating over anything but a
   * list raises unless it is empty.
   */
  function FlattenAllOf(v: Value): (r: Outcome<Value>)
    requires v.Obj? && "allOf" in v.members
    ensures r.Ok? ==> r.value.Obj? && "allOf" !in r.value.members
  {
    var merged :=
      match v.members["allOf"]
      case Arr(e) => MergeMembers(v, e)
      case Obj(m) => if m == map[] then Ok(v) else Fault
      case Str(s) => if s == "" then Ok(v) else Fault
      case _ => Fault;
    if merged.Fault? then Fault else Ok(Obj(merged.value.members - {"allOf"}))
  }

  /** `x` can index a list of length `n`: an int in `[-n, n)` or a bool. */
  predicate IsIndex(x: Value, n: int)
  {
    match x
    case Int(i) => -n <= i < n
    case Bool(b) => (if b then 1 else 0) < n
    case _ => false
  }

  /** The decreasing measure of `traverse`: depth first, and a node that still has `allOf` above one that has not. */
  ghost function TraverseRank(v: Value): nat
  {
    if v.Obj? && "allOf" in v.members then 1 else 0
  }

  /**
   * `traverse`: an `allOf` node is flattened and traversed again; otherwise
   * a `properties` node has each property transformed; otherwise an
   * `items` node has its items transformed; anything else is returned as
   * it is. The branches are exclusive in that order.
   */
  function TransformAllOf(v: Value): (r: Outcome<Value>)
    ensures !v.Obj? ==> r == Ok(v)
    ensures r.Ok? && v.Obj? ==> r.value.Obj? && "allOf" !in r.value.members
    ensures v.Obj? && "allOf" !in v.members && "properties" !in v.members && "items" !in v.members ==> r == Ok(v)
    decreases Depth(v), TraverseRank(v)
  {
    if !v.Obj? then Ok(v)
    else
      var m := v.members;
      if "allOf" in m then
        var merged := FlattenAllOf(v);
        if merged.Fault? then Fault
        else
          FlattenAllOfDepth(v);
          TransformAllOf(merged.value)
      else if "properties" in m then
        match m["properties"]
        case Obj(pm) =>
          DepthProperties(v);
          var rs := map k | k in pm :: TransformAllOf(pm[k]);
          if exists k :: k in rs && rs[k].Fault? then Fault
          else Ok(Obj(m["properties" := Obj(map k | k in rs :: rs[k].value)]))
        case Arr(e) =>
          if forall i :: 0 <= i < |e| ==> IsIndex(e[i], |e|) then Ok(v) else Fault
        case Str(s) => if s == "" then Ok(v) else Fault
        case _ => Fault
      else if "items" in m then
        DepthMember(m, "items");
        var it := TransformAllOf(m["items"]);
        if it.Fault? then Fault else Ok(Obj(m["items" := it.value]))
      else Ok(v)
  }

  /** Each property of a node is shallower than the node. */
  lemma DepthProperties(v: Value)
    requires v.Obj? && "properties" in v.members && v.members["properties"].Obj?
    ensures forall k :: k in v.members["properties"].members ==>
      Depth(v.members["properties"].members[k]) < Depth(v)
  {
    var p := v.members["properties"];
    DepthMember(v.members, "properties");
    forall k | k in p.members
      ensures Depth(p.members[k]) < Depth(p)
    {
      DepthMember(p.members, k);
    }
  }

  /** Folding members no deeper than `b` into a schema no deeper than `b` stays within `b`. */
  lemma {:induction false} MergeMembersDepth(acc: Value, members: seq<Value>, b: nat)
    requires Depth(acc) <= b
    requires forall i :: 0 <= i < |members| ==> Depth(members[i]) <= b
    requires MergeMembers(acc, members).Ok?
    ensures Depth(MergeMembers(acc, members).value) <= b
    decreases |members|
  {
    if members != [] {
      var x := members[0].members - {"title"};
      DepthWithout(members[0].members, {"title"});
      MergedDepth(acc, x, b);
      MergeMembersDepth(Merged(acc, x), members[1..], b);
    }
  }

  /** Flattening never makes a node deeper, which is why the re-traversal ends. */
  lemma FlattenAllOfDepth(v: Value)
    requires v.Obj? && "allOf" in v.members && FlattenAllOf(v).Ok?
    ensures Depth(FlattenAllOf(v).value) <= Depth(v)
  {
    var m := v.members;
    DepthMember(m, "allOf");
    match m["allOf"]
    case Arr(e) =>
      forall i | 0 <= i < |e|
        ensures Depth(e[i]) <= Depth(v)
      {
        DepthElement(e, i);
      }
      MergeMembersDepth(v, e, Depth(v));
      DepthWithout(MergeMembers(v, e).value.members, {"allOf"});
    case _ =>
      DepthWithout(m, {"allOf"});
  }

  // ---------------------------------------------------------------------
  // The traversal as written, loop by loop
  // ---------------------------------------------------------------------

  /** `for x in schema['allOf']: x.pop('title', None); schema = merge_dicts(schema, x)`. */
  method MergeMembersLoop(schema: Value, members: seq<Value>) returns (r: Outcome<Value>)
    ensures r == MergeMembers(schema, members)
  {
    var acc := schema;
    var i := 0;
    while i < |members|
      invariant 0 <= i <= |members|
      invariant MergeMembers(schema, members) == MergeMembers(acc, members[i..])
    {
      assert members[i..][0] == members[i] && members[i..][1..] == members[i + 1..];
      var x := members[i];
      if !x.Obj? {
        return Fault;
      }
      var merged := MergeDicts(acc, x.members - {"title"});
      if merged.Fault? {
        return Fault;
      }
      acc := merged.value;
      i := i + 1;
    }
    assert members[i..] == [];
    return Ok(acc);
  }

  /** `traverse`, with its loops; it computes `TransformAllOf`. */
  method Traverse(v: Value) returns (r: Outcome<Value>)
    ensures r == TransformAllOf(v)
    decreases Depth(v), TraverseRank(v), 1
  {
    if !v.Obj? {
      return Ok(v);
    }
    var m := v.members;
    if "allOf" in m {
      var merged: Outcome<Value>;
      match m["allOf"] {
        case Arr(e) => merged := MergeMembersLoop(v, e);
        case Obj(d) => merged := if d == map[] then Ok(v) else Fault;
        case Str(s) => merged := if s == "" then Ok(v) else Fault;
        case _ => merged := Fault;
      }
      if merged.Fault? {
        return Fault;
      }
      var next := Obj(merged.value.members - {"allOf"});
      assert FlattenAllOf(v) == Ok(next);
      FlattenAllOfDepth(v);
      r := Traverse(next);
    } else if "properties" in m {
      match m["properties"] {
        case Obj(pm) =>
          r := TraverseProperties(v);
        case Arr(e) =>
          var i := 0;
          while i < |e|
            invariant 0 <= i <= |e|
            invariant forall j :: 0 <= j < i ==> IsIndex(e[j], |e|)
          {
            if !IsIndex(e[i], |e|) {
              return Fault;
            }
            i := i + 1;
          }
          r := Ok(v);
        case Str(s) =>
          r := if s == "" then Ok(v) else Fault;
        case _ =>
          r := Fault;
      }
    } else if "items" in m {
      DepthMember(m, "items");
      var it := Traverse(m["items"]);
      if it.Fault? {
        return Fault;
      }
      r := Ok(Obj(m["items" := it.value]));
    } else {
      r := Ok(v);
    }
  }

  /** `for x in schema['properties']: schema['properties'][x] = traverse(schema['properties'][x])` on a dict. */
  method TraverseProperties(v: Value) returns (r: Outcome<Value>)
    requires v.Obj? && "allOf" !in v.members && "properties" in v.members && v.members["properties"].Obj?
    ensures r == TransformAllOf(v)
    decreases Depth(v), TraverseRank(v), 0
  {
    var m := v.members;
    var pm := m["properties"].members;
    DepthProperties(v);
    var done: map<string, Value> := map[];
    var todo := pm.Keys;
    while todo != {}
      invariant done.Keys + todo == pm.Keys
      invariant forall k :: k in done ==> TransformAllOf(pm[k]) == Ok(done[k])
      decreases |todo|
    {
      var k :| k in todo;
      var t := Traverse(pm[k]);
      if t.Fault? {
        PropertyFaults(v, k);
        return Fault;
      }
      done := done[k := t.value];
      todo := todo - {k};
    }
    PropertiesTransformed(v, done);
    r := Ok(Obj(m["properties" := Obj(done)]));
  }

  /** One property the traversal cannot rewrite makes the whole node fail. */
  lemma PropertyFaults(v: Value, k: string)
    requires v.Obj? && "allOf" !in v.members && "properties" in v.members && v.members["properties"].Obj?
    requires k in v.members["properties"].members
    requires TransformAllOf(v.members["properties"].members[k]).Fault?
    ensures TransformAllOf(v) == Fault
  {
    var pm := v.members["properties"].members;
    DepthProperties(v);
    var rs := map k | k in pm :: TransformAllOf(pm[k]);
    assert k in rs && rs[k].Fault?;
  }

  /** With every property rewritten, the node holds the rewritten properties. */
  lemma PropertiesTransformed(v: Value, done: map<string, Value>)
    requires v.Obj? && "allOf" !in v.members && "properties" in v.members && v.members["properties"].Obj?
    requires done.Keys == v.members["properties"].members.Keys
    requires forall k :: k in done ==> TransformAllOf(v.members["properties"].members[k]) == Ok(done[k])
    ensures TransformAllOf(v) == Ok(Obj(v.members["properties" := Obj(done)]))
  {
    var pm := v.members["properties"].members;
    DepthProperties(v);
    var rs := map k | k in pm :: TransformAllOf(pm[k]);
    assert done == map k | k in rs :: rs[k].value;
  }

  // ---------------------------------------------------------------------
  // Properties of the traversal
  // ---------------------------------------------------------------------

  /**
   * A value the traversal leaves as it is: no `allOf` on the path it walks,
   * and a `properties` entry it can walk without raising.
   */
  predicate Flat(v: Value)
  {
    !v.Obj? ||
    ("allOf" !in v.members &&
     if "properties" in v.members then
       match v.members["properties"]
       case Obj(pm) => forall k :: k in pm ==> Flat(pm[k])
       case Arr(e) => forall i :: 0 <= i < |e| ==> IsIndex(e[i], |e|)
       case Str(s) => s == ""
       case _ => false
     else if "items" in v.members then Flat(v.members["items"])
     else true)
  }

  /** What the traversal returns is flat. */
  lemma {:induction false} TransformedIsFlat(v: Value)
    requires TransformAllOf(v).Ok?
    ensures Flat(TransformAllOf(v).value)
    decreases Depth(v), TraverseRank(v)
  {
    if v.Obj? {
      var m := v.members;
      if "allOf" in m {
        FlattenAllOfDepth(v);
        TransformedIsFlat(FlattenAllOf(v).value);
      } else if "properties" in m {
        match m["properties"]
        case Obj(pm) =>
          DepthProperties(v);
          var rs := map k | k in pm :: TransformAllOf(pm[k]);
          var out := map k | k in rs :: rs[k].value;
          forall k | k in out
            ensures Flat(out[k])
          {
            TransformedIsFlat(pm[k]);
          }
          assert TransformAllOf(v).value == Obj(m["properties" := Obj(out)]);
        case _ =>
      } else if "items" in m {
        DepthMember(m, "items");
        TransformedIsFlat(m["items"]);
      }
    }
  }

  /** A flat value is returned as it is. */
  lemma {:induction false} FlatIsUnchanged(v: Value)
    requires Flat(v)
    ensures TransformAllOf(v) == Ok(v)
    decreases Depth(v)
  {
    if v.Obj? {
      var m := v.members;
      if "properties" in m {
        match m["properties"]
        case Obj(pm) =>
          DepthProperties(v);
          var rs := map k | k in pm :: TransformAllOf(pm[k]);
          forall k | k in pm
            ensures rs[k] == Ok(pm[k])
          {
            FlatIsUnchanged(pm[k]);
          }
          assert (map k | k in rs :: rs[k].value) == pm;
          assert m["properties" := Obj(pm)] == m;
        case _ =>
      } else if "items" in m {
        DepthMember(m, "items");
        FlatIsUnchanged(m["items"]);
        assert m["items" := m["items"]] == m;
      }
    }
  }

  /** Transforming a transformed schema again changes nothing. */
  lemma TransformIdempotent(v: Value)
    requires TransformAllOf(v).Ok?
    ensures TransformAllOf(TransformAllOf(v).value) == TransformAllOf(v)
  {
    TransformedIsFlat(v);
    FlatIsUnchanged(TransformAllOf(v).value);
  }

  /** The members lose their titles, so the node keeps its own. */
  lemma {:induction false} MergeMembersKeepsTitle(acc: Value, members: seq<Value>)
    requires acc.Obj? && MergeMembers(acc, members).Ok?
    ensures var r := MergeMembers(acc, members).value.members;
      ("title" in r <==> "title" in acc.members) && ("title" in r ==> r["title"] == acc.members["title"])
    decreases |members|
  {
    if members != [] {
      var x := members[0].members - {"title"};
      if x != map[] {
        MergedEntries(acc, x, "title");
      }
      MergeMembersKeepsTitle(Merged(acc, x), members[1..]);
    }
  }

  /**
   * Outside the walked keys a node the traversal accepts is kept as it is:
   * a node without `allOf` keeps its keys, and every key but `properties`
   * and `items` keeps its value.
   */
  lemma OtherKeysKept(w: Value, k: string)
    requires w.Obj? && "allOf" !in w.members && TransformAllOf(w).Ok?
    ensures TransformAllOf(w).value.members.Keys == w.members.Keys
    ensures k != "properties" && k != "items" && k in w.members ==>
      TransformAllOf(w).value.members[k] == w.members[k]
  {
  }

  /** Whatever the traversal does, a node's own `title` is kept, and none is added. */
  lemma {:induction false} TitleKept(v: Value)
    requires v.Obj? && TransformAllOf(v).Ok?
    ensures var r := TransformAllOf(v).value.members;
      ("title" in r <==> "title" in v.members) && ("title" in r ==> r["title"] == v.members["title"])
    decreases Depth(v), TraverseRank(v)
  {
    var m := v.members;
    if "allOf" in m {
      var next := FlattenAllOf(v).value;
      match m["allOf"] {
        case Arr(e) => MergeMembersKeepsTitle(v, e);
        case _ =>
      }
      FlattenAllOfDepth(v);
      TitleKept(next);
    } else {
      OtherKeysKept(v, "title");
    }
  }

  /** The last member's entry wins over the node's and the earlier members' ones. */
  lemma {:induction false} LastMemberWins(acc: Value, members: seq<Value>, k: string)
    requires acc.Obj? && members != [] && MergeMembers(acc, members).Ok?
    requires var last := members[|members| - 1];
      last.Obj? && k in last.members && k != "title" && !IsNonEmptyDict(last.members[k])
    ensures var last := members[|members| - 1];
      k in MergeMembers(acc, members).value.members
      && MergeMembers(acc, members).value.members[k] == last.members[k]
    decreases |members|
  {
    var x := members[0].members - {"title"};
    if |members| == 1 {
      MergedEntries(acc, x, k);
    } else {
      assert members[1..][|members[1..]| - 1] == members[|members| - 1];
      LastMemberWins(Merged(acc, x), members[1..], k);
    }
  }

  /**
   * In an `allOf` node, a plain entry of the last member ends up in the
   * result, whatever the node and the earlier members held under that key.
   */
  lemma TransformLastMemberWins(v: Value, k: string)
    requires v.Obj? && "allOf" in v.members && v.members["allOf"].Arr? && v.members["allOf"].elems != []
    requires var e := v.members["allOf"].elems; var last := e[|e| - 1];
      last.Obj? && k in last.members && !IsNonEmptyDict(last.members[k])
    requires k !in {"title", "allOf", "properties", "items"}
    requires TransformAllOf(v).Ok?
    ensures var last := v.members["allOf"].elems[|v.members["allOf"].elems| - 1];
      k in TransformAllOf(v).value.members && TransformAllOf(v).value.members[k] == last.members[k]
  {
    var e := v.members["allOf"].elems;
    LastMemberWins(v, e, k);
    OtherKeysKept(FlattenAllOf(v).value, k);
  }

  /**
   * A `properties` node without `allOf` has each property transformed and
   * every other entry, `items` included, left as it was.
   */
  lemma PropertiesLeaveItems(v: Value)
    requires v.Obj? && "allOf" !in v.members && "properties" in v.members
    requires TransformAllOf(v).Ok?
    ensures var r := TransformAllOf(v).value.members;
      r.Keys == v.members.Keys
      && (forall k :: k in r && k != "properties" ==> r[k] == v.members[k])
      && (v.members["properties"].Obj? ==>
            var pm := v.members["properties"].members;
            r["properties"].Obj? && r["properties"].members.Keys == pm.Keys
            && forall k :: k in pm ==> TransformAllOf(pm[k]) == Ok(r["properties"].members[k]))
  {
  }

  /** `items` is transformed only in a node with neither `allOf` nor `properties`. */
  lemma ItemsOnlyAlone(v: Value)
    requires v.Obj? && "allOf" !in v.members && "properties" !in v.members && "items" in v.members
    ensures TransformAllOf(v).Ok? <==> TransformAllOf(v.members["items"]).Ok?
    ensures TransformAllOf(v).Ok? ==>
      TransformAllOf(v).value == Obj(v.members["items" := TransformAllOf(v.members["items"]).value])
  {
  }

  // The composition of two property sets: `{"allOf": [{"properties": {"a": A}}, {"properties": {"b": B}}]}`.
  const TypeA := Obj(map["type" := Str("string")])
  const TypeB := Obj(map["type" := Str("number")])
  const MemberA := map["properties" := Obj(map["a" := TypeA])]
  const MemberB := map["properties" := Obj(map["b" := TypeB])]
  const Members := [Obj(MemberA), Obj(MemberB)]
  const Composed := Obj(map["allOf" := Arr(Members)])
  const BothProps := map["a" := TypeA, "b" := TypeB]

  lemma ComposedFirstMerge()
    ensures Mergeable(Composed, MemberA)
    ensures Merged(Composed, MemberA) == Obj(map["allOf" := Arr(Members), "properties" := Obj(map["a" := TypeA])])
  {
    MergeIntoEmpty(map["a" := TypeA]);
    assert GetOrEmpty(Composed.members, "properties") == Obj(map[]);
    assert Mergeable(Composed, MemberA);
    MergedEntries(Composed, MemberA, "allOf");
    MergedEntries(Composed, MemberA, "properties");
  }

  lemma ComposedSecondMerge()
    ensures var acc := Obj(map["allOf" := Arr(Members), "properties" := Obj(map["a" := TypeA])]);
      Mergeable(acc, MemberB) && Merged(acc, MemberB) == Obj(map["allOf" := Arr(Members), "properties" := Obj(BothProps)])
  {
    var acc := Obj(map["allOf" := Arr(Members), "properties" := Obj(map["a" := TypeA])]);
    MergeIntoEmpty(TypeB.members);
    assert GetOrEmpty(map["a" := TypeA], "b") == Obj(map[]);
    assert Mergeable(Obj(map["a" := TypeA]), map["b" := TypeB]);
    MergedEntries(Obj(map["a" := TypeA]), map["b" := TypeB], "a");
    MergedEntries(Obj(map["a" := TypeA]), map["b" := TypeB], "b");
    assert Merged(Obj(map["a" := TypeA]), map["b" := TypeB]) == Obj(BothProps);
    assert Mergeable(acc, MemberB) && "properties" in MemberB;
    MergedEntries(acc, MemberB, "allOf");
    MergedEntries(acc, MemberB, "properties");
  }

  lemma ComposedMembersMerge()
    ensures MergeMembers(Composed, Members) == Ok(Obj(map["allOf" := Arr(Members), "properties" := Obj(BothProps)]))
  {
    assert MemberA - {"title"} == MemberA && MemberB - {"title"} == MemberB;
    ComposedFirstMerge();
    ComposedSecondMerge();
    var acc1 := Obj(map["allOf" := Arr(Members), "properties" := Obj(map["a" := TypeA])]);
    var acc2 := Obj(map["allOf" := Arr(Members), "properties" := Obj(BothProps)]);
    assert Members[0] == Obj(MemberA) && Members[1..] == [Obj(MemberB)];
    assert MergeMembers(Composed, Members) == MergeMembers(acc1, [Obj(MemberB)]);
    assert [Obj(MemberB)][1..] == [];
    assert MergeMembers(acc1, [Obj(MemberB)]) == MergeMembers(acc2, []);
  }

  lemma FlattenList(v: Value, e: seq<Value>)
    requires v.Obj? && "allOf" in v.members && v.members["allOf"] == Arr(e) && MergeMembers(v, e).Ok?
    ensures FlattenAllOf(v) == Ok(Obj(MergeMembers(v, e).value.members - {"allOf"}))
  {
  }

  lemma ComposedFlattened()
    ensures FlattenAllOf(Composed) == Ok(Obj(map["properties" := Obj(BothProps)]))
  {
    ComposedMembersMerge();
    var acc2 := Obj(map["allOf" := Arr(Members), "properties" := Obj(BothProps)]);
    assert Composed.members["allOf"] == Arr(Members);
    FlattenList(Composed, Members);
    DropAllOf(Arr(Members), Obj(BothProps));
  }

  lemma DropAllOf(a: Value, p: Value)
    ensures map["allOf" := a, "properties" := p] - {"allOf"} == map["properties" := p]
  {
  }

  lemma BothPropsFlat()
    ensures Flat(Obj(map["properties" := Obj(BothProps)]))
  {
    assert Flat(TypeA) && Flat(TypeB);
  }

  /** Two members with disjoint properties merge into one `properties` dict, and `allOf` is gone. */
  lemma MergeTwoPropertySets()
    ensures TransformAllOf(Composed) == Ok(Obj(map["properties" := Obj(BothProps)]))
  {
    var next := Obj(map["properties" := Obj(BothProps)]);
    ComposedFlattened();
    BothPropsFlat();
    FlatIsUnchanged(next);
  }
}
