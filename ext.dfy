/**
 * The schema registry of the extension: the state object that maps a
 * schema's relative path to the absolute directory it was registered from,
 * its lookups, the memoised `get_schema`, and the choice of entry point
 * group made when the extension is initialised.
 */
module Ext {
  import opened Wrappers
  import opened Json
  import opened PyStrings
  import opened Errors

  /**
   * One triple yielded by `os.walk(directory)`: the root, already made
   * relative to the walked directory by `os.path.relpath` ("." for the
   * directory itself), and the names of the files in it.
   */
  datatype WalkStep = WalkStep(relRoot: string, files: seq<string>)

  /** A directory handed to `register_schemas_dir`: its path as given, and its walk. */
  datatype SchemaDir = SchemaDir(path: string, walk: seq<WalkStep>)

  /** `maxsize` of the `lru_cache` around `get_schema`. */
  const CacheSize: nat := 1000

  /** `posixpath.join(a, b)`. */
  function PathJoin(a: string, b: string): (r: string)
    ensures EndsWith(r, b)
    ensures !StartsWith(b, "/") ==> StartsWith(r, a)
    ensures a == "" ==> r == b
  {
    if StartsWith(b, "/") then b
    else if a == "" || EndsWith(a, "/") then a + b
    else a + "/" + b
  }

  /** `file.lower().endswith(".json")`. */
  predicate IsSchemaFile(file: string)
  {
    EndsWith(Lower(file), ".json")
  }

  /** The key a walked file is registered under: files of the walked directory itself by bare name. */
  function SchemaName(relRoot: string, file: string): (name: string)
    ensures relRoot == "." ==> name == file
  {
    PathJoin(if relRoot == "." then "" else relRoot, file)
  }

  /** The keys of the schema files of `files`, in walk order. */
  function FileNames(relRoot: string, files: seq<string>): seq<string>
  {
    if files == [] then []
    else (if IsSchemaFile(files[0]) then [SchemaName(relRoot, files[0])] else [])
         + FileNames(relRoot, files[1..])
  }

  /** The keys of the schema files of a whole walk, in walk order. */
  function WalkNames(walk: seq<WalkStep>): seq<string>
  {
    if walk == [] then []
    else FileNames(walk[0].relRoot, walk[0].files) + WalkNames(walk[1..])
  }

  /** The registry after a registration attempt and the duplicate error it raised, if any. */
  datatype Registration = Registration(schemas: map<string, string>, error: Option<SchemaError>)

  /**
   * Inserting `names` one after the other, each mapped to `absDir`, and
   * stopping at the first one already present. `rawDir` is the directory as
   * the caller passed it, which the duplicate error reports.
   */
  function InsertNames(m: map<string, string>, names: seq<string>, absDir: string, rawDir: string): Registration
    decreases |names|
  {
    if names == [] then Registration(m, None)
    else if names[0] in m then Registration(m, Some(SchemaDuplicate(names[0], m[names[0]], rawDir)))
    else InsertNames(m[names[0] := absDir], names[1..], absDir, rawDir)
  }

  /** `m` with every name of `names` mapped to `absDir`. */
  function Commit(m: map<string, string>, names: seq<string>, absDir: string): (r: map<string, string>)
    ensures r.Keys == m.Keys + set n | n in names
    ensures forall n :: n in names ==> r[n] == absDir
    ensures forall n :: n in m && n !in names ==> r[n] == m[n]
  {
    m + map n | n in names :: absDir
  }

  /** No name is registered already and no name repeats. */
  predicate FreshAndDistinct(m: map<string, string>, names: seq<string>)
  {
    forall i :: 0 <= i < |names| ==> names[i] !in m && names[i] !in names[..i]
  }

  /** `names[i]` is the first name that is registered already or repeats an earlier one. */
  predicate FirstClash(m: map<string, string>, names: seq<string>, i: int)
  {
    0 <= i < |names| && (names[i] in m || names[i] in names[..i]) && FreshAndDistinct(m, names[..i])
  }

  lemma FreshAndDistinctCons(m: map<string, string>, n: string, rest: seq<string>, absDir: string)
    requires n !in m
    ensures FreshAndDistinct(m, [n] + rest) <==> FreshAndDistinct(m[n := absDir], rest)
  {
    var names := [n] + rest;
    if FreshAndDistinct(m, names) {
      forall i | 0 <= i < |rest|
        ensures rest[i] !in m[n := absDir] && rest[i] !in rest[..i]
      {
        assert rest[i] == names[i + 1] && names[..i + 1] == [n] + rest[..i];
      }
    }
    if FreshAndDistinct(m[n := absDir], rest) {
      forall i | 0 <= i < |names|
        ensures names[i] !in m && names[i] !in names[..i]
      {
        if i > 0 {
          assert names[i] == rest[i - 1] && names[..i] == [n] + rest[..i - 1];
        }
      }
    }
  }

  lemma CommitCons(m: map<string, string>, n: string, rest: seq<string>, absDir: string)
    ensures Commit(m[n := absDir], rest, absDir) == Commit(m, [n] + rest, absDir)
  {
    var names := [n] + rest;
    assert forall x :: x in names <==> x == n || x in rest;
  }

  /** Registration succeeds exactly when every name is new. */
  lemma {:induction false} InsertNamesSucceeds(m: map<string, string>, names: seq<string>, absDir: string, rawDir: string)
    ensures InsertNames(m, names, absDir, rawDir).error.None? <==> FreshAndDistinct(m, names)
    decreases |names|
  {
    if names != [] && names[0] !in m {
      assert names == [names[0]] + names[1..];
      InsertNamesSucceeds(m[names[0] := absDir], names[1..], absDir, rawDir);
      FreshAndDistinctCons(m, names[0], names[1..], absDir);
    }
  }

  /** A successful registration maps every name to the directory and keeps every earlier entry. */
  lemma {:induction false} InsertNamesCommits(m: map<string, string>, names: seq<string>, absDir: string, rawDir: string)
    requires InsertNames(m, names, absDir, rawDir).error.None?
    ensures InsertNames(m, names, absDir, rawDir).schemas == Commit(m, names, absDir)
    decreases |names|
  {
    if names != [] {
      assert names == [names[0]] + names[1..];
      InsertNamesCommits(m[names[0] := absDir], names[1..], absDir, rawDir);
      CommitCons(m, names[0], names[1..], absDir);
    }
  }

  /**
   * A failed registration stops at the first clash: the entries inserted
   * before it stay, and the error reports the clashing path, the directory it
   * was mapped to and the new directory.
   */
  lemma {:induction false} InsertNamesStopsAtClash(m: map<string, string>, names: seq<string>, absDir: string, rawDir: string)
    requires InsertNames(m, names, absDir, rawDir).error.Some?
    ensures exists i :: StoppedAt(m, names, absDir, rawDir, i, InsertNames(m, names, absDir, rawDir))
    decreases |names|
  {
    if names[0] in m {
      assert Commit(m, names[..0], absDir) == m;
      assert StoppedAt(m, names, absDir, rawDir, 0, InsertNames(m, names, absDir, rawDir));
    } else {
      var m' := m[names[0] := absDir];
      InsertNamesStopsAtClash(m', names[1..], absDir, rawDir);
      var i :| StoppedAt(m', names[1..], absDir, rawDir, i, InsertNames(m', names[1..], absDir, rawDir));
      ClashAfterFresh(m, names, absDir, rawDir, i);
    }
  }

  /**
   * `r` is the outcome of stopping at the clash at `names[i]`: the names
   * before it are committed and the error names the clashing path, the
   * directory it already maps to and the new directory.
   */
  ghost predicate StoppedAt(m: map<string, string>, names: seq<string>, absDir: string, rawDir: string, i: int, r: Registration)
  {
    && FirstClash(m, names, i)
    && r.schemas == Commit(m, names[..i], absDir)
    && r.error == Some(SchemaDuplicate(names[i], Commit(m, names[..i], absDir)[names[i]], rawDir))
  }

  /** The step of `InsertNamesStopsAtClash` past a first name that is new. */
  lemma ClashAfterFresh(m: map<string, string>, names: seq<string>, absDir: string, rawDir: string, i: int)
    requires names != [] && names[0] !in m
    requires StoppedAt(m[names[0] := absDir], names[1..], absDir, rawDir, i,
                       InsertNames(m[names[0] := absDir], names[1..], absDir, rawDir))
    ensures StoppedAt(m, names, absDir, rawDir, i + 1, InsertNames(m, names, absDir, rawDir))
  {
    var n, rest := names[0], names[1..];
    assert names == [n] + rest;
    assert names[..i + 1] == [n] + rest[..i];
    CommitCons(m, n, rest[..i], absDir);
    FirstClashCons(m, n, rest, i, absDir);
  }

  lemma FirstClashCons(m: map<string, string>, n: string, rest: seq<string>, i: int, absDir: string)
    requires n !in m && FirstClash(m[n := absDir], rest, i)
    ensures FirstClash(m, [n] + rest, i + 1)
  {
    var names := [n] + rest;
    assert names[..i + 1] == [n] + rest[..i];
    FreshAndDistinctCons(m, n, rest[..i], absDir);
    assert names[i + 1] == rest[i];
    assert rest[i] in rest[..i] ==> rest[i] in names[..i + 1];
    assert rest[i] == n ==> names[0] == rest[i];
  }

  lemma WalkNamesStep(walk: seq<WalkStep>, i: nat)
    requires i < |walk|
    ensures WalkNames(walk[i..]) == FileNames(walk[i].relRoot, walk[i].files) + WalkNames(walk[i + 1..])
  {
    assert walk[i..][0] == walk[i] && walk[i..][1..] == walk[i + 1..];
  }

  lemma FileNamesStep(relRoot: string, files: seq<string>, j: nat)
    requires j < |files|
    ensures IsSchemaFile(files[j]) ==>
      FileNames(relRoot, files[j..]) == [SchemaName(relRoot, files[j])] + FileNames(relRoot, files[j + 1..])
    ensures !IsSchemaFile(files[j]) ==> FileNames(relRoot, files[j..]) == FileNames(relRoot, files[j + 1..])
  {
    assert files[j..][0] == files[j] && files[j..][1..] == files[j + 1..];
  }

  /** Inserting two lists in turn: the second one only if the first raised nothing. */
  lemma {:induction false} InsertNamesAppend(m: map<string, string>, a: seq<string>, b: seq<string>, absDir: string, rawDir: string)
    ensures InsertNames(m, a + b, absDir, rawDir) ==
      var r := InsertNames(m, a, absDir, rawDir);
      if r.error.Some? then r else InsertNames(r.schemas, b, absDir, rawDir)
    decreases |a|
  {
    if a == [] {
      assert a + b == b;
    } else {
      assert (a + b)[0] == a[0] && (a + b)[1..] == a[1..] + b;
      if a[0] !in m {
        InsertNamesAppend(m[a[0] := absDir], a[1..], b, absDir, rawDir);
      }
    }
  }

  lemma InsertNamesStep(m: map<string, string>, name: string, rest: seq<string>, absDir: string, rawDir: string)
    ensures InsertNames(m, [name] + rest, absDir, rawDir)
      == if name in m then Registration(m, Some(SchemaDuplicate(name, m[name], rawDir)))
         else InsertNames(m[name := absDir], rest, absDir, rawDir)
  {
    assert ([name] + rest)[0] == name && ([name] + rest)[1..] == rest;
  }

  /** Some walked file is a schema file registered under `name`. */
  ghost predicate Walked(walk: seq<WalkStep>, name: string)
  {
    exists i, j :: 0 <= i < |walk| && 0 <= j < |walk[i].files| && IsSchemaFile(walk[i].files[j])
      && name == SchemaName(walk[i].relRoot, walk[i].files[j])
  }

  /** A name is in the walk's list exactly when some walked file is a schema file with that key. */
  lemma {:induction false} WalkNamesMembers(walk: seq<WalkStep>, name: string)
    ensures name in WalkNames(walk) <==> Walked(walk, name)
    decreases |walk|
  {
    if walk != [] {
      WalkNamesMembers(walk[1..], name);
      FileNamesMembers(walk[0].relRoot, walk[0].files, name);
      if name in WalkNames(walk[1..]) {
        var i, j :| 0 <= i < |walk[1..]| && 0 <= j < |walk[1..][i].files| && IsSchemaFile(walk[1..][i].files[j])
          && name == SchemaName(walk[1..][i].relRoot, walk[1..][i].files[j]);
        assert walk[1..][i] == walk[i + 1];
      }
      if Walked(walk, name) {
        var i, j :| 0 <= i < |walk| && 0 <= j < |walk[i].files| && IsSchemaFile(walk[i].files[j])
          && name == SchemaName(walk[i].relRoot, walk[i].files[j]);
        if i > 0 {
          assert walk[1..][i - 1] == walk[i];
        }
      }
    }
  }

  lemma {:induction false} FileNamesMembers(relRoot: string, files: seq<string>, name: string)
    ensures name in FileNames(relRoot, files) <==>
      exists j :: 0 <= j < |files| && IsSchemaFile(files[j]) && name == SchemaName(relRoot, files[j])
    decreases |files|
  {
    if files != [] {
      FileNamesMembers(relRoot, files[1..], name);
      if exists j :: 0 <= j < |files| && IsSchemaFile(files[j]) && name == SchemaName(relRoot, files[j]) {
        var j :| 0 <= j < |files| && IsSchemaFile(files[j]) && name == SchemaName(relRoot, files[j]);
        if j > 0 {
          assert files[1..][j - 1] == files[j];
        }
      }
    }
  }

  /**
   * A successful registration of a directory adds exactly the keys of its
   * schema files, each mapped to the directory's absolute path, and keeps
   * every entry that was there before.
   */
  lemma RegisterDirAddsItsSchemaFiles(m: map<string, string>, dir: SchemaDir, absDir: string, name: string)
    requires InsertNames(m, WalkNames(dir.walk), absDir, dir.path).error.None?
    ensures var r := InsertNames(m, WalkNames(dir.walk), absDir, dir.path).schemas;
      (name in r && name !in m <==> Walked(dir.walk, name))
      && (name in m ==> name in r && r[name] == m[name])
      && (name in r && name !in m ==> r[name] == absDir)
  {
    var names := WalkNames(dir.walk);
    InsertNamesCommits(m, names, absDir, dir.path);
    WalkNamesMembers(dir.walk, name);
    assert Commit(m, names, absDir).Keys == m.Keys + set n | n in names;
    assert name in Commit(m, names, absDir) <==> name in m || name in names;
    InsertNamesSucceeds(m, names, absDir, dir.path);
    if name in names {
      var i :| 0 <= i < |names| && names[i] == name;
    }
  }

  /** What an `lru_cache` holds: keys from least to most recently used, and their values. */
  datatype Lru = Lru(order: seq<string>, entries: map<string, Value>)

  /** The cache's own invariant: each key once, the same keys on both sides, at most `CacheSize`. */
  ghost predicate LruValid(c: Lru)
  {
    && |c.order| <= CacheSize
    && Distinct(c.order)
    && (forall k :: k in c.entries <==> k in c.order)
  }

  /** No key occurs twice. */
  predicate Distinct(order: seq<string>)
  {
    forall i, j :: 0 <= i < j < |order| ==> order[i] != order[j]
  }

  /** `order` without `k`. */
  function Without(order: seq<string>, k: string): (r: seq<string>)
    ensures forall x :: x in r <==> x in order && x != k
  {
    if order == [] then []
    else if order[0] == k then Without(order[1..], k)
    else [order[0]] + Without(order[1..], k)
  }

  /** Removing a key from a list without repeats leaves a list without repeats, one shorter. */
  lemma {:induction false} WithoutDistinct(order: seq<string>, k: string)
    requires Distinct(order)
    ensures Distinct(Without(order, k))
    ensures |Without(order, k)| == if k in order then |order| - 1 else |order|
    decreases |order|
  {
    if order != [] {
      assert Distinct(order[1..]);
      WithoutDistinct(order[1..], k);
      assert order[0] !in order[1..];
      if order[0] == k {
        assert k !in order[1..];
      } else {
        assert k in order <==> k in order[1..];
      }
    }
  }

  /** A key that is absent is removed by leaving the list as it is. */
  lemma {:induction false} WithoutAbsent(order: seq<string>, k: string)
    requires k !in order
    ensures Without(order, k) == order
    decreases |order|
  {
    if order != [] {
      WithoutAbsent(order[1..], k);
      assert order == [order[0]] + order[1..];
    }
  }

  /** In a list without repeats, removing the key at `i` cuts out that one position; the rest keep their order. */
  lemma {:induction false} WithoutCutsOut(order: seq<string>, k: string, i: nat)
    requires Distinct(order) && i < |order| && order[i] == k
    ensures Without(order, k) == order[..i] + order[i + 1..]
    decreases i
  {
    if i == 0 {
      assert order[0] !in order[1..];
      WithoutAbsent(order[1..], k);
    } else {
      assert Distinct(order[1..]);
      assert order[1..][i - 1] == k;
      WithoutCutsOut(order[1..], k, i - 1);
      assert order[1..][..i - 1] == order[1..i];
      assert order[1..][i..] == order[i + 1..];
      assert [order[0]] + order[1..i] == order[..i];
    }
  }

  /** A hit: the key becomes the most recently used. */
  function Touch(c: Lru, k: string): (r: Lru)
    requires LruValid(c) && k in c.entries
    ensures LruValid(r) && r.entries == c.entries
    ensures r.order[|r.order| - 1] == k
  {
    WithoutDistinct(c.order, k);
    Lru(Without(c.order, k) + [k], c.entries)
  }

  /** On a hit the key moves from its place to the most recent end; the other keys keep their order. */
  lemma TouchMovesKeyToEnd(c: Lru, k: string, i: nat)
    requires LruValid(c) && i < |c.order| && c.order[i] == k
    ensures Touch(c, k).order == c.order[..i] + c.order[i + 1..] + [k]
  {
    WithoutCutsOut(c.order, k, i);
  }

  /** A miss that returned `v`: the key is stored as most recent, evicting the least recent when full. */
  function Admit(c: Lru, k: string, v: Value): (r: Lru)
    requires LruValid(c) && k !in c.entries
    ensures LruValid(r)
    ensures k in r.entries && r.entries[k] == v && r.order[|r.order| - 1] == k
    ensures |c.order| < CacheSize ==> r.entries == c.entries[k := v]
    ensures |c.order| >= CacheSize ==> r.entries == (c.entries - {c.order[0]})[k := v]
    ensures |c.order| < CacheSize ==> r.order == c.order + [k]
    ensures |c.order| >= CacheSize ==> r.order == c.order[1..] + [k]
  {
    if |c.order| >= CacheSize then
      Lru(c.order[1..] + [k], (c.entries - {c.order[0]})[k := v])
    else
      Lru(c.order + [k], c.entries[k := v])
  }

  /** Why `get_schema` raised. */
  datatype LoadError =
    | NotRegistered(error: SchemaError)   // JSONSchemaNotFound
    | FileUnreadable(file: string)        // the IOError of `open`

  /**
   * `InvenioJSONSchemasState`. `os.path.abspath` and the file system are
   * given to the constructor: `abspath` is a function of the path, `files`
   * maps an absolute file path to the JSON it parses to.
   */
  class SchemaState {
    const abspath: string -> string
    const files: map<string, Value>
    var schemas: map<string, string>
    var lru: Lru
    /** How many schema files `get_schema` has opened. */
    var fileReads: nat

    ghost predicate Valid()
      reads this
    {
      LruValid(lru) && lru.entries.Keys <= schemas.Keys
    }

    constructor (abspath: string -> string, files: map<string, Value>)
      ensures Valid()
      ensures this.abspath == abspath && this.files == files
      ensures schemas == map[] && lru == Lru([], map[]) && fileReads == 0
    {
      this.abspath := abspath;
      this.files := files;
      schemas := map[];
      lru := Lru([], map[]);
      fileReads := 0;
    }

    /**
     * `register_schemas_dir`: walks the directory and inserts the key of
     * every schema file, stopping with a duplicate error at the first key
     * already present. The cache is not touched.
     */
    method RegisterSchemasDir(dir: SchemaDir) returns (err: Option<SchemaError>)
      requires Valid()
      modifies this`schemas
      ensures Valid()
      ensures var r := InsertNames(old(schemas), WalkNames(dir.walk), abspath(dir.path), dir.path);
        schemas == r.schemas && err == r.error
    {
      var absDir := abspath(dir.path);
      ghost var goal := InsertNames(schemas, WalkNames(dir.walk), absDir, dir.path);
      var i := 0;
      while i < |dir.walk|
        invariant 0 <= i <= |dir.walk|
        invariant Valid()
        invariant goal == InsertNames(schemas, WalkNames(dir.walk[i..]), absDir, dir.path)
      {
        var step := dir.walk[i];
        WalkNamesStep(dir.walk, i);
        InsertNamesAppend(schemas, FileNames(step.relRoot, step.files), WalkNames(dir.walk[i + 1..]), absDir, dir.path);
        err := RegisterFiles(step.relRoot, step.files, absDir, dir.path);
        if err.Some? {
          return;
        }
        i := i + 1;
      }
      assert dir.walk[|dir.walk|..] == [];
      err := None;
    }

    /**
     * The inner loop of `register_schemas_dir`, over the files of one
     * walked directory: each schema file is registered unless its key is
     * taken, which raises.
     */
    method RegisterFiles(relRoot: string, files: seq<string>, absDir: string, rawDir: string)
        returns (err: Option<SchemaError>)
      requires Valid()
      modifies this`schemas
      ensures Valid()
      ensures var r := InsertNames(old(schemas), FileNames(relRoot, files), absDir, rawDir);
        schemas == r.schemas && err == r.error
    {
      var dirPath := if relRoot == "." then "" else relRoot;
      ghost var goal := InsertNames(schemas, FileNames(relRoot, files), absDir, rawDir);
      var j := 0;
      while j < |files|
        invariant 0 <= j <= |files|
        invariant old(schemas).Keys <= schemas.Keys
        invariant goal == InsertNames(schemas, FileNames(relRoot, files[j..]), absDir, rawDir)
      {
        var file := files[j];
        FileNamesStep(relRoot, files, j);
        if IsSchemaFile(file) {
          var name := PathJoin(dirPath, file);
          assert name == SchemaName(relRoot, file);
          InsertNamesStep(schemas, name, FileNames(relRoot, files[j + 1..]), absDir, rawDir);
          if name in schemas {
            err := Some(SchemaDuplicate(name, schemas[name], rawDir));
            return;
          }
          schemas := schemas[name := absDir];
        }
        j := j + 1;
      }
      assert files[|files|..] == [];
      err := None;
    }

    /** `register_schema`: maps one path to the directory, overwriting with no check. */
    method RegisterSchema(directory: string, path: string)
      requires Valid()
      modifies this`schemas
      ensures Valid()
      ensures schemas == old(schemas)[path := abspath(directory)]
    {
      schemas := schemas[path := abspath(directory)];
    }

    /** `get_schema_dir`. */
    function GetSchemaDir(path: string): (r: Result<string, SchemaError>)
      reads this
      ensures r.Failure? <==> path !in schemas
      ensures r.Failure? ==> r.error == SchemaNotFound(path)
      ensures r.Success? ==> r.value == schemas[path]
    {
      if path !in schemas then Failure(SchemaNotFound(path)) else Success(schemas[path])
    }

    /** `get_schema_path`: the registered directory joined with the relative path. */
    function GetSchemaPath(path: string): (r: Result<string, SchemaError>)
      reads this
      ensures r.Failure? <==> GetSchemaDir(path).Failure?
      ensures r.Failure? ==> r.error == SchemaNotFound(path)
      ensures r.Success? ==> r.value == PathJoin(GetSchemaDir(path).value, path) && EndsWith(r.value, path)
    {
      if path !in schemas then Failure(SchemaNotFound(path)) else Success(PathJoin(schemas[path], path))
    }

    /** `list_schemas`: the registered paths, the ones `get_schema_dir` finds. */
    function ListSchemas(): (names: set<string>)
      reads this
      ensures forall p :: p in names <==> GetSchemaDir(p).Success?
    {
      schemas.Keys
    }

    /**
     * `get_schema` behind `lru_cache(maxsize=1000)`. A cached path is served
     * from the cache without opening a file, even if it was re-registered
     * since. Otherwise the path is looked up; a missing registration or an
     * unreadable file raises and caches nothing, a file read is cached.
     */
    method GetSchema(path: string) returns (r: Result<Value, LoadError>)
      requires Valid()
      modifies this`lru, this`fileReads
      ensures Valid()
      ensures r.Failure? && r.error.NotRegistered? <==> path !in schemas
      ensures r.Failure? && r.error.NotRegistered? ==> r.error.error == SchemaNotFound(path)
      ensures path in old(lru.entries) ==>
        r == Success(old(lru.entries)[path]) && lru == Touch(old(lru), path) && fileReads == old(fileReads)
      ensures path !in old(lru.entries) && path !in schemas ==>
        lru == old(lru) && fileReads == old(fileReads)
      ensures path !in old(lru.entries) && path in schemas ==>
        var file := PathJoin(schemas[path], path);
        if file in files then
          r == Success(files[file]) && lru == Admit(old(lru), path, files[file]) && fileReads == old(fileReads) + 1
        else
          r == Failure(FileUnreadable(file)) && lru == old(lru) && fileReads == old(fileReads)
    {
      if path in lru.entries {
        r := Success(lru.entries[path]);
        lru := Touch(lru, path);
        return;
      }
      if path !in schemas {
        r := Failure(NotRegistered(SchemaNotFound(path)));
        return;
      }
      var file := PathJoin(schemas[path], path);
      if file !in files {
        r := Failure(FileUnreadable(file));
        return;
      }
      fileReads := fileReads + 1;
      var data := files[file];
      lru := Admit(lru, path, data);
      r := Success(data);
    }
  }

  /**
   * Reading the same schema again is served from the cache; reading another
   * one opens one more file.
   */
  method ReadTwiceOpensOnce(s: SchemaState, p: string, q: string)
    requires s.Valid() && p != q && p in s.schemas && q in s.schemas
    requires p !in s.lru.entries && q !in s.lru.entries
    requires PathJoin(s.schemas[p], p) in s.files && PathJoin(s.schemas[q], q) in s.files
    modifies s
    ensures s.fileReads == old(s.fileReads) + 2
  {
    var a := s.GetSchema(p);
    var b := s.GetSchema(p);
    assert a == b;
    assert s.fileReads == old(s.fileReads) + 1;
    var d := s.GetSchema(q);
    var e := s.GetSchema(q);
    assert d == e;
  }

  const DefaultEntryPointGroup := "invenio_jsonschemas.schemas"

  /** Python's truth value of an optional string argument. */
  predicate Given(s: Option<string>)
  {
    s.Some? && s.value != ""
  }

  /**
   * The entry point group `init_app` loads from: its own argument when that
   * is truthy, else the `entry_point_group` keyword given to the
   * constructor, else the package default.
   */
  function EntryPointGroup(explicit: Option<string>, kwargs: map<string, Option<string>>): (g: Option<string>)
    ensures Given(explicit) ==> g == explicit
    ensures !Given(explicit) && "entry_point_group" in kwargs ==> g == kwargs["entry_point_group"]
    ensures !Given(explicit) && "entry_point_group" !in kwargs ==> g == Some(DefaultEntryPointGroup)
  {
    if Given(explicit) then explicit
    else if "entry_point_group" in kwargs then kwargs["entry_point_group"]
    else Some(DefaultEntryPointGroup)
  }

  /** Registering the directories one after the other, stopping at the first error. */
  function RegisterDirs(m: map<string, string>, dirs: seq<SchemaDir>, abspath: string -> string): Registration
    decreases |dirs|
  {
    if dirs == [] then Registration(m, None)
    else
      var r := InsertNames(m, WalkNames(dirs[0].walk), abspath(dirs[0].path), dirs[0].path);
      if r.error.Some? then r else RegisterDirs(r.schemas, dirs[1..], abspath)
  }

  lemma RegisterDirsStep(m: map<string, string>, dirs: seq<SchemaDir>, k: nat, abspath: string -> string)
    requires k < |dirs|
    ensures RegisterDirs(m, dirs[k..], abspath)
      == var r := InsertNames(m, WalkNames(dirs[k].walk), abspath(dirs[k].path), dirs[k].path);
         if r.error.Some? then r else RegisterDirs(r.schemas, dirs[k + 1..], abspath)
  {
    assert dirs[k..][0] == dirs[k] && dirs[k..][1..] == dirs[k + 1..];
  }

  /**
   * Without a usable group nothing is loaded; the only way to get there is a
   * falsy group passed as a keyword, e.g. `entry_point_group=None`.
   */
  lemma NoGroupLoadsNothing(explicit: Option<string>, kwargs: map<string, Option<string>>)
    ensures !Given(EntryPointGroup(explicit, kwargs)) <==>
      !Given(explicit) && "entry_point_group" in kwargs && !Given(kwargs["entry_point_group"])
  {
  }

  /**
   * `InvenioJSONSchemas.init_app`: picks the group, creates the state and
   * registers the directory of every entry point of the group in the order
   * `entryPoints` lists them. A duplicate error propagates out of `init_app`.
   */
  method InitApp(explicit: Option<string>, kwargs: map<string, Option<string>>,
                 entryPoints: string -> seq<SchemaDir>, abspath: string -> string, files: map<string, Value>)
    returns (state: SchemaState, err: Option<SchemaError>)
    ensures fresh(state) && state.Valid() && state.abspath == abspath && state.files == files
    ensures var g := EntryPointGroup(explicit, kwargs);
      var r := RegisterDirs(map[], if Given(g) then entryPoints(g.value) else [], abspath);
      state.schemas == r.schemas && err == r.error
    ensures !Given(EntryPointGroup(explicit, kwargs)) ==> state.schemas == map[] && err == None
  {
    var group := EntryPointGroup(explicit, kwargs);
    state := new SchemaState(abspath, files);
    err := None;
    if Given(group) {
      var dirs := entryPoints(group.value);
      var k := 0;
      while k < |dirs|
        invariant 0 <= k <= |dirs|
        invariant state.Valid() && state.abspath == abspath && state.files == files
        invariant RegisterDirs(map[], dirs, abspath) == RegisterDirs(state.schemas, dirs[k..], abspath)
        invariant err == None
      {
        RegisterDirsStep(state.schemas, dirs, k, abspath);
        err := state.RegisterSchemasDir(dirs[k]);
        if err.Some? {
          return;
        }
        k := k + 1;
      }
      assert dirs[k..] == [];
    }
  }

  const EndpointKey := "JSONSCHEMAS_ENDPOINT"
  const HostKey := "JSONSCHEMAS_HOST"

  /** `init_config`: `setdefault` of the endpoint and the host. */
  function InitConfig(config: map<string, string>): (r: map<string, string>)
    ensures r.Keys == config.Keys + {EndpointKey, HostKey}
    ensures forall k :: k in config ==> r[k] == config[k]
    ensures EndpointKey !in config ==> r[EndpointKey] == "/schemas"
    ensures HostKey !in config ==> r[HostKey] == "http://localhost"
  {
    var c := if EndpointKey in config then config else config[EndpointKey := "/schemas"];
    if HostKey in c then c else c[HostKey := "http://localhost"]
  }

  /** Configuring twice is the same as configuring once. */
  lemma InitConfigIdempotent(config: map<string, string>)
    ensures InitConfig(InitConfig(config)) == InitConfig(config)
  {
  }
}
