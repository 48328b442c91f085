/**
 * The schema API: the list of available schema names with the virtual
 * `records/` schemas derived from `forms/` ones, loading a schema by name,
 * resolving a schema URI that must point at this server, and the
 * preparation of a document and its schema for validation.
 *
 * `url_for`, `urlparse`, `resolve_pointer` (JSON Pointer, RFC 6901) and
 * `jsonschema.validate` are foreign code; they are given as functions.
 */
module Api {
  import opened Wrappers
  import opened Json
  import opened PyStrings

  /** The four parts of `urlparse.urlparse`'s result that are used. */
  datatype ParsedUri = ParsedUri(scheme: string, netloc: string, path: string, fragment: string)

  /**
   * What the API reads from outside: the registered schema names with the
   * files they are stored in, the parsed content of the readable files, the
   * `JSONSCHEMAS_BASE_SCHEMA` setting, the URL `url_for` builds for a schema
   * path, `urlparse`, `resolve_pointer` (None where a pointer does not
   * resolve) and the validator (false where it raises `ValidationError`).
   */
  datatype Env = Env(
    schemaFiles: map<string, string>,
    files: map<string, Value>,
    baseSchema: Option<string>,
    schemaUrl: string -> string,
    urlparse: string -> ParsedUri,
    resolvePointer: (Value, string) -> Option<Value>,
    validate: (Value, Value) -> bool)

  /** Why an API call raised. */
  datatype ApiError =
    | InsecureSchemaLocation(message: string)
    | FileUnreadable(file: string)       // the IOError of `open`
    | PointerUnresolvable(pointer: string)
    | EmptySeparator                     // the ValueError of `split('')`
    | TypeFault                          // a TypeError or AttributeError
    | ValidationFailed                   // jsonschema's ValidationError

  const FormsPrefix := "forms/"
  const RecordsPrefix := "records/"

  /** The name a `forms/` schema's virtual record schema is listed under. */
  function RecordName(f: string): (n: string)
    requires StartsWith(f, FormsPrefix)
    ensures StartsWith(n, RecordsPrefix) && FormName(n) == f
  {
    var n := "records" + f[5..];
    assert n[..8] == RecordsPrefix;
    assert "forms" + n[7..] == f;
    n
  }

  /** The `forms/` schema a `records/` name is derived from. */
  function FormName(n: string): (f: string)
    requires StartsWith(n, RecordsPrefix)
    ensures StartsWith(f, FormsPrefix)
  {
    var f := "forms" + n[7..];
    assert f[..6] == FormsPrefix;
    f
  }

  lemma FormNameInverse(n: string)
    requires StartsWith(n, RecordsPrefix)
    ensures RecordName(FormName(n)) == n
  {
    assert n == "records" + n[7..];
  }

  /** The names of `keys` and the virtual record names of their `forms/` ones. */
  function NamesOf(keys: set<string>): set<string>
  {
    keys + set f | f in keys && StartsWith(f, FormsPrefix) :: RecordName(f)
  }

  /** The full list of available schema names `get_schemas` promises. */
  function SchemaNames(schemaFiles: map<string, string>): set<string>
  {
    NamesOf(schemaFiles.Keys)
  }

  /** A name is listed when it is registered or is the record name of a registered form. */
  lemma SchemaNamesMembers(schemaFiles: map<string, string>, n: string)
    ensures n in SchemaNames(schemaFiles) <==>
      n in schemaFiles || (StartsWith(n, RecordsPrefix) && FormName(n) in schemaFiles)
  {
    if StartsWith(n, RecordsPrefix) && FormName(n) in schemaFiles {
      FormNameInverse(n);
    }
  }

  /**
   * `get_schemas`: every registered name, and for each one under `forms/`
   * the name with its first `forms` replaced by `records`.
   */
  method GetSchemas(schemaFiles: map<string, string>) returns (schemas: set<string>)
    ensures schemas == SchemaNames(schemaFiles)
  {
    schemas := {};
    var todo := schemaFiles.Keys;
    ghost var done: set<string> := {};
    while todo != {}
      invariant done + todo == schemaFiles.Keys
      invariant schemas == NamesOf(done)
      decreases |todo|
    {
      var f :| f in todo;
      NamesOfAdd(done, f);
      schemas := schemas + {f};
      if StartsWith(f, FormsPrefix) {
        schemas := schemas + {ReplaceFirst(f, "forms", "records")};
      }
      done, todo := done + {f}, todo - {f};
    }
  }

  /** One more registered name: itself, and its record name for a form. */
  lemma NamesOfAdd(keys: set<string>, f: string)
    ensures NamesOf(keys + {f}) == NamesOf(keys) + {f} +
      (if StartsWith(f, FormsPrefix) then {ReplaceFirst(f, "forms", "records")} else {})
  {
    if StartsWith(f, FormsPrefix) {
      ReplacePrefix("forms", "records", f[5..]);
      assert f == "forms" + f[5..];
      assert ReplaceFirst(f, "forms", "records") == RecordName(f);
    }
  }

  /** `internal_schema_url(*parts)` with one part. */
  function SchemaRef(env: Env, path: string): Value
  {
    Obj(map["$ref" := Str(env.schemaUrl(path))])
  }

  /** The virtual record schema: the base schema composed with the form. */
  function VirtualRecord(env: Env, form: string): Value
    requires env.baseSchema.Some?
  {
    Obj(map["allOf" := Arr([SchemaRef(env, env.baseSchema.value), SchemaRef(env, form)])])
  }

  /** `JSONSCHEMAS_BASE_SCHEMA` is set to a non-empty value. */
  predicate HasBase(env: Env)
  {
    env.baseSchema.Some? && env.baseSchema.value != ""
  }

  /**
   * `get_schema_data(f, default)`: a registered name serves its file;
   * otherwise, with a base schema configured, an unregistered `records/`
   * name whose `forms/` counterpart is registered serves the virtual
   * record; anything else gives `default`.
   */
  function GetSchemaData(env: Env, f: string, default: Value): (r: Result<Value, ApiError>)
    ensures f in env.schemaFiles ==>
      r == if env.schemaFiles[f] in env.files then Success(env.files[env.schemaFiles[f]])
           else Failure(FileUnreadable(env.schemaFiles[f]))
    ensures f !in env.schemaFiles && HasBase(env) && StartsWith(f, RecordsPrefix) && FormName(f) in env.schemaFiles ==>
      r == Success(VirtualRecord(env, FormName(f)))
    ensures f !in env.schemaFiles && !(HasBase(env) && StartsWith(f, RecordsPrefix) && FormName(f) in env.schemaFiles) ==>
      r == Success(default)
  {
    if f in env.schemaFiles then
      var file := env.schemaFiles[f];
      if file in env.files then Success(env.files[file]) else Failure(FileUnreadable(file))
    else if HasBase(env) && StartsWith(f, RecordsPrefix) then
      ReplacePrefix("records", "forms", f[7..]);
      assert f == "records" + f[7..];
      var f2 := ReplaceFirst(f, "records", "forms");
      if f2 in env.schemaFiles then Success(VirtualRecord(env, f2)) else Success(default)
    else Success(default)
  }

  // ---------------------------------------------------------------------
  // get_schema_from_uri
  // ---------------------------------------------------------------------

  /** `url_for('jsonschemas.schema', path='', _external=True)`, parsed. */
  function BaseUri(env: Env): ParsedUri
  {
    env.urlparse(env.schemaUrl(""))
  }

  /** A URI is internal when it has the base URL's scheme and host and a path under the base path. */
  predicate IsInternal(env: Env, uri: string)
  {
    var u, b := env.urlparse(uri), BaseUri(env);
    b.scheme == u.scheme && b.netloc == u.netloc && StartsWith(u.path, b.path)
  }

  const InsecurePrefix := "Requested schema located on insecure location: "

  /** The schema at an internal path, with the fragment resolved as a JSON pointer. */
  function ResolveInternal(env: Env, path: string, fragment: string): Result<Value, ApiError>
  {
    match GetSchemaData(env, path, Null)
    case Failure(e) => Failure(e)
    case Success(data) =>
      match env.resolvePointer(data, fragment)
      case None => Failure(PointerUnresolvable(fragment))
      case Some(x) => Success(x)
  }

  /**
   * `get_schema_from_uri`: an internal URI is served from the registered
   * schemas; any other URI raises `InsecureSchemaLocation`.
   */
  function GetSchemaFromUri(env: Env, uri: string): (r: Result<Value, ApiError>)
    ensures !IsInternal(env, uri) <==> r == Failure(InsecureSchemaLocation(InsecurePrefix + uri))
    ensures IsInternal(env, uri) && BaseUri(env).path == "" ==> r == Failure(EmptySeparator)
    ensures IsInternal(env, uri) && BaseUri(env).path != "" ==>
      var u := env.urlparse(uri);
      r == ResolveInternal(env, u.path[|BaseUri(env).path|..], u.fragment)
  {
    var u, b := env.urlparse(uri), BaseUri(env);
    if b.scheme == u.scheme && b.netloc == u.netloc && StartsWith(u.path, b.path) then
      if b.path == "" then Failure(EmptySeparator)
      else
        SplitOncePrefix(u.path, b.path);
        var internalPath := SplitOnce(u.path, b.path)[1];
        var r := ResolveInternal(env, internalPath, u.fragment);
        assert !r.Failure? || !r.error.InsecureSchemaLocation?;
        r
    else Failure(InsecureSchemaLocation(InsecurePrefix + uri))
  }

  /** The internal path is what follows the base path: putting the base path back gives the URI's path. */
  lemma InternalPathRoundTrip(env: Env, uri: string)
    requires IsInternal(env, uri)
    ensures var u, b := env.urlparse(uri), BaseUri(env);
      b.path + u.path[|b.path|..] == u.path
  {
    var u, b := env.urlparse(uri), BaseUri(env);
    assert u.path == u.path[..|b.path|] + u.path[|b.path|..];
  }

  /** The insecure-location message gives back the URI it was raised for. */
  lemma InsecureMessageNamesUri(env: Env, uri: string)
    requires !IsInternal(env, uri)
    ensures var r := GetSchemaFromUri(env, uri);
      r.Failure? && r.error.InsecureSchemaLocation?
      && StartsWith(r.error.message, InsecurePrefix)
      && r.error.message[|InsecurePrefix|..] == uri
  {
    assert (InsecurePrefix + uri)[|InsecurePrefix|..] == uri;
  }

  // ---------------------------------------------------------------------
  // validate_json
  // ---------------------------------------------------------------------

  /** `d.get(k, default)` on a dict. */
  function GetOr(d: map<string, Value>, k: string, default: Value): Value
  {
    if k in d then d[k] else default
  }

  /** What `validate_json` hands to the validator: the document and the schema. */
  datatype Prepared = Prepared(data: Value, schema: Value)

  /**
   * The schema `validate_json` works with before `additionalProperties`:
   * the argument if truthy, else the document's `$schema` (default `{}`),
   * resolved with `get_schema_from_uri` when it is a string.
   */
  function ResolvedSchema(env: Env, json: Value, schema: Value): Result<Value, ApiError>
    requires json.Obj?
  {
    var s := if Truthy(schema) then schema else GetOr(json.members, "$schema", Obj(map[]));
    if s.Str? then GetSchemaFromUri(env, s.s) else Success(s)
  }

  /**
   * The steps of `validate_json` before `jsonschema.validate`: a falsy
   * schema is replaced by the document's `$schema` (or `{}`); a string
   * schema is a URI and is resolved; `additionalProperties` is written into
   * the schema when given (`Null` is Python's `None`, i.e. not given); the
   * data is the document without `$schema`.
   */
  function PrepareValidation(env: Env, json: Value, schema: Value, additional: Value): (r: Result<Prepared, ApiError>)
    ensures r.Success? ==> json.Obj? && r.value.data == Obj(json.members - {"$schema"})
    ensures r.Success? && additional != Null ==>
      r.value.schema.Obj? && "additionalProperties" in r.value.schema.members
      && r.value.schema.members["additionalProperties"] == additional
    ensures r.Success? && additional == Null && Truthy(schema) && !schema.Str? ==> r.value.schema == schema
    ensures !json.Obj? ==> r.Failure?
    ensures json.Obj? && r.Success? ==>
      var u := ResolvedSchema(env, json, schema);
      u.Success?
      && (additional == Null ==> r.value.schema == u.value)
      && (additional != Null ==>
            u.value.Obj? && r.value.schema == Obj(u.value.members["additionalProperties" := additional]))
    ensures json.Obj? && ResolvedSchema(env, json, schema).Failure? ==>
      r == Failure(ResolvedSchema(env, json, schema).error)
    ensures json.Obj? && ResolvedSchema(env, json, schema).Success? ==>
      (r.Success? <==> additional == Null || ResolvedSchema(env, json, schema).value.Obj?)
  {
    var given :=
      if Truthy(schema) then Success(schema)
      else if json.Obj? then Success(GetOr(json.members, "$schema", Obj(map[])))
      else Failure(TypeFault);
    var resolved :=
      match given
      case Failure(e) => Failure(e)
      case Success(s) => if s.Str? then GetSchemaFromUri(env, s.s) else Success(s);
    var withAdditional :=
      match resolved
      case Failure(e) => Failure(e)
      case Success(s) =>
        if additional == Null then Success(s)
        else if s.Obj? then Success(Obj(s.members["additionalProperties" := additional]))
        else Failure(TypeFault);
    match withAdditional
    case Failure(e) => Failure(e)
    case Success(s) =>
      if json.Obj? then Success(Prepared(Obj(json.members - {"$schema"}), s)) else Failure(TypeFault)
  }

  /** The data the validator sees is the caller's document less `$schema`, entry for entry. */
  lemma PreparedDataKeepsDocument(env: Env, json: Value, schema: Value, additional: Value, k: string)
    requires PrepareValidation(env, json, schema, additional).Success?
    ensures var data := PrepareValidation(env, json, schema, additional).value.data;
      data.Obj? && "$schema" !in data.members
      && (k in data.members <==> k in json.members && k != "$schema")
      && (k in data.members ==> data.members[k] == json.members[k])
  {
  }

  /** Without a schema argument, the document's own `$schema` URI is resolved. */
  lemma SchemaFromDocument(env: Env, json: Value, uri: string)
    requires json.Obj? && "$schema" in json.members && json.members["$schema"] == Str(uri)
    ensures var r := PrepareValidation(env, json, Null, Null);
      match GetSchemaFromUri(env, uri)
      case Failure(e) => r == Failure(e)
      case Success(s) => r == Success(Prepared(Obj(json.members - {"$schema"}), s))
  {
  }

  /** `validate_json`: true when the validator accepts, else the error raised. */
  function ValidateJson(env: Env, json: Value, schema: Value, additional: Value): (r: Result<bool, ApiError>)
    ensures r.Success? ==> r.value
    ensures r.Success? <==>
      PrepareValidation(env, json, schema, additional).Success?
      && var p := PrepareValidation(env, json, schema, additional).value; env.validate(p.data, p.schema)
  {
    match PrepareValidation(env, json, schema, additional)
    case Failure(e) => Failure(e)
    case Success(p) => if env.validate(p.data, p.schema) then Success(true) else Failure(ValidationFailed)
  }

  // ---------------------------------------------------------------------
  // Virtual schemas listed without a base schema
  // ---------------------------------------------------------------------

  /** A name that `get_schema_data` serves: a registered one, or a virtual record it can build. */
  predicate Served(env: Env, n: string)
  {
    n in env.schemaFiles || (HasBase(env) && StartsWith(n, RecordsPrefix) && FormName(n) in env.schemaFiles)
  }

  /**
   * As written, `get_schemas` lists the record name of a form even when no
   * base schema is configured, and `get_schema_data` then gives the
   * default for it.
   */
  lemma ListedButNotServed(env: Env)
    requires env.schemaFiles == map["forms/a.json" := "/pkg/jsonschemas/forms/a.json"]
    requires env.baseSchema == None
    ensures "records/a.json" in SchemaNames(env.schemaFiles)
    ensures !Served(env, "records/a.json")
    ensures GetSchemaData(env, "records/a.json", Null) == Success(Null)
  {
    var f := "forms/a.json";
    assert StartsWith(f, FormsPrefix) by {
      assert f[..6] == FormsPrefix;
    }
    assert RecordName(f) == "records/a.json";
  }

  /** The names the module's own description promises: virtual records only with a base schema. */
  function ListedSchemas(env: Env): (names: set<string>)
    ensures forall n :: n in names ==> Served(env, n)
  {
    var names := if HasBase(env) then SchemaNames(env.schemaFiles) else env.schemaFiles.Keys;
    forall n | n in names
      ensures Served(env, n)
    {
      SchemaNamesMembers(env.schemaFiles, n);
    }
    names
  }

  /** With the base-schema condition, a name is listed exactly when it is served. */
  lemma ListedExactlyServed(env: Env, n: string)
    ensures n in ListedSchemas(env) <==> Served(env, n)
  {
    SchemaNamesMembers(env.schemaFiles, n);
  }
}
