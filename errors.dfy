/**
 * The package's exceptions. `SchemaError` is the base class
 * `JSONSchemaError`; each constructor is one of its two subclasses and
 * carries the fields the exception stores.
 */
module Errors {
  import opened Wrappers
  import opened PyStrings

  datatype SchemaError =
    | SchemaNotFound(schema: string)
    | SchemaDuplicate(schema: string, firstDir: string, secondDir: string)
  {
    /** The exception's message, `str(e)`. */
    function Message(): string
    {
      match this
      case SchemaNotFound(p) =>
        NotFoundPrefix + p + NotFoundSuffix
      case SchemaDuplicate(_, first, second) =>
        // `.format` applies to the second literal only, so `{schema}` is
        // left in the text and the schema path never appears.
        "Schema \"{schema}\" defined in multiple " +
        ("directories: \"" + first + "\" and \"" + second + "\"")
    }
  }

  const NotFoundPrefix := "Schema \""
  const NotFoundSuffix := "\" not found"

  /** Recovers the path from a not-found message; the inverse of its formatting. */
  function NotFoundSchemaOf(message: string): (r: Option<string>)
    ensures r.Some? ==> SchemaNotFound(r.value).Message() == message
  {
    var n, m := |NotFoundPrefix|, |NotFoundSuffix|;
    if n + m <= |message| && StartsWith(message, NotFoundPrefix)
       && EndsWith(message, NotFoundSuffix)
    then
      var p := message[n..|message| - m];
      assert message == message[..n] + p + message[|message| - m..];
      Some(p)
    else None
  }

  /** The not-found message names exactly the missing path. */
  lemma NotFoundRoundTrip(p: string)
    ensures NotFoundSchemaOf(SchemaNotFound(p).Message()) == Some(p)
  {
    var msg := SchemaNotFound(p).Message();
    assert msg[..|NotFoundPrefix|] == NotFoundPrefix;
    assert msg[|msg| - |NotFoundSuffix|..] == NotFoundSuffix;
    assert msg[|NotFoundPrefix|..|msg| - |NotFoundSuffix|] == p;
  }

  /** Two not-found errors print alike only when they are about the same path. */
  lemma NotFoundMessageInjective(p: string, q: string)
    requires SchemaNotFound(p).Message() == SchemaNotFound(q).Message()
    ensures p == q
  {
    NotFoundRoundTrip(p);
    NotFoundRoundTrip(q);
  }

  /**
   * The duplicate message is the same whatever the duplicate path is: the
   * path is carried only in the `schema` field and the text keeps the literal
   * placeholder `{schema}`.
   */
  lemma DuplicateMessageOmitsSchema(p: string, q: string, first: string, second: string)
    ensures SchemaDuplicate(p, first, second).Message() == SchemaDuplicate(q, first, second).Message()
    ensures Contains(SchemaDuplicate(p, first, second).Message(), "{schema}")
  {
    var tail := "\" defined in multiple " +
      ("directories: \"" + first + "\" and \"" + second + "\"");
    var msg := SchemaDuplicate(p, first, second).Message();
    assert msg == NotFoundPrefix + "{schema}" + tail;
    assert msg[8..16] == "{schema}";
    assert OccursAt(msg, "{schema}", 8);
  }

  /** The duplicate message names both directories, the existing one first. */
  lemma DuplicateMessageNamesDirectories(p: string, first: string, second: string)
    ensures var msg := SchemaDuplicate(p, first, second).Message();
      var k := |"Schema \"{schema}\" defined in multiple directories: \""|;
      OccursAt(msg, first, k) && OccursAt(msg, second, k + |first| + |"\" and \""|)
  {
    var msg := SchemaDuplicate(p, first, second).Message();
    var k := |"Schema \"{schema}\" defined in multiple directories: \""|;
    assert msg[k..k + |first|] == first;
    assert msg[k + |first| + 7..k + |first| + 7 + |second|] == second;
  }
}
