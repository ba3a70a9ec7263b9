/** Worked inputs of the outline symbol sanitizer. */
module SanitizerExamples {
  import opened Sanitizers

  /** Free operators lose `"operator ("`; the class call operator becomes `"operator"`. */
  lemma OperatorExamples()
    ensures SanitizeOperator("operator (int)") == "int)"
    ensures SanitizeOperator("operator()") == "operator"
    ensures SanitizeOperator("operator+") == "operator+"
  {
  }

  /** Every keyword argument is dropped, back to the bare selector head. */
  lemma KeywordArgumentsExample()
    ensures RemoveObjcFunctionArguments("foo:bar:baz:") == "foo"
  {
    DropsBaz();
    DropsBar();
    DropsFoo();
    RemoveObjcFunctionArgumentsKeepsScopedNames("foo");
  }

  /** The last colon of `foo:bar:baz:` is a keyword colon. */
  lemma DropsBaz()
    ensures RemoveObjcFunctionArguments("foo:bar:baz:") == RemoveObjcFunctionArguments("foo:bar:baz")
  {
    assert "foo:bar:baz:"[..11] == "foo:bar:baz";
    RemoveObjcFunctionArgumentsCutsAt("foo:bar:baz:", 11);
  }

  /** So is the last colon of `foo:bar:baz`, with `baz` after it. */
  lemma DropsBar()
    ensures RemoveObjcFunctionArguments("foo:bar:baz") == RemoveObjcFunctionArguments("foo:bar")
  {
    assert "foo:bar:baz"[8..] == "baz";
    assert "foo:bar:baz"[..7] == "foo:bar";
    RemoveObjcFunctionArgumentsCutsAt("foo:bar:baz", 7);
  }

  /** And the last colon of `foo:bar`, with `bar` after it. */
  lemma DropsFoo()
    ensures RemoveObjcFunctionArguments("foo:bar") == RemoveObjcFunctionArguments("foo")
  {
    assert "foo:bar"[4..] == "bar";
    assert "foo:bar"[..3] == "foo";
    RemoveObjcFunctionArgumentsCutsAt("foo:bar", 3);
  }

  /** A name whose last colon belongs to `::` is a scoped C++ name and is kept. */
  lemma ScopedNameExample()
    ensures RemoveObjcFunctionArguments("Namespace::Class::method") == "Namespace::Class::method"
  {
    var s := "Namespace::Class::method";
    assert s[18..] == "method";
    LastColonIsUnique(s, 17);
    assert IsNamespaceColon(s, 17);
  }
}
