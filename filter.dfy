/** The `searchQuery` object the search handler builds from the `query` and
    `category` request parameters, and the documents it selects. */
module SearchFilter {
  import opened Blogs
  import opened Text

  /** The filter: `text` is the `$or` clause over `title` and `content`,
      `category` the clause on `category`; each holds the trimmed pattern,
      and `None` means the key was never added to the object. Two present
      keys are ANDed by the store. */
  datatype Filter = Filter(text: Option<string>, category: Option<string>)

  /** The filter with no keys, which the store reads as "every document". */
  const MatchAll := Filter(None, None)

  /** A `{ $regex: pattern, $options: "i" }` clause on one field: an absent
      field never matches, a present one matches when it contains the
      pattern up to case. */
  predicate FieldMatches(field: Option<string>, pattern: string)
    ensures FieldMatches(field, pattern) ==> field.Some? && |pattern| <= |field.value|
    ensures field.Some? && Contains(field.value, pattern) ==> FieldMatches(field, pattern)
  {
    field.Some? && ContainsIgnoreCase(field.value, pattern)
  }

  /** One optional clause: adds a key with the trimmed text when the text is
      not blank after trimming, and adds nothing otherwise. */
  function Clause(input: string): (c: Option<string>)
    ensures c.None? <==> AllWhitespace(input)
    ensures c.Some? ==> c.value != [] && !IsWhitespace(c.value[0])
                        && !IsWhitespace(c.value[|c.value| - 1])
    ensures c.Some? ==> c.value == Trim(input)
  {
    TrimEmptyIff(input);
    if Trim(input) != [] then Some(Trim(input)) else None
  }

  /** Builds the filter from the two (defaulted) request strings. */
  function Build(query: string, category: string): (f: Filter)
    ensures f.text.None? <==> AllWhitespace(query)
    ensures f.category.None? <==> AllWhitespace(category)
    ensures f.text.Some? ==> f.text.value == Trim(query)
    ensures f.category.Some? ==> f.category.value == Trim(category)
  {
    Filter(Clause(query), Clause(category))
  }

  /** Whether the store selects `b` under `f`. The filter with no keys
      selects every post; a present clause selects only posts that have the
      field it reads. */
  predicate Matches(f: Filter, b: Blog)
    ensures f == MatchAll ==> Matches(f, b)
    ensures Matches(f, b) && f.text.Some? ==> b.title.Some? || b.content.Some?
    ensures Matches(f, b) && f.category.Some? ==> b.category.Some?
  {
    (f.text.None? || FieldMatches(b.title, f.text.value) || FieldMatches(b.content, f.text.value))
    && (f.category.None? || FieldMatches(b.category, f.category.value))
  }

  /** The text clause of a non-blank query, stated on the raw input. */
  predicate TextClauseHolds(query: string, b: Blog) {
    FieldMatches(b.title, Trim(query)) || FieldMatches(b.content, Trim(query))
  }

  /** The category clause of a non-blank category, stated on the raw input. */
  predicate CategoryClauseHolds(category: string, b: Blog) {
    FieldMatches(b.category, Trim(category))
  }

  /** Blank inputs add no clause, and the resulting filter selects every
      document. */
  lemma BlankInputsMatchAll(query: string, category: string)
    requires AllWhitespace(query) && AllWhitespace(category)
    ensures Build(query, category) == MatchAll
    ensures forall b :: Matches(Build(query, category), b)
  {
  }

  /** How the built filter decides: each non-blank input contributes its
      clause, a blank one contributes nothing, and present clauses are
      conjoined. */
  lemma MatchesBuild(query: string, category: string, b: Blog)
    ensures Matches(Build(query, category), b)
        <==> (AllWhitespace(query) || TextClauseHolds(query, b))
             && (AllWhitespace(category) || CategoryClauseHolds(category, b))
  {
  }

  /** A non-blank query alone: a document matches exactly when the trimmed
      query occurs, ignoring ASCII case, somewhere in its title or somewhere
      in its content. */
  lemma QueryOnly(query: string, category: string, b: Blog)
    requires !AllWhitespace(query) && AllWhitespace(category)
    ensures Matches(Build(query, category), b)
        <==> (b.title.Some? && exists i :: OccursIgnoreCaseAt(b.title.value, Trim(query), i))
             || (b.content.Some? && exists i :: OccursIgnoreCaseAt(b.content.value, Trim(query), i))
  {
    var t := Trim(query);
    assert Build(query, category) == Filter(Some(t), None);
    if b.title.Some? { ContainsIgnoreCaseIff(b.title.value, t); }
    if b.content.Some? { ContainsIgnoreCaseIff(b.content.value, t); }
  }

  /** A non-blank category alone: a document matches exactly when it has a
      category in which the trimmed text occurs, ignoring ASCII case. */
  lemma CategoryOnly(query: string, category: string, b: Blog)
    requires AllWhitespace(query) && !AllWhitespace(category)
    ensures Matches(Build(query, category), b)
        <==> b.category.Some? && exists i :: OccursIgnoreCaseAt(b.category.value, Trim(category), i)
  {
    var t := Trim(category);
    assert Build(query, category) == Filter(None, Some(t));
    if b.category.Some? { ContainsIgnoreCaseIff(b.category.value, t); }
  }

  /** Both inputs non-blank: a document must satisfy both clauses; either
      clause alone does not make it match. */
  lemma BothClausesRequired(query: string, category: string, b: Blog)
    requires !AllWhitespace(query) && !AllWhitespace(category)
    ensures Matches(Build(query, category), b)
        <==> TextClauseHolds(query, b) && CategoryClauseHolds(category, b)
    ensures TextClauseHolds(query, b) && !CategoryClauseHolds(category, b)
        ==> !Matches(Build(query, category), b)
    ensures !TextClauseHolds(query, b) && CategoryClauseHolds(category, b)
        ==> !Matches(Build(query, category), b)
  {
  }

  /** Leading and trailing whitespace around either input changes nothing:
      the same filter is built. */
  lemma {:induction false} SurroundingWhitespaceIgnored(
    query: string, category: string, p1: string, q1: string, p2: string, q2: string)
    requires AllWhitespace(p1) && AllWhitespace(q1) && AllWhitespace(p2) && AllWhitespace(q2)
    ensures Build(p1 + query + q1, p2 + category + q2) == Build(query, category)
  {
    TrimIgnoresSurroundingWhitespace(p1, query, q1);
    TrimIgnoresSurroundingWhitespace(p2, category, q2);
    TrimEmptyIff(p1 + query + q1);
    TrimEmptyIff(query);
    TrimEmptyIff(p2 + category + q2);
    TrimEmptyIff(category);
  }
}
