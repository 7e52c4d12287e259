/** The assertions of the filter conformance tests, stated on the model: each
    lemma renders one `{{ ... }}` expression of a test on the value the test
    assigns to its variable. A test's string literal is written as the
    concatenation of its pieces (`"<b>" + "bla blub" + "</a>"`), which is the
    same string, so that the lemmas can name each piece. */
module Conformance {
  import opened Values
  import opened Text
  import opened Sorting
  import opened Pipeline
  import Filters
  import Html
  import CustomFilters

  // ---------------------------------------------------------------------------
  // Chains of one, two and three filters

  function Finish(r: Result<Value>): Result<string>
  {
    match r
    case Ok(w) => Ok(Render(w))
    case Err(e) => Err(e)
  }

  function Then(r: Result<Value>, kind: FilterKind, args: seq<Value>): Result<Value>
  {
    match r
    case Ok(w) => Apply(kind, w, args)
    case Err(e) => Err(e)
  }

  lemma OneFilter(reg: Registry, base: Value, f: Invocation)
    requires f.name in reg
    ensures RenderChain(reg, base, [f]) == Finish(Apply(reg[f.name], base, f.args))
  {
    var b := BoundFilter(reg[f.name], f.args);
    assert Bind(reg, [f]).value == [b];
  }

  lemma TwoFilters(reg: Registry, base: Value, f: Invocation, g: Invocation)
    requires f.name in reg && g.name in reg
    ensures RenderChain(reg, base, [f, g])
         == Finish(Then(Apply(reg[f.name], base, f.args), reg[g.name], g.args))
  {
    var bound := Bind(reg, [f, g]).value;
    assert bound == [BoundFilter(reg[f.name], f.args)] + [BoundFilter(reg[g.name], g.args)];
    EvaluateAppend([BoundFilter(reg[f.name], f.args)], [BoundFilter(reg[g.name], g.args)], base);
  }

  lemma ThreeFilters(reg: Registry, base: Value, f: Invocation, g: Invocation, h: Invocation)
    requires f.name in reg && g.name in reg && h.name in reg
    ensures RenderChain(reg, base, [f, g, h])
         == Finish(Then(Then(Apply(reg[f.name], base, f.args), reg[g.name], g.args), reg[h.name], h.args))
  {
    var bf := BoundFilter(reg[f.name], f.args);
    var bg := BoundFilter(reg[g.name], g.args);
    var bh := BoundFilter(reg[h.name], h.args);
    var bound := Bind(reg, [f, g, h]).value;
    assert bound == [bf] + [bg] + [bh];
    EvaluateAppend([bf] + [bg], [bh], base);
    EvaluateAppend([bf], [bg], base);
  }

  // ---------------------------------------------------------------------------
  // test_local_filter, test_underscore_in_filter_name

  lemma RenderThousand()
    ensures Render(Int(1000)) == "1000"
  {
    assert NatToDecimal(1) == "1";
    assert NatToDecimal(10) == "10";
    assert NatToDecimal(100) == "100";
  }

  lemma MoneyOfThousandText()
    ensures CustomFilters.MoneyText(Int(1000)) == " 1000$ "
  {
    RenderThousand();
    assert " " + "1000" + "$ " == " 1000$ ";
  }

  /** A filter of the money parser without arguments that yields a string. */
  lemma MoneyParserSingle(name: string, kind: FilterKind, base: Value, text: string)
    requires name in MoneyRegistry() && MoneyRegistry()[name] == kind
    requires Apply(kind, base, []) == Ok(Str(text))
    ensures RenderChain(MoneyRegistry(), base, [Invocation(name, [])]) == Ok(text)
  {
    OneFilter(MoneyRegistry(), base, Invocation(name, []));
  }

  /** `{{var | money}}` with var = 1000 renders " 1000$ ". */
  lemma MoneyOfThousand()
    ensures RenderChain(MoneyRegistry(), Int(1000), [Invocation("money", [])]) == Ok(" 1000$ ")
  {
    MoneyNamesResolveExactly();
    MoneyOfThousandText();
    assert Apply(MoneyFilter, Int(1000), []) == Ok(Str(" 1000$ "));
    MoneyParserSingle("money", MoneyFilter, Int(1000), " 1000$ ");
  }

  /** `{{var | money_with_underscore}}` with var = 1000 renders " 1000$ ". */
  lemma MoneyWithUnderscoreOfThousand()
    ensures RenderChain(MoneyRegistry(), Int(1000), [Invocation("money_with_underscore", [])]) == Ok(" 1000$ ")
  {
    MoneyNamesResolveExactly();
    MoneyOfThousandText();
    assert Apply(MoneyWithUnderscoreFilter, Int(1000), []) == Ok(Str(" 1000$ "));
    MoneyParserSingle("money_with_underscore", MoneyWithUnderscoreFilter, Int(1000), " 1000$ ");
  }

  // ---------------------------------------------------------------------------
  // test_size, test_join

  /** `{{var | size}}` with var = "abcd" renders "4". */
  lemma SizeOfAbcd()
    ensures RenderChain(Builtins, Str("abcd"), [Invocation("size", [])]) == Ok("4")
  {
    OneFilter(Builtins, Str("abcd"), Invocation("size", []));
    assert NatToDecimal(4) == "4";
  }

  lemma DigitsRendered()
    ensures Filters.RenderEach([Int(1), Int(2), Int(3), Int(4)]) == ["1", "2", "3", "4"]
  {
    assert NatToDecimal(1) == "1" && NatToDecimal(2) == "2" && NatToDecimal(3) == "3" && NatToDecimal(4) == "4";
  }

  lemma JoinOneToFour()
    ensures Apply(JoinFilter, Array([Int(1), Int(2), Int(3), Int(4)]), []) == Ok(Str("1 2 3 4"))
  {
    var parts := Filters.RenderEach([Int(1), Int(2), Int(3), Int(4)]);
    DigitsRendered();
    assert JoinWith(["4"], " ") == "4";
    assert JoinWith(["3", "4"], " ") == "3 4";
    assert JoinWith(["2", "3", "4"], " ") == "2 3 4";
    assert JoinWith(parts, " ") == "1 2 3 4";
  }

  /** `{{var | join}}` with var = [1, 2, 3, 4] renders "1 2 3 4". */
  lemma JoinOfNumbers()
    ensures RenderChain(Builtins, Array([Int(1), Int(2), Int(3), Int(4)]), [Invocation("join", [])]) == Ok("1 2 3 4")
  {
    OneFilter(Builtins, Array([Int(1), Int(2), Int(3), Int(4)]), Invocation("join", []));
    JoinOneToFour();
  }

  // ---------------------------------------------------------------------------
  // test_sort

  lemma JoinTwoWords(a: string, b: string, text: string)
    requires a + " " + b == text
    ensures Apply(JoinFilter, Array([Str(a), Str(b)]), []) == Ok(Str(text))
  {
    assert Filters.RenderEach([Str(a), Str(b)]) == [a, b];
    assert [a, b][1..] == [b];
    assert JoinWith([a, b], " ") == a + " " + b;
    assert Filters.JoinElements(Array([Str(a), Str(b)])) == [Str(a), Str(b)];
  }

  lemma JoinThreeWords(a: string, b: string, c: string, text: string)
    requires a + " " + b + " " + c == text
    ensures Apply(JoinFilter, Array([Str(a), Str(b), Str(c)]), []) == Ok(Str(text))
  {
    assert Filters.RenderEach([Str(a), Str(b), Str(c)]) == [a, b, c];
    assert [a, b, c][1..] == [b, c] && [b, c][1..] == [c];
    assert JoinWith([b, c], " ") == b + " " + c;
    assert JoinWith([a, b, c], " ") == a + " " + b + " " + c;
    assert Filters.JoinElements(Array([Str(a), Str(b), Str(c)])) == [Str(a), Str(b), Str(c)];
  }

  /** Sorting two elements. */
  lemma SortPair(x: Value, y: Value, o: Order)
    ensures SortBy([x, y], o) == if Precedes(x, y, o) then [x, y] else [y, x]
  {
    ConsPair(x, y);
    SortOfCons(x, [y], o);
    SortSingle(y, o);
    if Precedes(x, y, o) {
      InsertSmallest(x, [y], o);
    } else {
      InsertIntoOne(x, y, o);
    }
  }

  lemma SortSingle(y: Value, o: Order)
    ensures SortBy([y], o) == [y]
  {
    var e: seq<Value> := [];
    assert [y] == [y] + e;
    SortOfCons(y, e, o);
    InsertIntoEmpty(y, o);
  }

  /** Inserting before a sorted pair. */
  lemma InsertBeforePair(x: Value, y: Value, z: Value, o: Order)
    requires Precedes(y, z, o) && Precedes(x, y, o)
    ensures SortedBy([y, z], o)
    ensures Insert(x, [y, z], o) == [x, y, z]
  {
    PairSorted(y, z, o);
    InsertSmallest(x, [y, z], o);
    ConsTriple(x, y, z);
  }

  /** Inserting between the two elements of a sorted pair. */
  lemma InsertIntoMiddle(x: Value, y: Value, z: Value, o: Order)
    requires Precedes(y, z, o) && !Precedes(x, y, o) && Precedes(x, z, o)
    ensures SortedBy([y, z], o)
    ensures Insert(x, [y, z], o) == [y, x, z]
  {
    PairSorted(y, z, o);
    var t := [z];
    ConsPair(y, z);
    InsertPastHead(x, y, t, o);
    InsertSmallest(x, t, o);
    ConsTriple(y, x, z);
  }

  /** Inserting after a sorted pair. */
  lemma InsertAfterPair(x: Value, y: Value, z: Value, o: Order)
    requires Precedes(y, z, o) && !Precedes(x, y, o) && !Precedes(x, z, o)
    ensures SortedBy([y, z], o)
    ensures Insert(x, [y, z], o) == [y, z, x]
  {
    PairSorted(y, z, o);
    var t := [z];
    ConsPair(y, z);
    InsertPastHead(x, y, t, o);
    ConsPair(z, x);
    InsertIntoOne(x, z, o);
    ConsTriple(y, z, x);
  }

  lemma PairSorted(y: Value, z: Value, o: Order)
    requires Precedes(y, z, o)
    ensures SortedBy([y, z], o)
  {
    forall i, j | 0 <= i < j < 2 ensures Precedes([y, z][i], [y, z][j], o) {
      assert i == 0 && j == 1;
    }
  }

  lemma InsertIntoEmpty(x: Value, o: Order)
    ensures Insert(x, [], o) == [x]
  {
  }

  /** Inserting after a single element it does not precede. */
  lemma InsertIntoOne(x: Value, z: Value, o: Order)
    requires !Precedes(x, z, o)
    ensures Insert(x, [z], o) == [z, x]
  {
    var e: seq<Value> := [];
    assert [z] == [z] + e;
    InsertPastHead(x, z, e, o);
    InsertIntoEmpty(x, o);
    ConsPair(z, x);
  }

  /** Insertion past the head of a sorted sequence. */
  lemma InsertPastHead(x: Value, y: Value, t: seq<Value>, o: Order)
    requires SortedBy([y] + t, o) && !Precedes(x, y, o)
    ensures SortedBy(t, o)
    ensures Insert(x, [y] + t, o) == [y] + Insert(x, t, o)
  {
    var s := [y] + t;
    assert s[0] == y && s[1..] == t;
    assert SortedBy(s[1..], o);
  }

  /** Inserting into a sorted triple. */
  lemma InsertIntoTriple(x: Value, y: Value, z: Value, w: Value, o: Order)
    requires SortedBy([y, z, w], o)
    requires !Precedes(x, y, o) && Precedes(x, z, o)
    ensures Insert(x, [y, z, w], o) == [y, x, z, w]
  {
    var t := [z, w];
    ConsTriple(y, z, w);
    InsertPastHead(x, y, t, o);
    InsertSmallest(x, t, o);
    ConsQuadruple(y, x, z, w);
  }

  /** The head of a sequence is inserted into the sorted rest of it. */
  lemma SortOfCons(h: Value, t: seq<Value>, o: Order)
    ensures SortBy([h] + t, o) == Insert(h, SortBy(t, o), o)
  {
    assert ([h] + t)[0] == h && ([h] + t)[1..] == t;
  }

  /** The built-in names the tests use find their filters. */
  lemma BuiltinNames()
    ensures Builtins["size"] == SizeFilter && Builtins["join"] == JoinFilter
    ensures Builtins["sort"] == SortFilter && Builtins["sort_natural"] == SortNaturalFilter
    ensures Builtins["compact"] == CompactFilter && Builtins["map"] == MapFilter
    ensures Builtins["strip_html"] == StripHtmlFilter && Builtins["capitalize"] == CapitalizeFilter
  {
  }

  lemma SortApplied(s: seq<Value>)
    ensures Apply(SortFilter, Array(s), []) == Ok(Array(SortBy(s, Order(false, None))))
  {
    Filters.SortWithoutKey(s, false, "sort");
  }

  lemma SortNaturalApplied(s: seq<Value>)
    ensures Apply(SortNaturalFilter, Array(s), []) == Ok(Array(SortBy(s, Order(true, None))))
  {
    Filters.SortWithoutKey(s, true, "sort_natural");
  }

  /** `sort | join` on an array is `join` of the array sorted without a key. */
  lemma SortThenJoin(s: seq<Value>, sorted: seq<Value>, text: string)
    requires SortBy(s, Order(false, None)) == sorted
    requires Apply(JoinFilter, Array(sorted), []) == Ok(Str(text))
    ensures RenderChain(Builtins, Array(s), [Invocation("sort", []), Invocation("join", [])]) == Ok(text)
  {
    SortApplied(s);
    BuiltinNames();
    ThenJoin("sort", s, sorted, text);
  }

  /** `sort_natural | join` on an array is `join` of the array sorted
      case-insensitively without a key. */
  lemma SortNaturalThenJoin(s: seq<Value>, sorted: seq<Value>, text: string)
    requires SortBy(s, Order(true, None)) == sorted
    requires Apply(JoinFilter, Array(sorted), []) == Ok(Str(text))
    ensures RenderChain(Builtins, Array(s), [Invocation("sort_natural", []), Invocation("join", [])]) == Ok(text)
  {
    SortNaturalApplied(s);
    BuiltinNames();
    ThenJoin("sort_natural", s, sorted, text);
  }

  /** [2, 1, 4, 3] sorts to [1, 2, 3, 4]. */
  lemma SortFourNumbers()
    ensures SortBy([Int(2), Int(1), Int(4), Int(3)], Order(false, None)) == [Int(1), Int(2), Int(3), Int(4)]
  {
    SortSecondThenLastPair(Int(2), Int(1), Int(4), Int(3), Order(false, None));
  }

  /** Sorting four elements where the second comes first, the first second and
      the last two swap. */
  lemma SortSecondThenLastPair(w: Value, x: Value, y: Value, z: Value, o: Order)
    requires !Precedes(y, z, o) && Precedes(x, z, o) && !Precedes(w, x, o) && Precedes(w, z, o)
    ensures SortBy([w, x, y, z], o) == [x, w, z, y]
  {
    KeyLeTotal(ElemKey(y, o), ElemKey(z, o));
    SortPair(y, z, o);
    InsertBeforePair(x, z, y, o);
    ConsTriple(x, y, z);
    SortOfCons(x, [y, z], o);
    assert SortBy([x, y, z], o) == [x, z, y];
    InsertIntoTriple(w, x, z, y, o);
    ConsQuadruple(w, x, y, z);
    SortOfCons(w, [x, y, z], o);
  }

  /** `{{numbers | sort | join}}` with numbers = [2, 1, 4, 3] renders "1 2 3 4". */
  lemma SortNumbers()
    ensures RenderChain(Builtins, Array([Int(2), Int(1), Int(4), Int(3)]),
                        [Invocation("sort", []), Invocation("join", [])]) == Ok("1 2 3 4")
  {
    SortFourNumbers();
    JoinOneToFour();
    SortThenJoin([Int(2), Int(1), Int(4), Int(3)], [Int(1), Int(2), Int(3), Int(4)], "1 2 3 4");
  }

  /** Sorting three elements whose first goes last. */
  lemma SortFirstToLast(x: Value, y: Value, z: Value, o: Order)
    requires !Precedes(x, y, o) && !Precedes(x, z, o)
    ensures SortBy([x, y, z], o) == if Precedes(y, z, o) then [y, z, x] else [z, y, x]
  {
    SortPair(y, z, o);
    ConsTriple(x, y, z);
    SortOfCons(x, [y, z], o);
    KeyLeTotal(ElemKey(y, o), ElemKey(z, o));
    if Precedes(y, z, o) {
      InsertAfterPair(x, y, z, o);
    } else {
      InsertAfterPair(x, z, y, o);
    }
  }

  /** Sorting three elements that are in order already. */
  lemma SortInOrder(x: Value, y: Value, z: Value, o: Order)
    requires Precedes(x, y, o) && Precedes(y, z, o)
    ensures SortBy([x, y, z], o) == [x, y, z]
  {
    KeyLeTransitive(ElemKey(x, o), ElemKey(y, o), ElemKey(z, o));
    assert SortedBy([x, y, z], o);
    SortBySortedIsIdentity([x, y, z], o);
  }

  lemma AsAfterAlphabetic()
    ensures !LexLe("as", "alphabetic") && !LexLe("expected", "as") && !LexLe("expected", "alphabetic")
  {
    assert "as"[1..] == "s" && "alphabetic"[1..] == "lphabetic";
  }

  lemma SortedAlphabetic()
    ensures SortBy([Str("expected"), Str("as"), Str("alphabetic")], Order(false, None))
         == [Str("alphabetic"), Str("as"), Str("expected")]
  {
    AsAfterAlphabetic();
    SortFirstToLast(Str("expected"), Str("as"), Str("alphabetic"), Order(false, None));
  }

  lemma JoinedAlphabetic()
    ensures Apply(JoinFilter, Array([Str("alphabetic"), Str("as"), Str("expected")]), []) == Ok(Str("alphabetic as expected"))
  {
    assert "alphabetic" + " " + "as" + " " + "expected" == "alphabetic as expected";
    JoinThreeWords("alphabetic", "as", "expected", "alphabetic as expected");
  }

  /** `{{words | sort | join}}` with words = ["expected", "as", "alphabetic"]
      renders "alphabetic as expected". */
  lemma SortWordsAlphabetic()
    ensures RenderChain(Builtins, Array([Str("expected"), Str("as"), Str("alphabetic")]),
                        [Invocation("sort", []), Invocation("join", [])]) == Ok("alphabetic as expected")
  {
    SortedAlphabetic();
    JoinedAlphabetic();
    SortThenJoin([Str("expected"), Str("as"), Str("alphabetic")], [Str("alphabetic"), Str("as"), Str("expected")],
                 "alphabetic as expected");
  }

  /** `{{value | sort}}` with value = 3 renders "3". */
  lemma SortScalar()
    ensures RenderChain(Builtins, Int(3), [Invocation("sort", [])]) == Ok("3")
  {
    OneFilter(Builtins, Int(3), Invocation("sort", []));
    assert NatToDecimal(3) == "3";
  }

  lemma SortedFlowers()
    ensures SortBy([Str("flower"), Str("are")], Order(false, None)) == [Str("are"), Str("flower")]
  {
    PlainFirstLetter("flower", "are");
    SortPair(Str("flower"), Str("are"), Order(false, None));
  }

  lemma JoinedFlowers()
    ensures Apply(JoinFilter, Array([Str("are"), Str("flower")]), []) == Ok(Str("are flower"))
  {
    assert "are" + " " + "flower" == "are flower";
    JoinTwoWords("are", "flower", "are flower");
  }

  /** `{{arrays | sort | join}}` with arrays = ["flower", "are"] renders "are flower". */
  lemma SortWords()
    ensures RenderChain(Builtins, Array([Str("flower"), Str("are")]),
                        [Invocation("sort", []), Invocation("join", [])]) == Ok("are flower")
  {
    SortedFlowers();
    JoinedFlowers();
    SortThenJoin([Str("flower"), Str("are")], [Str("are"), Str("flower")], "are flower");
  }

  /** A capital letter sorts before every lower-case one. */
  lemma SortedCaseSensitive()
    ensures SortBy([Str("sensitive"), Str("Expected"), Str("case")], Order(false, None))
         == [Str("Expected"), Str("case"), Str("sensitive")]
  {
    assert !LexLe("sensitive", "Expected") && !LexLe("sensitive", "case") && LexLe("Expected", "case");
    SortFirstToLast(Str("sensitive"), Str("Expected"), Str("case"), Order(false, None));
  }

  lemma JoinedCaseSensitive()
    ensures Apply(JoinFilter, Array([Str("Expected"), Str("case"), Str("sensitive")]), []) == Ok(Str("Expected case sensitive"))
  {
    assert "Expected" + " " + "case" + " " + "sensitive" == "Expected case sensitive";
    JoinThreeWords("Expected", "case", "sensitive", "Expected case sensitive");
  }

  /** `{{case_sensitive | sort | join}}` with case_sensitive = ["sensitive",
      "Expected", "case"] renders "Expected case sensitive". */
  lemma SortCaseSensitive()
    ensures RenderChain(Builtins, Array([Str("sensitive"), Str("Expected"), Str("case")]),
                        [Invocation("sort", []), Invocation("join", [])]) == Ok("Expected case sensitive")
  {
    SortedCaseSensitive();
    JoinedCaseSensitive();
    SortThenJoin([Str("sensitive"), Str("Expected"), Str("case")], [Str("Expected"), Str("case"), Str("sensitive")],
                 "Expected case sensitive");
  }

  // ---------------------------------------------------------------------------
  // test_sort_natural

  /** Without a key, `sort` orders two strings with different first characters
      by those characters. */
  lemma PlainFirstLetter(a: string, b: string)
    requires a != [] && b != [] && a[0] != b[0]
    ensures Precedes(Str(a), Str(b), Order(false, None)) <==> a[0] < b[0]
  {
  }

  /** Without a key, `sort_natural` orders two strings whose first letters
      differ once folded by those folded letters. */
  lemma NaturalFirstLetter(a: string, b: string)
    requires a != [] && b != [] && ToLower(a[0]) != ToLower(b[0])
    ensures Precedes(Str(a), Str(b), Order(true, None)) <==> ToLower(a[0]) < ToLower(b[0])
  {
    assert Lowercase(a)[0] == ToLower(a[0]) && Lowercase(b)[0] == ToLower(b[0]);
  }

  /** Folded to lower case, "Assert" < "case" < "Insensitive". */
  lemma NaturalKeys()
    ensures Precedes(Str("Assert"), Str("Insensitive"), Order(true, None))
    ensures !Precedes(Str("case"), Str("Assert"), Order(true, None))
    ensures Precedes(Str("case"), Str("Insensitive"), Order(true, None))
  {
    NaturalFirstLetter("Assert", "Insensitive");
    NaturalFirstLetter("case", "Assert");
    NaturalFirstLetter("case", "Insensitive");
  }

  lemma SortedNaturalWords()
    ensures SortBy([Str("case"), Str("Assert"), Str("Insensitive")], Order(true, None))
         == [Str("Assert"), Str("case"), Str("Insensitive")]
  {
    var o := Order(true, None);
    NaturalKeys();
    SortPair(Str("Assert"), Str("Insensitive"), o);
    ConsTriple(Str("case"), Str("Assert"), Str("Insensitive"));
    SortOfCons(Str("case"), [Str("Assert"), Str("Insensitive")], o);
    InsertIntoMiddle(Str("case"), Str("Assert"), Str("Insensitive"), o);
  }

  lemma JoinedNaturalWords()
    ensures Apply(JoinFilter, Array([Str("Assert"), Str("case"), Str("Insensitive")]), []) == Ok(Str("Assert case Insensitive"))
  {
    NaturalWordsText();
    JoinThreeWords("Assert", "case", "Insensitive", "Assert case Insensitive");
  }

  /** `{{words | sort_natural | join}}` with words = ["case", "Assert",
      "Insensitive"] renders "Assert case Insensitive". */
  lemma SortNaturalWords()
    ensures RenderChain(Builtins, Array([Str("case"), Str("Assert"), Str("Insensitive")]),
                        [Invocation("sort_natural", []), Invocation("join", [])]) == Ok("Assert case Insensitive")
  {
    SortedNaturalWords();
    JoinedNaturalWords();
    SortNaturalThenJoin([Str("case"), Str("Assert"), Str("Insensitive")], [Str("Assert"), Str("case"), Str("Insensitive")],
                        "Assert case Insensitive");
  }

  function Hash(v: Value): Value
  {
    Object(map["a" := v])
  }

  /** A filter taking the key 'a', then `map: 'a'`, then `join`. */
  lemma KeyedThenMapThenJoin(name: string, hashes: seq<Value>, mid: seq<Value>, projected: seq<Value>, text: string)
    requires name in Builtins
    requires Apply(Builtins[name], Array(hashes), [Str("a")]) == Ok(Array(mid))
    requires Apply(MapFilter, Array(mid), [Str("a")]) == Ok(Array(projected))
    requires Apply(JoinFilter, Array(projected), []) == Ok(Str(text))
    ensures RenderChain(Builtins, Array(hashes), [Invocation(name, [Str("a")]), Invocation("map", [Str("a")]), Invocation("join", [])])
         == Ok(text)
  {
    BuiltinNames();
    ThreeFilters(Builtins, Array(hashes), Invocation(name, [Str("a")]), Invocation("map", [Str("a")]), Invocation("join", []));
  }

  /** A filter without arguments, then `join`. */
  lemma ThenJoin(name: string, s: seq<Value>, mid: seq<Value>, text: string)
    requires name in Builtins
    requires Apply(Builtins[name], Array(s), []) == Ok(Array(mid))
    requires Apply(JoinFilter, Array(mid), []) == Ok(Str(text))
    ensures RenderChain(Builtins, Array(s), [Invocation(name, []), Invocation("join", [])]) == Ok(text)
  {
    BuiltinNames();
    TwoFilters(Builtins, Array(s), Invocation(name, []), Invocation("join", []));
  }

  /** A single filter without arguments that yields a string. */
  lemma SingleToText(name: string, base: Value, text: string)
    requires name in Builtins
    requires Apply(Builtins[name], base, []) == Ok(Str(text))
    ensures RenderChain(Builtins, base, [Invocation(name, [])]) == Ok(text)
  {
    OneFilter(Builtins, base, Invocation(name, []));
  }

  lemma MapOfThree(x: Value, y: Value, z: Value)
    ensures Apply(MapFilter, Array([Hash(x), Hash(y), Hash(z)]), [Str("a")]) == Ok(Array([x, y, z]))
  {
    assert Render(Str("a")) == "a";
    assert Filters.Projected([Hash(x), Hash(y), Hash(z)], "a") == [x, y, z];
  }

  lemma MapOfTwo(x: Value, y: Value)
    ensures Apply(MapFilter, Array([Hash(x), Hash(y)]), [Str("a")]) == Ok(Array([x, y]))
  {
    assert Render(Str("a")) == "a";
    assert Filters.Projected([Hash(x), Hash(y)], "a") == [x, y];
  }

  /** Sorting hashes by their 'a' property sorts by that property's key. */
  lemma HashKey(v: Value)
    ensures ElemKey(Hash(v), Order(true, Some("a"))) == KeyOf(v, true)
  {
    assert Property(Hash(v), "a") == v;
  }

  /** `sort_natural: 'a'` on an array of objects sorts by the folded property. */
  lemma SortNaturalByKey(s: seq<Value>)
    requires AllObjects(s)
    ensures Apply(SortNaturalFilter, Array(s), [Str("a")]) == Ok(Array(SortBy(s, Order(true, Some("a")))))
  {
    Filters.SortWithKey(s, "a", true, "sort_natural");
  }

  lemma SortedHashes()
    ensures SortBy([Hash(Str("A")), Hash(Str("b")), Hash(Str("C"))], Order(true, Some("a")))
         == [Hash(Str("A")), Hash(Str("b")), Hash(Str("C"))]
  {
    NaturalFirstLetter("A", "b");
    NaturalFirstLetter("b", "C");
    HashKey(Str("A"));
    HashKey(Str("b"));
    HashKey(Str("C"));
    SortInOrder(Hash(Str("A")), Hash(Str("b")), Hash(Str("C")), Order(true, Some("a")));
  }

  lemma HashesSortedByKey()
    ensures Apply(SortNaturalFilter, Array([Hash(Str("A")), Hash(Str("b")), Hash(Str("C"))]), [Str("a")])
         == Ok(Array([Hash(Str("A")), Hash(Str("b")), Hash(Str("C"))]))
  {
    var s := [Hash(Str("A")), Hash(Str("b")), Hash(Str("C"))];
    assert AllObjects(s);
    SortedHashes();
    SortNaturalByKey(s);
  }

  lemma JoinedHashLetters()
    ensures Apply(JoinFilter, Array([Str("A"), Str("b"), Str("C")]), []) == Ok(Str("A b C"))
  {
    assert "A" + " " + "b" + " " + "C" == "A b C";
    JoinThreeWords("A", "b", "C", "A b C");
  }

  /** `{{hashes | sort_natural: 'a' | map: 'a' | join}}` with hashes =
      [{a: "A"}, {a: "b"}, {a: "C"}] renders "A b C". */
  lemma SortNaturalHashes()
    ensures RenderChain(Builtins, Array([Hash(Str("A")), Hash(Str("b")), Hash(Str("C"))]),
                        [Invocation("sort_natural", [Str("a")]), Invocation("map", [Str("a")]), Invocation("join", [])])
         == Ok("A b C")
  {
    var s := [Hash(Str("A")), Hash(Str("b")), Hash(Str("C"))];
    HashesSortedByKey();
    MapOfThree(Str("A"), Str("b"), Str("C"));
    JoinedHashLetters();
    BuiltinNames();
    KeyedThenMapThenJoin("sort_natural", s, s, [Str("A"), Str("b"), Str("C")], "A b C");
  }

  // ---------------------------------------------------------------------------
  // test_compact

  lemma CompactedWords(a: Value, b: Value, c: Value)
    requires a != Nil && b != Nil && c != Nil
    ensures Filters.Compacted([a, Nil, b, Nil, c], None) == [a, b, c]
  {
    var s := [a, Nil, b, Nil, c];
    assert s[1..] == [Nil, b, Nil, c];
    assert s[1..][1..] == [b, Nil, c];
    assert s[1..][1..][1..] == [Nil, c];
    assert s[1..][1..][1..][1..] == [c];
    assert Filters.Compacted([c], None) == [c];
    assert Filters.Compacted([Nil, c], None) == [c];
    assert Filters.Compacted([b, Nil, c], None) == [b, c];
    assert Filters.Compacted(s[1..], None) == [b, c];
  }

  lemma CompactWithoutKey(s: seq<Value>)
    ensures Apply(CompactFilter, Array(s), []) == Ok(Array(Filters.Compacted(s, None)))
  {
  }

  lemma JoinedLetters()
    ensures Apply(JoinFilter, Array([Str("a"), Str("b"), Str("c")]), []) == Ok(Str("a b c"))
  {
    assert "a" + " " + "b" + " " + "c" == "a b c";
    JoinThreeWords("a", "b", "c", "a b c");
  }

  /** `{{words | compact | join}}` with words = ["a", nil, "b", nil, "c"]
      renders "a b c". */
  lemma CompactWords()
    ensures RenderChain(Builtins, Array([Str("a"), Nil, Str("b"), Nil, Str("c")]),
                        [Invocation("compact", []), Invocation("join", [])]) == Ok("a b c")
  {
    var s := [Str("a"), Nil, Str("b"), Nil, Str("c")];
    CompactedWords(Str("a"), Str("b"), Str("c"));
    CompactWithoutKey(s);
    JoinedLetters();
    BuiltinNames();
    ThenJoin("compact", s, [Str("a"), Str("b"), Str("c")], "a b c");
  }

  lemma CompactedHashes(x: Value, z: Value)
    requires x != Nil && z != Nil
    ensures Filters.Compacted([Hash(x), Hash(Nil), Hash(z)], Some("a")) == [Hash(x), Hash(z)]
  {
    assert Property(Hash(x), "a") == x && Property(Hash(Nil), "a") == Nil && Property(Hash(z), "a") == z;
    var s := [Hash(x), Hash(Nil), Hash(z)];
    assert s[1..] == [Hash(Nil), Hash(z)] && s[1..][1..] == [Hash(z)];
    assert Filters.Compacted([Hash(z)], Some("a")) == [Hash(z)];
    assert Filters.Compacted(s[1..], Some("a")) == [Hash(z)];
  }

  lemma CompactByKey(s: seq<Value>)
    requires AllObjects(s)
    ensures Apply(CompactFilter, Array(s), [Str("a")]) == Ok(Array(Filters.Compacted(s, Some("a"))))
  {
    assert Render(Str("a")) == "a";
  }

  lemma JoinedTwoLetters()
    ensures Apply(JoinFilter, Array([Str("A"), Str("C")]), []) == Ok(Str("A C"))
  {
    assert "A" + " " + "C" == "A C";
    JoinTwoWords("A", "C", "A C");
  }

  /** `{{hashes | compact: 'a' | map: 'a' | join}}` with hashes =
      [{a: "A"}, {a: nil}, {a: "C"}] renders "A C". */
  lemma CompactHashes()
    ensures RenderChain(Builtins, Array([Hash(Str("A")), Hash(Nil), Hash(Str("C"))]),
                        [Invocation("compact", [Str("a")]), Invocation("map", [Str("a")]), Invocation("join", [])])
         == Ok("A C")
  {
    var s := [Hash(Str("A")), Hash(Nil), Hash(Str("C"))];
    assert AllObjects(s);
    CompactedHashes(Str("A"), Str("C"));
    CompactByKey(s);
    MapOfTwo(Str("A"), Str("C"));
    JoinedTwoLetters();
    BuiltinNames();
    KeyedThenMapThenJoin("compact", s, [Hash(Str("A")), Hash(Str("C"))], [Str("A"), Str("C")], "A C");
  }

  // ---------------------------------------------------------------------------
  // test_strip_html, test_strip_html_ignore_comments_with_html

  /** Text between two tags is what is left of them. */
  lemma TagsAround(x: string, text: string, y: string)
    requires '>' !in x && '<' !in text && '>' !in y
    ensures Html.StripTags("<" + x + ">" + text + "<" + y + ">") == text
  {
    var s := "<" + x + ">" + text + "<" + y + ">";
    assert s == "<" + x + ">" + (text + ("<" + y + ">" + ""));
    Html.TagRemoved(x, text + ("<" + y + ">" + ""));
    Html.PlainPrefixKeptByTags(text, "<" + y + ">" + "");
    Html.TagRemoved(y, "");
    assert text + [] == text;
  }

  /** The tags of "<b>bla blub</a>" go and its text stays. */
  lemma StripTagsOfBold()
    ensures Html.StripTags("<b>" + "bla blub" + "</a>") == "bla blub"
  {
    BoldTags();
    assert "<b>" + "bla blub" + "</a>" == "<" + "b" + ">" + "bla blub" + "<" + "/a" + ">";
    assert '<' !in "bla blub";
    TagsAround("b", "bla blub", "/a");
  }

  lemma StripCommentsOfBold()
    ensures Html.StripComments("<b>" + "bla blub" + "</a>") == "<b>" + "bla blub" + "</a>"
  {
    var s := "<b>" + "bla blub" + "</a>";
    assert '!' in Html.CommentOpen && '!' !in s;
    AbsentCharRulesOut(s, Html.CommentOpen, '!');
    Html.NoCommentKept(s);
  }

  lemma StripHtmlOnText(s: string)
    ensures Apply(StripHtmlFilter, Str(s), []) == Ok(Str(Html.StripHtml(s)))
  {
  }

  /** `{{var | strip_html}}` with var = "<b>bla blub</a>" renders "bla blub". */
  lemma StripHtmlOfTags()
    ensures RenderChain(Builtins, Str("<b>" + "bla blub" + "</a>"), [Invocation("strip_html", [])]) == Ok("bla blub")
  {
    StripCommentsOfBold();
    StripTagsOfBold();
    StripHtmlOnText("<b>" + "bla blub" + "</a>");
    BuiltinNames();
    SingleToText("strip_html", Str("<b>" + "bla blub" + "</a>"), "bla blub");
  }

  /** The comment goes whole, with the tag inside it. */
  lemma StripCommentWithTag()
    ensures Html.StripComments("<!--" + " split and some <ul> tag " + "-->" + ("<b>" + "bla blub" + "</a>"))
         == "<b>" + "bla blub" + "</a>"
  {
    var body := " split and some <ul> tag ";
    assert '-' in Html.CommentClose && '-' !in body;
    AbsentCharRulesOut(body, Html.CommentClose, '-');
    Html.CommentRemoved(body, "<b>" + "bla blub" + "</a>");
    StripCommentsOfBold();
  }

  /** `{{var | strip_html}}` with var = "<!-- split and some <ul> tag --><b>bla
      blub</a>" renders "bla blub". */
  lemma StripHtmlOfCommentWithTag()
    ensures RenderChain(Builtins, Str("<!--" + " split and some <ul> tag " + "-->" + ("<b>" + "bla blub" + "</a>")),
                        [Invocation("strip_html", [])])
         == Ok("bla blub")
  {
    var input := "<!--" + " split and some <ul> tag " + "-->" + ("<b>" + "bla blub" + "</a>");
    StripCommentWithTag();
    StripTagsOfBold();
    StripHtmlOnText(input);
    BuiltinNames();
    SingleToText("strip_html", Str(input), "bla blub");
  }

  // ---------------------------------------------------------------------------
  // test_capitalize

  lemma CapitalizedBlub()
    ensures Apply(CapitalizeFilter, Str("blub"), []) == Ok(Str("Blub"))
  {
    assert ToUpper('b') == 'B';
    assert Filters.CapitalizeText("blub") == ['B'] + "lub";
    assert ['B'] + "lub" == "Blub";
  }

  /** `{{var | capitalize}}` with var = "blub" renders "Blub". */
  lemma CapitalizeBlub()
    ensures RenderChain(Builtins, Str("blub"), [Invocation("capitalize", [])]) == Ok("Blub")
  {
    CapitalizedBlub();
    BuiltinNames();
    SingleToText("capitalize", Str("blub"), "Blub");
  }

  // ---------------------------------------------------------------------------
  // test_filter_with_keyword_arguments

  lemma SubstituteRegistered()
    ensures "substitute" in SubstituteRegistry() && SubstituteRegistry()["substitute"] == SubstituteFilter
  {
  }

  /** `{{var | substitute}}` renders the fixed notice followed by var. */
  lemma SubstituteWithoutArguments(s: string)
    ensures RenderChain(SubstituteRegistry(), Str(s), [Invocation("substitute", [])])
         == Ok(CustomFilters.SubstitutePrefix + s)
  {
    SubstituteRegistered();
    OneFilter(SubstituteRegistry(), Str(s), Invocation("substitute", []));
  }

  /** Keyword arguments are not supported: given the two values the test passes,
      `substitute` fails rather than rendering "hello john, doe". */
  lemma SubstituteRejectsArguments(s: string, first: Value, last: Value)
    ensures RenderChain(SubstituteRegistry(), Str(s), [Invocation("substitute", [first, last])])
         == Err(ArgumentError("substitute"))
  {
    SubstituteRegistered();
    OneFilter(SubstituteRegistry(), Str(s), Invocation("substitute", [first, last]));
  }

  // ---------------------------------------------------------------------------
  // Literal identities
  //
  // Fixed facts about sequence and string displays. They say nothing about the
  // filters; the lemmas above call them so that the solver does not have to
  // split or rejoin a literal itself.

  lemma ConsPair(y: Value, z: Value)
    ensures [y, z] == [y] + [z]
  {
  }

  lemma ConsTriple(y: Value, z: Value, w: Value)
    ensures [y, z, w] == [y] + [z, w]
  {
  }

  lemma ConsQuadruple(y: Value, x: Value, z: Value, w: Value)
    ensures [y] + ([x] + [z, w]) == [y, x, z, w]
    ensures [y, x, z, w] == [y] + [x, z, w]
  {
  }

  lemma NaturalWordsText()
    ensures "Assert" + " " + "case" + " " + "Insensitive" == "Assert case Insensitive"
  {
  }

  lemma BoldTags()
    ensures "<b>" == "<" + "b" + ">" && "</a>" == "<" + "/a" + ">"
  {
  }
}
