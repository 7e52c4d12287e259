/** The built-in filters the conformance tests exercise. Every filter takes the
    input value and its positional arguments (already evaluated) and returns a
    new value or an error. */
module Filters {
  import opened Values
  import opened Text
  import opened Sorting
  import Html

  /** The optional single text argument of `join`, `sort`, `sort_natural` and
      `compact` (a separator or a property name): absent, or one value read as
      its text; more than one argument is an arity error. */
  function OptionalText(args: seq<Value>, filter: string): (r: Result<Option<string>>)
    ensures r.Ok? <==> |args| <= 1
    ensures r.Ok? ==> (r.value.Some? <==> |args| == 1)
    ensures r.Ok? && |args| == 1 ==> r.value.value == Render(args[0])
    ensures r.Err? ==> r.error == ArgumentError(filter)
  {
    if |args| == 0 then Ok(None)
    else if |args| == 1 then Ok(Some(Render(args[0])))
    else Err(ArgumentError(filter))
  }

  // ---------------------------------------------------------------------------
  // size

  /** `size`: the number of characters of a string, of elements of an array, of
      entries of an object. */
  function Size(input: Value, args: seq<Value>): (r: Result<Value>)
    ensures r.Ok? <==> args == [] && (input.Str? || input.Array? || input.Object?)
    ensures r.Ok? && input.Str? ==> r.value == Int(|input.s|)
    ensures r.Ok? && input.Array? ==> r.value == Int(|input.items|)
    ensures r.Ok? && input.Object? ==> r.value == Int(|input.fields|)
    ensures r.Err? && args != [] ==> r.error == ArgumentError("size")
    ensures r.Err? && args == [] ==> r.error == TypeMismatch("size")
  {
    if args != [] then Err(ArgumentError("size"))
    else
      match input
      case Str(s) => Ok(Int(|s|))
      case Array(items) => Ok(Int(|items|))
      case Object(fields) => Ok(Int(|fields|))
      case _ => Err(TypeMismatch("size"))
  }

  // ---------------------------------------------------------------------------
  // join

  /** The elements `join` works on: those of an array, or the input alone. */
  function JoinElements(input: Value): seq<Value>
  {
    if input.Array? then input.items else [input]
  }

  function RenderEach(s: seq<Value>): (r: seq<string>)
    ensures |r| == |s|
    ensures forall k :: 0 <= k < |s| ==> r[k] == Render(s[k])
  {
    if s == [] then [] else [Render(s[0])] + RenderEach(s[1..])
  }

  /** `join`: the rendered elements with the separator (one space by default)
      between each two consecutive ones. */
  function Join(input: Value, args: seq<Value>): (r: Result<Value>)
    ensures r.Ok? <==> |args| <= 1
    ensures r.Err? ==> r.error == ArgumentError("join")
    ensures r.Ok? ==> r.value.Str?
    ensures r.Ok? && args == [] ==> r.value.s == JoinWith(RenderEach(JoinElements(input)), " ")
    ensures r.Ok? && |args| == 1 ==> r.value.s == JoinWith(RenderEach(JoinElements(input)), Render(args[0]))
  {
    match OptionalText(args, "join")
    case Err(e) => Err(e)
    case Ok(sep) =>
      Ok(Str(JoinWith(RenderEach(JoinElements(input)), if sep.Some? then sep.value else " ")))
  }

  /** With no argument, splitting the output of `join` at each space gives back
      the rendered elements, whenever no element's text holds a space. */
  lemma JoinDefaultSeparatesBySpace(items: seq<Value>)
    requires |items| > 0
    requires forall k :: 0 <= k < |items| ==> ' ' !in Render(items[k])
    ensures Join(Array(items), []).Ok?
    ensures SplitOn(Join(Array(items), []).value.s, ' ') == RenderEach(items)
  {
    SplitJoinRoundTrip(RenderEach(items), ' ');
  }

  /** The text `join` produces is as long as all element texts plus one
      separator for each gap between two elements. */
  lemma JoinLength(items: seq<Value>, sep: Value)
    requires |items| > 0
    ensures Join(Array(items), [sep]).Ok?
    ensures |Join(Array(items), [sep]).value.s|
         == TotalLength(RenderEach(items)) + (|items| - 1) * |Render(sep)|
  {
    JoinWithLength(RenderEach(items), Render(sep));
  }

  // ---------------------------------------------------------------------------
  // sort and sort_natural

  /** `sort` (natural = false) and `sort_natural` (natural = true): a stable
      ascending sort of an array, of the elements themselves or, given a property
      name, of that property of each (every element must then be an object). Any
      other input is returned as it is. */
  function SortFilter(input: Value, args: seq<Value>, natural: bool, name: string): (r: Result<Value>)
    ensures r.Err? <==> |args| > 1 || (input.Array? && |args| == 1 && !AllObjects(input.items))
    ensures r.Err? && |args| > 1 ==> r.error == ArgumentError(name)
    ensures r.Err? && |args| <= 1 ==> r.error == TypeMismatch(name)
    ensures r.Ok? && !input.Array? ==> r.value == input
    ensures r.Ok? && input.Array? ==>
      var o := Order(natural, if |args| == 1 then Some(Render(args[0])) else None);
      && r.value.Array?
      && multiset(r.value.items) == multiset(input.items)
      && SortedBy(r.value.items, o)
      && forall k :: WithKey(r.value.items, o, k) == WithKey(input.items, o, k)
  {
    match OptionalText(args, name)
    case Err(e) => Err(e)
    case Ok(key) =>
      if !input.Array? then Ok(input)
      else if key.Some? && !AllObjects(input.items) then Err(TypeMismatch(name))
      else
        var o := Order(natural, key);
        var sorted := SortBy(input.items, o);
        StableForEveryKey(input.items, o);
        Ok(Array(sorted))
  }

  lemma StableForEveryKey(s: seq<Value>, o: Order)
    ensures forall k :: WithKey(SortBy(s, o), o, k) == WithKey(s, o, k)
  {
    forall k { SortByStable(s, o, k); }
  }

  /** `sort`: strings compare by code point, so case matters. */
  function Sort(input: Value, args: seq<Value>): (r: Result<Value>)
    ensures !input.Array? ==> (r.Ok? <==> |args| <= 1) && (r.Ok? ==> r.value == input)
    ensures input.Array? && args == [] ==>
      && r.Ok? && r.value.Array?
      && multiset(r.value.items) == multiset(input.items)
      && SortedBy(r.value.items, Order(false, None))
  {
    SortFilter(input, args, false, "sort")
  }

  /** `sort_natural`: strings compare once folded to lower case. */
  function SortNatural(input: Value, args: seq<Value>): (r: Result<Value>)
    ensures !input.Array? ==> (r.Ok? <==> |args| <= 1) && (r.Ok? ==> r.value == input)
    ensures input.Array? && args == [] ==>
      && r.Ok? && r.value.Array?
      && multiset(r.value.items) == multiset(input.items)
      && SortedBy(r.value.items, Order(true, None))
  {
    SortFilter(input, args, true, "sort_natural")
  }

  /** Without arguments, both sort filters sort an array by the elements' own keys. */
  lemma SortWithoutKey(items: seq<Value>, natural: bool, name: string)
    ensures SortFilter(Array(items), [], natural, name) == Ok(Array(SortBy(items, Order(natural, None))))
  {
  }

  lemma SortWithKey(items: seq<Value>, key: string, natural: bool, name: string)
    requires AllObjects(items)
    ensures SortFilter(Array(items), [Str(key)], natural, name) == Ok(Array(SortBy(items, Order(natural, Some(key)))))
  {
    assert Render(Str(key)) == key;
  }

  /** `sort` is case-sensitive: no string starting with a lower-case letter is
      placed before one starting with an upper-case letter. */
  lemma SortPutsUpperCaseFirst(items: seq<Value>, i: nat, j: nat)
    requires i < j
    ensures Sort(Array(items), []).Ok?
    ensures j < |Sort(Array(items), []).value.items| ==>
      var r := Sort(Array(items), []).value.items;
      !(r[i].Str? && r[j].Str? && r[i].s != [] && r[j].s != [] && IsLower(r[i].s[0]) && IsUpper(r[j].s[0]))
  {
    SortWithoutKey(items, false, "sort");
    var r := SortBy(items, Order(false, None));
    if j < |r| {
      UpperFirstWhenSorted(r, i, j);
    }
  }

  lemma UpperFirstWhenSorted(r: seq<Value>, i: nat, j: nat)
    requires SortedBy(r, Order(false, None)) && i < j < |r|
    ensures !(r[i].Str? && r[j].Str? && r[i].s != [] && r[j].s != [] && IsLower(r[i].s[0]) && IsUpper(r[j].s[0]))
  {
    assert Precedes(r[i], r[j], Order(false, None));
    if r[i].Str? && r[j].Str? && r[i].s != [] && r[j].s != [] && IsUpper(r[j].s[0]) {
      assert LexLe(r[i].s, r[j].s);
      if IsLower(r[i].s[0]) {
        UpperBeforeLower(r[j].s, r[i].s);
      }
    }
  }

  /** `sort_natural` compares strings by their lower-case forms, while the
      elements themselves keep their case (the output is a rearrangement of the
      input). */
  lemma SortNaturalIgnoresCase(items: seq<Value>, i: nat, j: nat)
    requires i < j
    ensures SortNatural(Array(items), []).Ok?
    ensures multiset(SortNatural(Array(items), []).value.items) == multiset(items)
    ensures j < |SortNatural(Array(items), []).value.items| ==>
      var r := SortNatural(Array(items), []).value.items;
      r[i].Str? && r[j].Str? ==> LexLe(Lowercase(r[i].s), Lowercase(r[j].s))
  {
    SortWithoutKey(items, true, "sort_natural");
    var r := SortBy(items, Order(true, None));
    if j < |r| {
      FoldedOrderWhenSorted(r, i, j);
    }
  }

  lemma FoldedOrderWhenSorted(r: seq<Value>, i: nat, j: nat)
    requires SortedBy(r, Order(true, None)) && i < j < |r|
    ensures r[i].Str? && r[j].Str? ==> LexLe(Lowercase(r[i].s), Lowercase(r[j].s))
  {
    assert Precedes(r[i], r[j], Order(true, None));
  }

  /** Sorting twice gives what sorting once gives, for either filter. */
  lemma SortFilterIdempotent(input: Value, args: seq<Value>, natural: bool, name: string)
    requires SortFilter(input, args, natural, name).Ok?
    ensures SortFilter(SortFilter(input, args, natural, name).value, args, natural, name)
         == SortFilter(input, args, natural, name)
  {
    if input.Array? {
      var o := Order(natural, if |args| == 1 then Some(Render(args[0])) else None);
      var r := SortFilter(input, args, natural, name).value.items;
      assert r == SortBy(input.items, o);
      if |args| == 1 {
        forall k | 0 <= k < |r| ensures r[k].Object? {
          assert r[k] in multiset(input.items);
        }
      }
      SortByIdempotent(input.items, o);
    }
  }

  // ---------------------------------------------------------------------------
  // compact

  /** Whether `compact` keeps an element: it is not nil or, given a property
      name, that property is present and not nil. */
  predicate Kept(v: Value, key: Option<string>)
  {
    if key.None? then v != Nil else Property(v, key.value) != Nil
  }

  /** The kept elements of `s`, in their original order. */
  function Compacted(s: seq<Value>, key: Option<string>): (r: seq<Value>)
    ensures forall k :: 0 <= k < |r| ==> Kept(r[k], key)
  {
    if s == [] then []
    else
      assert s == [s[0]] + s[1..];
      (if Kept(s[0], key) then [s[0]] else []) + Compacted(s[1..], key)
  }

  /** `compact`: the array with its nil elements (or the objects whose given
      property is nil or missing) removed. */
  function Compact(input: Value, args: seq<Value>): (r: Result<Value>)
    ensures r.Err? <==> |args| > 1 || !input.Array? || (|args| == 1 && !AllObjects(input.items))
    ensures r.Err? && |args| > 1 ==> r.error == ArgumentError("compact")
    ensures r.Err? && |args| <= 1 ==> r.error == TypeMismatch("compact")
    ensures r.Ok? ==>
      r.value == Array(Compacted(input.items, if |args| == 1 then Some(Render(args[0])) else None))
  {
    match OptionalText(args, "compact")
    case Err(e) => Err(e)
    case Ok(key) =>
      if !input.Array? then Err(TypeMismatch("compact"))
      else if key.Some? && !AllObjects(input.items) then Err(TypeMismatch("compact"))
      else Ok(Array(Compacted(input.items, key)))
  }

  /** Compaction works element by element, so it keeps the relative order of
      what it keeps. */
  lemma {:induction false} CompactedAppend(a: seq<Value>, b: seq<Value>, key: Option<string>)
    ensures Compacted(a + b, key) == Compacted(a, key) + Compacted(b, key)
  {
    if a == [] {
      assert a + b == b;
    } else {
      var t := a[1..];
      assert a == [a[0]] + t;
      assert a + b == [a[0]] + (t + b);
      CompactedAppend(t, b, key);
      CompactedAppendStep(a[0], t, b, key);
    }
  }

  lemma CompactedAppendStep(x: Value, t: seq<Value>, b: seq<Value>, key: Option<string>)
    requires Compacted(t + b, key) == Compacted(t, key) + Compacted(b, key)
    ensures Compacted([x] + (t + b), key) == Compacted([x] + t, key) + Compacted(b, key)
  {
    CompactedCons(x, t + b, key);
    CompactedCons(x, t, key);
    AppendAssoc(if Kept(x, key) then [x] else [], Compacted(t, key), Compacted(b, key));
  }

  lemma AppendAssoc(a: seq<Value>, b: seq<Value>, c: seq<Value>)
    ensures a + (b + c) == (a + b) + c
  {
  }

  lemma CompactedCons(h: Value, t: seq<Value>, key: Option<string>)
    ensures Compacted([h] + t, key) == (if Kept(h, key) then [h] else []) + Compacted(t, key)
  {
    assert ([h] + t)[0] == h && ([h] + t)[1..] == t;
  }

  /** Compaction keeps every kept value as often as the input holds it and
      drops every other value. */
  lemma {:induction false} CompactedCounts(s: seq<Value>, key: Option<string>, v: Value)
    ensures multiset(Compacted(s, key))[v] == if Kept(v, key) then multiset(s)[v] else 0
  {
    if s != [] {
      CompactedCounts(s[1..], key, v);
      assert s == [s[0]] + s[1..];
      var h := if Kept(s[0], key) then [s[0]] else [];
      assert multiset(Compacted(s, key)) == multiset(h) + multiset(Compacted(s[1..], key));
    }
  }

  /** Exactly the nil elements go: the size of the result plus the number of nils
      is the size of the input. */
  lemma {:induction false} CompactedCountsNil(s: seq<Value>)
    ensures |Compacted(s, None)| + multiset(s)[Nil] == |s|
  {
    if s != [] {
      CompactedCountsNil(s[1..]);
      assert s == [s[0]] + s[1..];
      assert multiset(s)[Nil] == multiset(s[1..])[Nil] + (if s[0] == Nil then 1 else 0);
    }
  }

  /** Compaction removes something exactly when something is to be removed. */
  lemma {:induction false} CompactedIsIdentity(s: seq<Value>, key: Option<string>)
    ensures Compacted(s, key) == s <==> forall k :: 0 <= k < |s| ==> Kept(s[k], key)
  {
    if s != [] {
      CompactedIsIdentity(s[1..], key);
      assert s == [s[0]] + s[1..];
      if !Kept(s[0], key) {
        CompactedShorter(s[1..], key);
      }
    }
  }

  lemma {:induction false} CompactedShorter(s: seq<Value>, key: Option<string>)
    ensures |Compacted(s, key)| <= |s|
  {
    if s != [] { CompactedShorter(s[1..], key); }
  }

  /** Compacting twice removes nothing more. */
  lemma CompactedIdempotent(s: seq<Value>, key: Option<string>)
    ensures Compacted(Compacted(s, key), key) == Compacted(s, key)
  {
    CompactedIsIdentity(Compacted(s, key), key);
  }

  // ---------------------------------------------------------------------------
  // map

  /** The given property of every element (nil where it is missing). */
  function Projected(s: seq<Value>, key: string): (r: seq<Value>)
    ensures |r| == |s|
    ensures forall k :: 0 <= k < |s| ==> r[k] == Property(s[k], key)
  {
    if s == [] then [] else [Property(s[0], key)] + Projected(s[1..], key)
  }

  /** `map`: the array of the given property of every element. */
  function MapProperty(input: Value, args: seq<Value>): (r: Result<Value>)
    ensures r.Err? <==> |args| != 1 || !input.Array?
    ensures r.Err? && |args| != 1 ==> r.error == ArgumentError("map")
    ensures r.Err? && |args| == 1 ==> r.error == TypeMismatch("map")
    ensures r.Ok? ==> r.value == Array(Projected(input.items, Render(args[0])))
  {
    if |args| != 1 then Err(ArgumentError("map"))
    else if !input.Array? then Err(TypeMismatch("map"))
    else Ok(Array(Projected(input.items, Render(args[0]))))
  }

  /** After `compact` by a property, mapping that property yields no nil. */
  lemma CompactThenMapHasNoNil(s: seq<Value>, key: string)
    ensures Nil !in Projected(Compacted(s, Some(key)), key)
  {
    var c := Compacted(s, Some(key));
    var p := Projected(c, key);
    forall k | 0 <= k < |p| ensures p[k] != Nil {
      assert Kept(c[k], Some(key));
    }
  }

  // ---------------------------------------------------------------------------
  // strip_html

  /** `strip_html`: the text with every HTML comment and tag deleted. */
  function StripHtml(input: Value, args: seq<Value>): (r: Result<Value>)
    ensures r.Ok? <==> args == [] && input.Str?
    ensures r.Ok? ==> r.value == Str(Html.StripHtml(input.s))
    ensures r.Ok? ==> Html.NoTag(r.value.s) && IsSubseq(r.value.s, input.s)
    ensures r.Ok? && '<' !in input.s ==> r.value == input
    ensures r.Err? && args != [] ==> r.error == ArgumentError("strip_html")
    ensures r.Err? && args == [] ==> r.error == TypeMismatch("strip_html")
  {
    if args != [] then Err(ArgumentError("strip_html"))
    else if !input.Str? then Err(TypeMismatch("strip_html"))
    else
      Html.PlainTextKept(input.s);
      Ok(Str(Html.StripHtml(input.s)))
  }

  // ---------------------------------------------------------------------------
  // capitalize

  /** The text with its first character upper-cased and the rest unchanged. */
  function CapitalizeText(s: string): (r: string)
    ensures |r| == |s|
    ensures s != [] ==> r[0] == ToUpper(s[0]) && r[1..] == s[1..]
  {
    if s == [] then [] else [ToUpper(s[0])] + s[1..]
  }

  /** `capitalize` of a string. */
  function Capitalize(input: Value, args: seq<Value>): (r: Result<Value>)
    ensures r.Ok? <==> args == [] && input.Str?
    ensures r.Ok? ==> r.value == Str(CapitalizeText(input.s))
    ensures r.Err? && args != [] ==> r.error == ArgumentError("capitalize")
    ensures r.Err? && args == [] ==> r.error == TypeMismatch("capitalize")
  {
    if args != [] then Err(ArgumentError("capitalize"))
    else if !input.Str? then Err(TypeMismatch("capitalize"))
    else Ok(Str(CapitalizeText(input.s)))
  }

  /** Capitalizing changes nothing but the case of the first character: folded
      to lower case, the text is what it was; and doing it twice is doing it once. */
  lemma CapitalizeOnlyChangesCase(s: string)
    ensures Lowercase(CapitalizeText(s)) == Lowercase(s)
    ensures CapitalizeText(CapitalizeText(s)) == CapitalizeText(s)
  {
    var r := CapitalizeText(s);
    if s != [] {
      assert r[1..] == s[1..];
      forall k | 0 <= k < |s| ensures ToLower(r[k]) == ToLower(s[k]) {
        if k > 0 { assert r[k] == r[1..][k - 1]; }
      }
      assert CapitalizeText(r)[1..] == r[1..];
    }
  }
}
