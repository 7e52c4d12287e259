# Liquid filter conformance, modelled in Dafny

This project models the filter behaviour that the Ruby-derived conformance tests of
liquid-rust pin down. It covers:

- the template engine's dynamic values and how they render to text;
- the built-in filters the tests run: `size`, `join`, `sort`, `sort_natural`,
  `compact`, `strip_html`, `capitalize` and `map`;
- the three filters the test file defines itself: `money`,
  `money_with_underscore` and `substitute`;
- the parser's filter registry, in which names match exactly;
- the evaluation of a chain `{{ base | f1 | f2 ... }}`, which threads the value
  from left to right and stops at the first error.

Every `assert_template_result!` of the covered tests is restated as a lemma about
the model (module `Conformance`). The general properties behind those outputs are
proved for all inputs:

- sorting yields a sorted, stable permutation;
- `compact` removes exactly what it should and keeps the order;
- nothing tag-shaped survives `strip_html`;
- `join`'s output splits back into the rendered elements;
- names resolve exactly.

Modules, one file each:

- `values.dfy` (`Values`): the value datatype, errors, results, decimal rendering
  of integers, and `Render`.
- `text.dfy` (`Text`): ASCII case mapping, code-point lexicographic order,
  joining and splitting, and substring search.
- `sorting.dfy` (`Sorting`): the sort keys, and a stable insertion sort over the
  total order on those keys.
- `html.dfy` (`Html`): the comment pass and the tag pass of `strip_html`.
- `filters.dfy` (`Filters`): the built-in filters.
- `custom.dfy` (`CustomFilters`): `money`, `money_with_underscore` and `substitute`.
- `pipeline.dfy` (`Pipeline`): the registry, binding of a chain, and evaluation.
- `conformance.dfy` (`Conformance`): the test assertions.

Arguments reach a filter as positional values that are already evaluated. The
render `Context` is never read by the filters in the test file, so it is not a
parameter.

## Model

| member | source | states |
|---|---|---|
| Values.Render | tests/conformance_ruby/filter_test.rs:18 | The `render()` the filters call: nil and objects give "", a boolean gives "true" or "false", a string gives itself, and an integer gives its decimal text: digits without a leading zero, a minus when negative, parsing back to it. |
| Values.IntToDecimal | tests/conformance_ruby/filter_test.rs:78-80 | An integer's text is its decimal digits, with no leading zero except for 0 itself and a leading minus when negative, and parses back to the integer. |
| Values.RenderIntRoundTrip | tests/conformance_ruby/filter_test.rs:110-112 | An integer renders as its decimal digits, with no leading zero except for 0 itself and a minus sign when negative, and parsing that text gives the integer back. |
| Values.RenderArrayAppend | tests/conformance_ruby/filter_test.rs:17-19 | Rendering an array is compositional: the rendering of a concatenation is the concatenation of the renderings. |
| Values.Property | tests/conformance_ruby/filter_test.rs:140-153 | An object holding the key gives that field's value. A missing key or a non-object gives nil, so a non-nil result always comes from such a field. |
| CustomFilters.Money | tests/conformance_ruby/filter_test.rs:16-20 | `money` without arguments yields a string that reads back as exactly the rendered input between " " and "$ ". With arguments it fails with an argument error, and only then. |
| CustomFilters.MoneyWithUnderscore | tests/conformance_ruby/filter_test.rs:34-38 | `money_with_underscore` has the same output shape as `money`, and the same arity error under its own name. |
| CustomFilters.MoneyRoundTrip | tests/conformance_ruby/filter_test.rs:18 | The money text is three characters longer than the rendered input. It starts with a space, ends with "$ ", and unwraps to the rendered input. |
| CustomFilters.MoneyFiltersAgree | tests/conformance_ruby/filter_test.rs:34-38 | The two money filters give the same value on every input. |
| CustomFilters.Substitute | tests/conformance_ruby/filter_test.rs:60-66 | `substitute` yields the fixed notice followed by exactly the rendered input. Any argument is rejected with an argument error. |
| Pipeline.Register | tests/conformance_ruby/filter_test.rs:40-46 | Registering adds exactly that name, binds it to the new filter, and leaves every other name's filter as it was. |
| Pipeline.Resolve | tests/conformance_ruby/filter_test.rs:87-92 | A name resolves if and only if it is registered, and to what is registered under it. Otherwise it fails with an unknown-filter error naming it. |
| Pipeline.LastRegistrationWins | tests/conformance_ruby/filter_test.rs:40-46 | Registering twice under one name keeps the later filter, and other names are unaffected. |
| Pipeline.MoneyRegistry | tests/conformance_ruby/filter_test.rs:40-46 | The money parser knows exactly the built-ins plus `money` and `money_with_underscore`. |
| Pipeline.SubstituteRegistry | tests/conformance_ruby/filter_test.rs:69-74 | The substitute parser knows exactly the built-ins plus `substitute`. |
| Pipeline.MoneyNamesResolveExactly | tests/conformance_ruby/filter_test.rs:87-92 | The two money names each find their own filter. Names that differ only in the underscore are unknown, and `money` is unknown to the plain built-ins. |
| Pipeline.Bind | tests/conformance_ruby/filter_test.rs:125 | Binding succeeds if and only if every name of the chain is registered, and then resolves each filter in place. Otherwise it fails on the first unknown name. |
| Pipeline.RebindingOtherNameChangesNothing | tests/conformance_ruby/filter_test.rs:40-46 | Registering a name that a chain does not use leaves that chain's binding unchanged. |
| Pipeline.Apply | tests/conformance_ruby/filter_test.rs:40-46 | Dispatches a bound filter to its operation. A filter's own failure is never an unknown-filter error. The three custom filters succeed exactly without arguments and yield a string; `size` yields an integer; `join`, `strip_html` and `capitalize` yield a string. |
| Pipeline.Evaluate | tests/conformance_ruby/filter_test.rs:153 | The left fold of a chain: the empty chain returns the value, a chain of one filter is that filter's result, and a failed chain is not empty and its error is never an unknown-filter error. |
| Pipeline.EvaluateAppend | tests/conformance_ruby/filter_test.rs:153 | Evaluating two chain pieces in a row is evaluating the second on the result of the first. An error in the first piece is the result. |
| Pipeline.FailingFilter | tests/conformance_ruby/filter_test.rs:216-221 | The position a failed chain fails at: every filter before it succeeds, and that filter's error on their result is the chain's result. |
| Pipeline.EvaluateStopsAtError | tests/conformance_ruby/filter_test.rs:125 | Once a filter fails, the chain's result is that error and no later filter runs. |
| Pipeline.RenderChain | tests/conformance_ruby/filter_test.rs:80 | With every name known, the output is the rendering of the evaluated chain. With some name unknown, it is an unknown-filter error. |
| Filters.OptionalText | tests/conformance_ruby/filter_test.rs:153 | A single optional text argument is absent with no argument and the rendered argument with one. More than one is an argument error. |
| Filters.Size | tests/conformance_ruby/filter_test.rs:101-106 | `size` of a string is its number of characters, and of an array or object its number of elements. It takes no argument, and any other input is a type error. |
| Filters.Join | tests/conformance_ruby/filter_test.rs:108-113 | `join` puts the separator (one space when none is given) between the rendered elements. A non-array counts as a single element. Two or more arguments fail with an argument error, and that is its only failure. |
| Filters.JoinDefaultSeparatesBySpace | tests/conformance_ruby/filter_test.rs:112 | Without an argument, splitting the output at spaces gives back exactly the rendered elements, when no element's text holds a space. |
| Filters.JoinLength | tests/conformance_ruby/filter_test.rs:112 | The joined text is as long as all element texts plus one separator per gap. |
| Filters.RenderEach | tests/conformance_ruby/filter_test.rs:112 | Element by element, the texts are the renderings of the values. |
| Filters.SortFilter | tests/conformance_ruby/filter_test.rs:115-159 | On an array, `sort` and `sort_natural` return a permutation of the input. It is in ascending key order and stable: the elements of each key keep their input order. A scalar comes back unchanged. A key argument on an array with a non-object is a type error, and two or more arguments are an argument error. |
| Filters.Sort | tests/conformance_ruby/filter_test.rs:115-134 | `sort` returns a scalar unchanged. Without arguments it returns a permutation of an array in case-sensitive ascending order. |
| Filters.SortNatural | tests/conformance_ruby/filter_test.rs:136-159 | `sort_natural` returns a scalar unchanged. Without arguments it returns a permutation of an array in ascending order of the lower-cased keys. |
| Filters.SortWithoutKey | tests/conformance_ruby/filter_test.rs:125-133 | Without arguments, both sort filters sort an array by the elements' own keys. |
| Filters.SortWithKey | tests/conformance_ruby/filter_test.rs:151-155 | With one text argument, an array of objects is sorted by that property of each element. |
| Filters.SortPutsUpperCaseFirst | tests/conformance_ruby/filter_test.rs:129-133 | In the output of `sort`, no string with a lower-case initial comes before a string with an upper-case initial. |
| Filters.SortNaturalIgnoresCase | tests/conformance_ruby/filter_test.rs:144-148 | In the output of `sort_natural`, any two strings are in order once folded to lower case, and the output keeps their original case. |
| Filters.SortFilterIdempotent | tests/conformance_ruby/filter_test.rs:115-159 | Sorting the output of a sort again, with the same arguments, changes nothing. |
| Filters.Compacted | tests/conformance_ruby/filter_test.rs:162-180 | Every element left by compaction is kept by the criterion: not nil, or, with a key, its property is not nil. |
| Filters.Compact | tests/conformance_ruby/filter_test.rs:162-180 | `compact` on an array returns the compacted elements, by the element or by the given property. A non-array, a key with a non-object, or two or more arguments fail. |
| Filters.CompactedAppend | tests/conformance_ruby/filter_test.rs:169 | Compaction works element by element, so it keeps the relative order of what it keeps. |
| Filters.CompactedCounts | tests/conformance_ruby/filter_test.rs:169 | Each kept value occurs in the output as often as in the input, and every other value not at all. |
| Filters.CompactedCountsNil | tests/conformance_ruby/filter_test.rs:164-169 | Without a key, the output's length plus the number of nils is the input's length. |
| Filters.CompactedIsIdentity | tests/conformance_ruby/filter_test.rs:169 | Compaction returns its input unchanged if and only if every element is kept. |
| Filters.CompactedIdempotent | tests/conformance_ruby/filter_test.rs:169 | Compacting twice is compacting once. |
| Filters.CompactThenMapHasNoNil | tests/conformance_ruby/filter_test.rs:172-176 | After `compact` by a property, the projection on that property holds no nil. |
| Filters.Projected | tests/conformance_ruby/filter_test.rs:153 | The projection has one entry per element: that element's property, or nil where it is missing. |
| Filters.MapProperty | tests/conformance_ruby/filter_test.rs:153 | `map` projects an array on the one text argument. A wrong number of arguments is an argument error, and a non-array input with one argument is a type error. |
| Filters.StripHtml | tests/conformance_ruby/filter_test.rs:182-194 | `strip_html` of a string is the comment pass followed by the tag pass. The result is the input with characters deleted, and no `<` is followed later by a `>`. Text without `<` is returned as it is. A non-string or any argument is an error. |
| Filters.CapitalizeText | tests/conformance_ruby/filter_test.rs:196-201 | Same length, the first character upper-cased, and every later character unchanged. |
| Filters.Capitalize | tests/conformance_ruby/filter_test.rs:196-201 | `capitalize` of a string capitalizes its text. A non-string or any argument is an error. |
| Filters.CapitalizeOnlyChangesCase | tests/conformance_ruby/filter_test.rs:200 | Folded to lower case, the capitalized text is the original, and capitalizing twice is capitalizing once. |
| Text.Lowercase | tests/conformance_ruby/filter_test.rs:144-148 | Folding keeps the length and maps every character by ASCII lower-casing. |
| Text.UpperBeforeLower | tests/conformance_ruby/filter_test.rs:129-133 | Comparing by code point places a string with an upper-case initial before one with a lower-case initial. |
| Text.LexLeTotal | tests/conformance_ruby/filter_test.rs:126 | Any two strings are comparable. |
| Text.LexLeAntisymmetric | tests/conformance_ruby/filter_test.rs:126 | Two strings each no later than the other are equal. |
| Text.LexLeTransitive | tests/conformance_ruby/filter_test.rs:126 | The string order is transitive. |
| Text.SplitJoinRoundTrip | tests/conformance_ruby/filter_test.rs:112 | Joining with a one-character separator that no part contains is undone by splitting on that character. |
| Text.JoinWithLength | tests/conformance_ruby/filter_test.rs:112 | A joined text's length is the parts' total length plus one separator per gap. |
| Text.SubseqTransitive | tests/conformance_ruby/filter_test.rs:191-193 | A subsequence of a subsequence is a subsequence, so deleting in two passes is still deleting. |
| Text.SubseqElements | tests/conformance_ruby/filter_test.rs:186 | Every character of a subsequence occurs in the text it comes from. |
| Text.SubseqShorter | tests/conformance_ruby/filter_test.rs:191-193 | A subsequence is no longer than the text it comes from. |
| Text.IndexOf | tests/conformance_ruby/filter_test.rs:191-193 | The position found is an occurrence with no earlier one. None means there is no occurrence at all. |
| Sorting.KeyLeTotal | tests/conformance_ruby/filter_test.rs:115-134 | Any two sort keys are comparable. |
| Sorting.KeyLeTransitive | tests/conformance_ruby/filter_test.rs:115-134 | The key order is transitive. |
| Sorting.KeyLeAntisymmetric | tests/conformance_ruby/filter_test.rs:115-134 | Two keys each no later than the other are equal. |
| Sorting.Insert | tests/conformance_ruby/filter_test.rs:125 | Inserting into a sorted sequence adds exactly that element and keeps it sorted. |
| Sorting.SortBy | tests/conformance_ruby/filter_test.rs:125-128 | The sort output is a permutation of the input in ascending key order. |
| Sorting.InsertStable | tests/conformance_ruby/filter_test.rs:144-148 | Inserting an element places it before every element of its own key, and keeps their order. |
| Sorting.SortByStable | tests/conformance_ruby/filter_test.rs:144-148 | For every key, the elements with that key appear in the output in their input order. |
| Sorting.SortBySortedIsIdentity | tests/conformance_ruby/filter_test.rs:151-155 | An already sorted sequence is returned exactly as it is. |
| Sorting.SortByIdempotent | tests/conformance_ruby/filter_test.rs:125 | Sorting twice is sorting once. |
| Html.StripComments | tests/conformance_ruby/filter_test.rs:189-194 | The comment pass: its result is a subsequence of its input, so it only deletes characters. |
| Html.StripTags | tests/conformance_ruby/filter_test.rs:182-187 | The tag pass: its result is a subsequence of its input, so it only deletes characters. |
| Html.StripHtml | tests/conformance_ruby/filter_test.rs:182-194 | Both passes together: the result is a subsequence of the input, no longer than it, with no tag-shaped pair left. |
| Html.StripTagsKeepsOnlyInput | tests/conformance_ruby/filter_test.rs:186 | Every character of the tag pass's output occurs in its input. |
| Html.StripTagsLeavesNoTag | tests/conformance_ruby/filter_test.rs:186 | After the tag pass, no `<` is followed anywhere later by a `>`. |
| Html.PlainPrefixKeptByTags | tests/conformance_ruby/filter_test.rs:186 | A prefix without `<` passes the tag pass unchanged. |
| Html.PlainPrefixKeptByComments | tests/conformance_ruby/filter_test.rs:186 | A prefix without `<` passes the comment pass unchanged. |
| Html.NoCommentKept | tests/conformance_ruby/filter_test.rs:184-186 | Text that holds no comment opening passes the comment pass unchanged. |
| Html.PlainTextKept | tests/conformance_ruby/filter_test.rs:182-187 | Text without `<` is left exactly as it is by `strip_html`. |
| Html.TagRemoved | tests/conformance_ruby/filter_test.rs:184-186 | A tag whose body holds no `>` is deleted together with its brackets. |
| Html.CommentRemoved | tests/conformance_ruby/filter_test.rs:189-194 | A comment whose body does not contain `-->` is deleted as a whole, tags inside it included. |
| Conformance.MoneyOfThousand | tests/conformance_ruby/filter_test.rs:76-81 | `{{var \| money}}` with var = 1000 renders " 1000$ ". |
| Conformance.MoneyWithUnderscoreOfThousand | tests/conformance_ruby/filter_test.rs:83-93 | `{{var \| money_with_underscore}}` with var = 1000 renders " 1000$ ". |
| Conformance.SizeOfAbcd | tests/conformance_ruby/filter_test.rs:101-106 | `{{var \| size}}` with var = "abcd" renders "4". |
| Conformance.JoinOfNumbers | tests/conformance_ruby/filter_test.rs:108-113 | `{{var \| join}}` with var = [1, 2, 3, 4] renders "1 2 3 4". |
| Conformance.SortNumbers | tests/conformance_ruby/filter_test.rs:125 | `{{numbers \| sort \| join}}` renders "1 2 3 4". |
| Conformance.SortWordsAlphabetic | tests/conformance_ruby/filter_test.rs:126 | `{{words \| sort \| join}}` renders "alphabetic as expected". |
| Conformance.SortScalar | tests/conformance_ruby/filter_test.rs:127 | `{{value \| sort}}` with value = 3 renders "3". |
| Conformance.SortWords | tests/conformance_ruby/filter_test.rs:128 | `{{arrays \| sort \| join}}` renders "are flower". |
| Conformance.SortCaseSensitive | tests/conformance_ruby/filter_test.rs:129-133 | `{{case_sensitive \| sort \| join}}` renders "Expected case sensitive". |
| Conformance.SortNaturalWords | tests/conformance_ruby/filter_test.rs:144-148 | `{{words \| sort_natural \| join}}` renders "Assert case Insensitive". |
| Conformance.SortNaturalHashes | tests/conformance_ruby/filter_test.rs:151-155 | `{{hashes \| sort_natural: 'a' \| map: 'a' \| join}}` renders "A b C". |
| Conformance.CompactWords | tests/conformance_ruby/filter_test.rs:169 | `{{words \| compact \| join}}` with words = ["a", nil, "b", nil, "c"] renders "a b c". |
| Conformance.CompactHashes | tests/conformance_ruby/filter_test.rs:172-176 | `{{hashes \| compact: 'a' \| map: 'a' \| join}}` renders "A C". |
| Conformance.StripHtmlOfTags | tests/conformance_ruby/filter_test.rs:182-187 | `{{var \| strip_html}}` with var = "<b>bla blub</a>" renders "bla blub". |
| Conformance.StripHtmlOfCommentWithTag | tests/conformance_ruby/filter_test.rs:189-194 | `{{var \| strip_html}}` with a leading comment that holds a `<ul>` tag renders "bla blub". |
| Conformance.CapitalizeBlub | tests/conformance_ruby/filter_test.rs:196-201 | `{{var \| capitalize}}` with var = "blub" renders "Blub". |
| Conformance.SubstituteWithoutArguments | tests/conformance_ruby/filter_test.rs:60-66 | `{{var \| substitute}}` renders the notice followed by var. |
| Conformance.SubstituteRejectsArguments | tests/conformance_ruby/filter_test.rs:209-222 | Given the test's two arguments, `substitute` fails with an argument error instead of rendering "hello john, doe", as the test marked to panic expects. |

## Left out

- Template parsing, the parser builder and the test macros: the engine is not part of this model. Chains are given as already parsed sequences of filter names with evaluated positional arguments.
- The derive macros that generate filter parsers and reflection: they are code generation in a library that is not part of this model.
- The render `Context`: no filter in the test file reads it.
- Keyword arguments: the engine does not support them (that test is marked to panic), so arguments are positional only. `Conformance.SubstituteRejectsArguments` states the resulting failure.
- The placeholder tests (filter override API, lenient unknown filters, object API, local and global filters): they hold no behaviour.
- Floating-point values: the tests use none.
- Integer width: integers are unbounded. A 64-bit overflow in the engine does not arise with the tests' values.
- Unicode case mapping: only ASCII letters change case in `capitalize` and `sort_natural`.
- Lenient handling of unknown filter names: the model is strict, and an unknown name fails the chain with an unknown-filter error.
- Filters.SortFilter: `sort_natural` on a value that is not an array returns it unchanged, as `sort` does. No test gives a scalar to `sort_natural`.
- Sorting.SortBy: the order between values of different types stands in for the engine's. Nil sorts first, then booleans, integers and strings. Arrays and objects are all equal to one another and last. A total order was needed because treating incomparable values as equal is not transitive.
- Values.Render: an object renders as the empty string. The tests never render one.
