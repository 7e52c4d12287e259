/** The filters the conformance test registers itself. Each ignores the render
    context, takes no argument and wraps the input's rendering in fixed text. */
module CustomFilters {
  import opened Values

  const MoneyPrefix: string := " "
  const MoneySuffix: string := "$ "
  const SubstitutePrefix: string := "No keyword argument support: "

  /** The input's rendering between a leading space and a trailing "$ ". */
  function MoneyText(v: Value): string
  {
    MoneyPrefix + Render(v) + MoneySuffix
  }

  /** Reads the rendered input back out of a `money` text; None when the text
      does not have the money shape. */
  function UnwrapMoney(t: string): Option<string>
  {
    if |t| >= 3 && t[..1] == MoneyPrefix && t[|t| - 2..] == MoneySuffix then Some(t[1..|t| - 2])
    else None
  }

  /** `money`. */
  function Money(input: Value, args: seq<Value>): (r: Result<Value>)
    ensures r.Ok? <==> args == []
    ensures r.Err? ==> r.error == ArgumentError("money")
    ensures r.Ok? ==> r.value.Str? && UnwrapMoney(r.value.s) == Some(Render(input))
  {
    if args != [] then Err(ArgumentError("money"))
    else
      MoneyRoundTrip(input);
      Ok(Str(MoneyText(input)))
  }

  /** `money_with_underscore`: a separately registered filter. */
  function MoneyWithUnderscore(input: Value, args: seq<Value>): (r: Result<Value>)
    ensures r.Ok? <==> args == []
    ensures r.Err? ==> r.error == ArgumentError("money_with_underscore")
    ensures r.Ok? ==> r.value.Str? && UnwrapMoney(r.value.s) == Some(Render(input))
  {
    if args != [] then Err(ArgumentError("money_with_underscore"))
    else
      MoneyRoundTrip(input);
      Ok(Str(MoneyText(input)))
  }

  /** The money text starts with one space, ends with "$ ", holds exactly the
      rendered input between the two, and can be read back. */
  lemma MoneyRoundTrip(v: Value)
    ensures |MoneyText(v)| == |Render(v)| + 3
    ensures MoneyText(v)[0] == ' '
    ensures MoneyText(v)[|MoneyText(v)| - 2..] == "$ "
    ensures UnwrapMoney(MoneyText(v)) == Some(Render(v))
  {
    var t := MoneyText(v);
    assert t[..1] == MoneyPrefix;
    assert t[|t| - 2..] == MoneySuffix;
    assert t[1..|t| - 2] == Render(v);
  }

  /** The two money filters behave alike on every input they accept. */
  lemma MoneyFiltersAgree(input: Value)
    ensures Money(input, []).Ok? && MoneyWithUnderscore(input, []).Ok?
    ensures Money(input, []).value == MoneyWithUnderscore(input, []).value
  {
  }

  /** `substitute`: a fixed notice followed by the rendered input. Keyword
      arguments are not supported, so the filter takes no argument at all. */
  function Substitute(input: Value, args: seq<Value>): (r: Result<Value>)
    ensures r.Ok? <==> args == []
    ensures r.Err? ==> r.error == ArgumentError("substitute")
    ensures r.Ok? ==>
      && r.value.Str?
      && |r.value.s| == |SubstitutePrefix| + |Render(input)|
      && r.value.s[..|SubstitutePrefix|] == SubstitutePrefix
      && r.value.s[|SubstitutePrefix|..] == Render(input)
  {
    if args != [] then Err(ArgumentError("substitute"))
    else Ok(Str(SubstitutePrefix + Render(input)))
  }
}
