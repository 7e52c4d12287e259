/** The dynamic value model of the template engine: the values filters receive
    and return, their rendering to text, and the error kinds a filter can raise. */
module Values {

  /** A runtime value. Objects are string-keyed maps. */
  datatype Value =
    | Nil
    | Bool(b: bool)
    | Int(i: int)
    | Str(s: string)
    | Array(items: seq<Value>)
    | Object(fields: map<string, Value>)

  /** Why a filter chain failed. */
  datatype Error =
    | UnknownFilter(name: string)
    | TypeMismatch(filter: string)
    | ArgumentError(filter: string)

  datatype Result<T> = Ok(value: T) | Err(error: Error)

  datatype Option<T> = None | Some(value: T)

  predicate IsDigit(c: char) { '0' <= c <= '9' }

  predicate AllDigits(s: string) { forall k :: 0 <= k < |s| ==> IsDigit(s[k]) }

  function DigitChar(d: nat): char
    requires d < 10
  {
    (d + '0' as int) as char
  }

  /** The decimal digits of `n`, most significant first, without leading zeros. */
  function NatToDecimal(n: nat): (r: string)
    ensures |r| > 0 && AllDigits(r)
    ensures r[0] == '0' ==> n == 0
    decreases n
  {
    if n < 10 then [DigitChar(n)] else NatToDecimal(n / 10) + [DigitChar(n % 10)]
  }

  /** The number a string of decimal digits denotes. */
  function DecimalValue(s: string): nat
    requires AllDigits(s)
  {
    if s == [] then 0 else DecimalValue(s[..|s| - 1]) * 10 + (s[|s| - 1] as int - '0' as int)
  }

  /** An integer as text: an optional minus sign and its decimal digits. */
  function IntToDecimal(i: int): (r: string)
    ensures i >= 0 ==> AllDigits(r) && |r| > 0 && (r[0] != '0' || i == 0)
    ensures i < 0 ==> |r| > 1 && r[0] == '-' && AllDigits(r[1..]) && r[1] != '0'
    ensures ParseDecimal(r) == Some(i)
  {
    if i < 0 then
      NatToDecimalRoundTrip(-i);
      assert ("-" + NatToDecimal(-i))[1..] == NatToDecimal(-i);
      "-" + NatToDecimal(-i)
    else
      NatToDecimalRoundTrip(i);
      NatToDecimal(i)
  }

  /** Reads back what IntToDecimal writes; None for anything else. */
  function ParseDecimal(s: string): Option<int>
  {
    if |s| > 1 && s[0] == '-' && AllDigits(s[1..]) then Some(0 - DecimalValue(s[1..]) as int)
    else if |s| > 0 && AllDigits(s) then Some(DecimalValue(s) as int)
    else None
  }

  lemma {:induction false} NatToDecimalRoundTrip(n: nat)
    ensures DecimalValue(NatToDecimal(n)) == n
    decreases n
  {
    if n >= 10 {
      NatToDecimalRoundTrip(n / 10);
      var r := NatToDecimal(n);
      assert r[..|r| - 1] == NatToDecimal(n / 10);
    }
  }

  /** Rendering an integer yields its decimal digits (with a minus sign when
      negative), and parsing that text gives the integer back. */
  lemma RenderIntRoundTrip(i: int)
    ensures Render(Int(i)) == IntToDecimal(i)
    ensures i >= 0 ==> AllDigits(Render(Int(i))) && (Render(Int(i))[0] != '0' || i == 0)
    ensures i < 0 ==> Render(Int(i))[0] == '-' && AllDigits(Render(Int(i))[1..]) && Render(Int(i))[1] != '0'
    ensures ParseDecimal(Render(Int(i))) == Some(i)
  {
  }

  /** The text a value renders to in a template's output. */
  function Render(v: Value): (r: string)
    ensures v.Nil? || v.Object? ==> r == ""
    ensures v.Bool? ==> r == (if v.b then "true" else "false")
    ensures v.Int? ==> r == IntToDecimal(v.i) && ParseDecimal(r) == Some(v.i)
    ensures v.Str? ==> r == v.s
    decreases v
  {
    match v
    case Nil => ""
    case Bool(b) => if b then "true" else "false"
    case Int(i) => IntToDecimal(i)
    case Str(s) => s
    case Array(items) => RenderAll(items)
    case Object(_) => ""
  }

  /** The elements' renderings, concatenated with nothing between them. */
  function RenderAll(items: seq<Value>): string
    decreases items
  {
    if items == [] then "" else Render(items[0]) + RenderAll(items[1..])
  }

  /** Rendering an array is compositional: the rendering of a concatenation is
      the concatenation of the renderings. */
  lemma {:induction false} RenderArrayAppend(xs: seq<Value>, ys: seq<Value>)
    ensures Render(Array(xs + ys)) == Render(Array(xs)) + Render(Array(ys))
    decreases |xs|
  {
    if xs == [] {
      assert xs + ys == ys;
    } else {
      assert (xs + ys)[1..] == xs[1..] + ys;
      RenderArrayAppend(xs[1..], ys);
      calc {
        Render(Array(xs + ys));
        RenderAll(xs + ys);
        Render(xs[0]) + RenderAll(xs[1..] + ys);
        Render(xs[0]) + (RenderAll(xs[1..]) + RenderAll(ys));
      }
    }
  }

  /** The `.property` of a value: the field of an object, or Nil when the value
      is not an object or has no such field. */
  function Property(v: Value, key: string): (r: Value)
    ensures v.Object? && key in v.fields ==> r == v.fields[key]
    ensures r != Nil ==> v.Object? && key in v.fields && r == v.fields[key]
  {
    if v.Object? && key in v.fields then v.fields[key] else Nil
  }

  predicate AllObjects(s: seq<Value>) { forall k :: 0 <= k < |s| ==> s[k].Object? }
}
