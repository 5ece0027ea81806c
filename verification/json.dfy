/**
 * The shared vocabulary of the agents that read model replies as JSON: the decoded value
 * (what `json.loads` returns; decoding itself is an oracle), the code-fence clean-up tried
 * when the first decode fails, and the decimal rendering of counts inside messages.
 */
module Json {
  import opened Text

  type Denominator = n: nat | n > 0 witness 1

  /** A decoded JSON value; numbers are exact rationals `num / den`. */
  datatype Value =
    | Null
    | Bool(b: bool)
    | Num(num: int, den: Denominator)
    | Str(s: string)
    | Arr(items: seq<Value>)
    | Obj(fields: map<string, Value>)

  /** A whole number as a JSON number. */
  function Int(n: int): Value {
    Num(n, 1)
  }

  // ---------------------------------------------------------------- fence clean-up

  const OpenFence: string := "```json"
  const CloseFence: string := "```"

  /**
   * The second-chance clean-up of a reply that did not decode: strip, drop an opening
   * "```json" and a closing "```", strip again.
   */
  function CleanFence(reply: string): (r: string)
    ensures Stripped(r)
  {
    Strip(DropFences(Strip(reply)))
  }

  /** Drops an opening "```json" and then a closing "```", where present. */
  function DropFences(c: string): string
  {
    DropClose(if StartsWith(c, OpenFence) then c[|OpenFence|..] else c)
  }

  /** Drops a closing "```", where present. */
  function DropClose(c: string): string
  {
    if EndsWith(c, CloseFence) then c[..|c| - |CloseFence|] else c
  }

  /** Without either fence the clean-up is just `strip`. */
  lemma CleanFenceNoFence(reply: string)
    requires !StartsWith(Strip(reply), OpenFence) && !EndsWith(Strip(reply), CloseFence)
    ensures CleanFence(reply) == Strip(reply)
  {
    StripIdempotent(reply);
  }

  /** A body wrapped in a ```json fence comes back out, stripped. */
  lemma CleanFenceUnwraps(body: string)
    ensures CleanFence(OpenFence + body + CloseFence) == Strip(body)
  {
    var s := OpenFence + body + CloseFence;
    assert s[0] == '`' && s[|s| - 1] == '`';
    StripFixesStripped(s);
    assert s[..|OpenFence|] == OpenFence;
    var c1 := s[|OpenFence|..];
    assert c1 == body + CloseFence;
    assert c1[|c1| - |CloseFence|..] == CloseFence;
    assert c1[..|c1| - |CloseFence|] == body;
  }

  // ---------------------------------------------------------------- decimal numerals

  function DigitChar(d: nat): (c: char)
    requires d < 10
    ensures IsAsciiDigit(c)
  {
    "0123456789"[d]
  }

  function DigitValue(c: char): nat
    requires IsAsciiDigit(c)
  {
    (c as int - '0' as int) as nat
  }

  /** `str(n)` / `f"{n}"` for a non-negative integer. */
  function Decimal(n: nat): (r: string)
    ensures |r| > 0
    ensures forall i :: 0 <= i < |r| ==> IsAsciiDigit(r[i])
    ensures r[0] == '0' ==> n == 0
  {
    if n < 10 then [DigitChar(n)] else Decimal(n / 10) + [DigitChar(n % 10)]
  }

  /** Reading a string of digits, most significant first. */
  function ParseDecimal(s: string): nat
    requires forall i :: 0 <= i < |s| ==> IsAsciiDigit(s[i])
  {
    if |s| == 0 then 0 else 10 * ParseDecimal(s[..|s| - 1]) + DigitValue(s[|s| - 1])
  }

  /** The numeral names the number it was made from. */
  lemma {:induction false} DecimalRoundTrip(n: nat)
    ensures ParseDecimal(Decimal(n)) == n
  {
    var r := Decimal(n);
    if n < 10 {
      assert r[..0] == [];
    } else {
      DecimalRoundTrip(n / 10);
      assert r[..|r| - 1] == Decimal(n / 10);
    }
  }
}
