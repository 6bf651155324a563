/** The foreign pieces the core sits on: Go's RE2 package and the Shannon
    entropy numerics. Both are opaque here; the core is modelled over them. */
module Foreign {
  import opened Wrappers

  newtype byte = x: int | 0 <= x < 256

  /** A compiled regular expression. Like Go's `Regexp.String`, it remembers
      the source text it was compiled from. */
  datatype Regex = Regex(expr: string)

  /** What the core observes of RE2.
      - `compiles(e)`: `regexp.Compile(e)` returns no error;
      - `matchString(r, s)`: `r.MatchString(s)`;
      - `findStringSubmatch(r, s)`: `r.FindStringSubmatch(s)`, the leftmost
        match followed by its capture groups, `[]` for Go's nil (a match always
        has at least the whole-match element);
      - `findSubmatch(r, b)`: `r.FindSubmatch(b)` over bytes, the same shape. */
  datatype Re2 = Re2(
    compiles: string -> bool,
    matchString: (Regex, string) -> bool,
    findStringSubmatch: (Regex, string) -> seq<string>,
    findSubmatch: (Regex, seq<byte>) -> seq<seq<byte>>)

  /** `regexp.Compile`: a compiled pattern, or nil on a syntax error. */
  function Compile(re: Re2, expr: string): (r: Option<Regex>)
    ensures r.Some? <==> re.compiles(expr)
    ensures r.Some? ==> r.value.expr == expr
  {
    if re.compiles(expr) then Some(Regex(expr)) else None
  }

  /** `CalculateShannonEntropy`: the empty string has entropy 0 (the early
      return); for any other string the floating-point value is `shannon(s)`. */
  function Entropy(shannon: string -> real, s: string): (e: real)
    ensures |s| == 0 ==> e == 0.0
  {
    if |s| == 0 then 0.0 else shannon(s)
  }

  /** Go's `string(b)` on a byte slice: one character per byte. */
  function BytesToString(b: seq<byte>): (s: string)
    ensures |s| == |b|
    ensures forall i :: 0 <= i < |b| ==> s[i] as int == b[i] as int
  {
    seq(|b|, i requires 0 <= i < |b| => (b[i] as int) as char)
  }
}
