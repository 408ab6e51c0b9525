/** The conversion engine of package parser: look a key up, and either fall
    back, return the parsed value, or fail fatally. */
module Parser {
  import opened Decimal

  /** The process environment as os.LookupEnv reports it, made an explicit
      value: variable name to text. LookupEnv reports the empty name as
      absent whatever the process holds, so it is never a key. */
  type Env = m: map<string, string> | "" !in m witness map[]

  /** Why a parser rejected its text. `Syntax` and `Range` are the two errors
      of Go's strconv; `Part` is the error List reports for one list element,
      naming the key, the offending part and the part parser's own cause. */
  datatype Cause =
    | Syntax
    | Range
    | Part(key: string, part: string, inner: Cause)

  /** What a parser function returns: a value, or an error. */
  datatype ParseResult<+T> = Ok(value: T) | Err(cause: Cause)

  /** What an accessor produces: the value handed back to the caller, or the
      fatal failure (a panic in getenv) naming the key, the raw text and
      the cause. */
  datatype Outcome<+T> = Value(value: T) | Failure(key: string, raw: string, cause: Cause)

  /** Looks `key` up in `env`. An absent key yields the fallback and the parser
      is not consulted; a present key yields the parser's value, or a failure
      when the parser rejects the raw text. */
  function Parse<T>(env: Env, key: string, fallback: T, p: string -> ParseResult<T>): (r: Outcome<T>)
    ensures key !in env ==> r == Value(fallback)
    ensures key in env ==> (r.Value? <==> p(env[key]).Ok?)
    ensures key in env && r.Value? ==> r.value == p(env[key]).value
    ensures r.Failure? ==> key in env && r == Failure(key, env[key], p(env[key]).cause)
  {
    if key !in env then Value(fallback)
    else
      match p(env[key])
      case Ok(v) => Value(v)
      case Err(e) => Failure(key, env[key], e)
  }

  /** The identity parser: the text itself, never an error. */
  function ID(v: string): (r: ParseResult<string>)
    ensures r.Ok? && r.value == v
  {
    Ok(v)
  }

  /** Smallest n with n * 10 > MaxU64: strconv's guard against the
      multiplication overflowing. */
  const Cutoff: nat := MaxU64 / 10 + 1

  /** The digit loop of strconv.ParseUint(s, 10, 64) from position `i` on,
      with `n` the value of the digits already read. It stops at the first
      non-digit (a syntax error) or at the first digit that would take the
      value past MaxU64 (a range error), whichever comes first. */
  function ScanU64(s: string, i: nat, n: nat): (r: ParseResult<u64>)
    requires i <= |s| && AllDigits(s[..i]) && n == Number(s[..i]) && n <= MaxU64
    ensures r.Ok? <==> AllDigits(s) && Number(s) <= MaxU64
    ensures r.Ok? ==> AllDigits(s) && r.value == Number(s)
    ensures r.Err? ==> r.cause == (if Number(s[..DigitRun(s)]) > MaxU64 then Range else Syntax)
    decreases |s| - i
  {
    var k := DigitRun(s);
    assert i <= k;
    if i == |s| then
      assert s[..i] == s;
      Ok(n)
    else if !IsDigit(s[i]) then
      assert k == i;
      Err(Syntax)
    else
      NumberStep(s, i);
      NumberPrefixMonotone(s, i + 1, k);
      assert AllDigits(s) ==> Number(s[..i + 1]) <= Number(s) by {
        if AllDigits(s) {
          assert s[..|s|] == s;
          NumberPrefixMonotone(s, i + 1, |s|);
        }
      }
      if n >= Cutoff then Err(Range)
      else if n * 10 + DigitValue(s[i]) > MaxU64 then Err(Range)
      else ScanU64(s, i + 1, n * 10 + DigitValue(s[i]))
  }

  /** Parses unsigned decimal text into a uint64 with strconv.ParseUint(v, 10, 64):
      success exactly on non-empty all-digit text whose value fits in 64 bits;
      no sign, no base prefix, no underscores, no wrap-around. */
  function U64(v: string): (r: ParseResult<u64>)
    ensures r.Ok? <==> v != "" && AllDigits(v) && Number(v) <= MaxU64
    ensures r.Ok? ==> AllDigits(v) && r.value == Number(v)
    ensures r.Err? ==> r.cause == (if Number(v[..DigitRun(v)]) > MaxU64 then Range else Syntax)
  {
    if v == "" then Err(Syntax)
    else
      assert v[..0] == "";
      ScanU64(v, 0, 0)
  }

  /** An absent key never consults the parser: any two parsers agree. */
  lemma ParseAbsentIgnoresParser<T>(env: Env, key: string, fallback: T, p: string -> ParseResult<T>, q: string -> ParseResult<T>)
    requires key !in env
    ensures Parse(env, key, fallback, p) == Parse(env, key, fallback, q) == Value(fallback)
  {
  }

  /** A present key never consults the fallback: any two fallbacks agree,
      whether the parse succeeds or fails. */
  lemma ParsePresentIgnoresFallback<T>(env: Env, key: string, f1: T, f2: T, p: string -> ParseResult<T>)
    requires key in env
    ensures Parse(env, key, f1, p) == Parse(env, key, f2, p)
  {
  }

  /** The outcome depends on the environment only through the one key looked
      up: two environments that agree on `key` give the same outcome. */
  lemma ParseReadsOnlyKey<T>(e1: Env, e2: Env, key: string, fallback: T, p: string -> ParseResult<T>)
    requires key in e1 <==> key in e2
    requires key in e1 ==> e1[key] == e2[key]
    ensures Parse(e1, key, fallback, p) == Parse(e2, key, fallback, p)
  {
  }

  /** The canonical decimal rendering of every uint64 parses back to it. */
  lemma U64RoundTrip(n: u64)
    ensures U64(Render(n)) == Ok(n)
  {
  }

  /** A leading zero is accepted and changes neither the value nor the
      error, whatever text follows it. */
  lemma U64LeadingZero(s: string)
    requires s != ""
    ensures U64("0" + s) == U64(s)
  {
    var t := "0" + s;
    var k := DigitRun(s);
    assert t[1..] == s;
    assert DigitRun(t) == 1 + k;
    assert t[..1 + k] == "0" + s[..k];
    NumberLeadingZero(s[..k]);
    if AllDigits(s) {
      assert s[..k] == s;
      assert t[..1 + k] == t;
    }
  }

  /** The empty name is never set: every accessor falls back on it. */
  lemma EmptyKeyFallsBack<T>(env: Env, fallback: T, p: string -> ParseResult<T>)
    ensures Parse(env, "", fallback, p) == Value(fallback)
  {
  }

  /** A leading sign is a syntax error: the parse is unsigned. */
  lemma U64RejectsSign(s: string)
    requires |s| > 0 && (s[0] == '-' || s[0] == '+')
    ensures U64(s) == Err(Syntax)
  {
    assert DigitRun(s) == 0;
    assert s[..0] == "";
  }

  /** Decimal text for a value of 2^64 or more fails with a range error; it
      never wraps around. */
  lemma U64NoWrap(n: nat)
    requires n > MaxU64
    ensures U64(Render(n)) == Err(Range)
  {
    var s := Render(n);
    assert s[..DigitRun(s)] == s;
  }
}
