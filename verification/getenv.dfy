/** The typed accessors of package getenv: each hands a concrete parser to
    Parse, and List adds comma-separated lists on top. */
module Getenv {
  import opened Decimal
  import opened Parser
  import opened CommaList
  import IntKinds

  /** The parser accepts every part. */
  predicate AllParse<T>(parts: seq<string>, p: string -> ParseResult<T>) {
    forall i | 0 <= i < |parts| :: p(parts[i]).Ok?
  }

  /** Part `i` is the first one the parser rejects. */
  predicate FirstFailure<T>(parts: seq<string>, p: string -> ParseResult<T>, i: int) {
    0 <= i < |parts| && p(parts[i]).Err? && forall j | 0 <= j < i :: p(parts[j]).Ok?
  }

  /** The parser List hands to Parse, applied to the parts of the raw text:
      parse and convert every part in order, and stop at the first part the
      parser rejects with an error naming the key and that part. */
  function ParseParts<T, U>(key: string, parts: seq<string>, p: string -> ParseResult<T>, convert: T -> U): (r: ParseResult<seq<U>>)
    ensures r.Ok? <==> AllParse(parts, p)
    ensures r.Ok? ==> |r.value| == |parts|
    ensures r.Ok? ==> forall i | 0 <= i < |parts| :: p(parts[i]).Ok? && r.value[i] == convert(p(parts[i]).value)
    ensures r.Err? ==> exists i :: FirstFailure(parts, p, i) && r.cause == Part(key, parts[i], p(parts[i]).cause)
    decreases |parts|
  {
    if |parts| == 0 then Ok([])
    else
      match p(parts[0])
      case Err(e) =>
        assert FirstFailure(parts, p, 0);
        Err(Part(key, parts[0], e))
      case Ok(v) =>
        var rest := ParseParts(key, parts[1..], p, convert);
        if rest.Err? then
          FailureShift(key, parts, p, rest.cause);
          rest
        else
          Ok([convert(v)] + rest.value)
  }

  /** A failure in the parts after a successful first part is a failure of
      the whole sequence, one position further on. */
  lemma FailureShift<T>(key: string, parts: seq<string>, p: string -> ParseResult<T>, c: Cause)
    requires |parts| > 0 && p(parts[0]).Ok?
    requires exists i :: FirstFailure(parts[1..], p, i) && c == Part(key, parts[1..][i], p(parts[1..][i]).cause)
    ensures exists i :: FirstFailure(parts, p, i) && c == Part(key, parts[i], p(parts[i]).cause)
  {
    var i :| FirstFailure(parts[1..], p, i) && c == Part(key, parts[1..][i], p(parts[1..][i]).cause);
    assert FirstFailure(parts, p, i + 1);
  }

  /** The loop of List's parser as getenv.go writes it: `values` is the
      buffer of converted parts, handed back beside the error when a part
      fails (Parse then discards it). */
  method ParsePartsLoop<T, U>(key: string, parts: seq<string>, p: string -> ParseResult<T>, convert: T -> U)
    returns (values: seq<U>, r: ParseResult<seq<U>>)
    ensures r == ParseParts(key, parts, p, convert)
    ensures r.Ok? ==> values == r.value
    ensures r.Err? ==> FirstFailure(parts, p, |values|)
    ensures forall j | 0 <= j < |values| :: p(parts[j]).Ok? && values[j] == convert(p(parts[j]).value)
  {
    values := [];
    var i := 0;
    while i < |parts|
      invariant 0 <= i <= |parts| && |values| == i
      invariant forall j | 0 <= j < i :: p(parts[j]).Ok? && values[j] == convert(p(parts[j]).value)
    {
      match p(parts[i]) {
        case Err(e) =>
          assert FirstFailure(parts, p, i);
          r := Err(Part(key, parts[i], e));
          var spec := ParseParts(key, parts, p, convert);
          var i' :| FirstFailure(parts, p, i') && spec.cause == Part(key, parts[i'], p(parts[i']).cause);
          assert i' == i;
          return;
        case Ok(v) =>
          values := values + [convert(v)];
      }
      i := i + 1;
    }
    r := Ok(values);
    assert ParseParts(key, parts, p, convert).value == values;
  }

  /** A comma-separated list: absent key, the fallback; otherwise the raw text
      split at every comma, each part parsed and converted in order; the first
      part the parser rejects makes the whole call fail with the key, the raw
      text and that part, and no list reaches the caller. */
  function List<T, U>(env: Env, key: string, fallback: seq<U>, p: string -> ParseResult<T>, convert: T -> U): (r: Outcome<seq<U>>)
    ensures key !in env ==> r == Value(fallback)
    ensures key in env ==> var parts := Split(env[key]);
      (r.Value? <==> AllParse(parts, p))
    ensures key in env && r.Value? ==> var parts := Split(env[key]);
      && |r.value| == Commas(env[key]) + 1
      && forall i | 0 <= i < |parts| :: p(parts[i]).Ok? && r.value[i] == convert(p(parts[i]).value)
    ensures r.Failure? ==> (key in env && r.key == key && r.raw == env[key] &&
      var parts := Split(env[key]);
      exists i :: FirstFailure(parts, p, i) && r.cause == Part(key, parts[i], p(parts[i]).cause))
  {
    var parser := (s: string) => ParseParts(key, Split(s), p, convert);
    assert key in env ==> parser(env[key]) == ParseParts(key, Split(env[key]), p, convert);
    Parse(env, key, fallback, parser)
  }

  /** The converter of the string and duration lists: the value itself. */
  function IdentityOf<T>(v: T): (r: T)
    ensures r == v
  {
    v
  }

  /** A string variable: the raw text whenever the key is present, even when
      it is empty; the fallback otherwise; never a failure. */
  function String(env: Env, key: string, fallback: string): (r: Outcome<string>)
    ensures r == Value(if key in env then env[key] else fallback)
  {
    Parse(env, key, fallback, ID)
  }

  /** A comma-separated string list: the parts of the raw text, exactly as
      split, whenever the key is present; the fallback otherwise; never a
      failure. */
  function Strings(env: Env, key: string, fallback: seq<string>): (r: Outcome<seq<string>>)
    ensures r == Value(if key in env then Split(env[key]) else fallback)
  {
    var r := List(env, key, fallback, ID, IdentityOf);
    assert key in env ==> r.value == Split(env[key]);
    r
  }

  /** An integer variable of kind `kind`: the fallback is widened to uint64,
      the raw text is read as an unsigned 64-bit decimal, and the result is
      narrowed back to the kind by Go's conversion. */
  function Int(env: Env, key: string, kind: IntKinds.IntKind, fallback: int): (r: Outcome<int>)
    requires kind.Holds(fallback)
    ensures r.Value? ==> kind.Holds(r.value)
    ensures key !in env ==> r == Value(fallback)
    ensures key in env ==> (r.Value? <==> U64(env[key]).Ok?)
    ensures key in env && r.Value? ==> AllDigits(env[key]) && r.value == IntKinds.Convert(kind, Number(env[key]))
    ensures r.Failure? ==> key in env && r == Failure(key, env[key], U64(env[key]).cause)
  {
    IntKinds.WidenNarrow(kind, fallback);
    var wide: u64 := IntKinds.Convert(IntKinds.Uint64, fallback);
    match Parse(env, key, wide, U64)
    case Value(v) => Value(IntKinds.Convert(kind, v))
    case Failure(k, raw, c) => Failure(k, raw, c)
  }

  /** A comma-separated integer list of kind `kind`: every part read as an
      unsigned 64-bit decimal and narrowed to the kind. */
  function Ints(env: Env, key: string, kind: IntKinds.IntKind, fallback: seq<int>): (r: Outcome<seq<int>>)
    requires forall i | 0 <= i < |fallback| :: kind.Holds(fallback[i])
    ensures key !in env ==> r == Value(fallback)
    ensures key in env ==> (r.Value? <==> AllParse(Split(env[key]), U64))
    ensures r.Value? ==> forall i | 0 <= i < |r.value| :: kind.Holds(r.value[i])
  {
    List(env, key, fallback, U64, (v: u64) => IntKinds.Convert(kind, v))
  }

  /** The values of an integer list: one per comma-separated part, in order,
      each the part's unsigned 64-bit value narrowed to the kind. */
  lemma IntsValues(env: Env, key: string, kind: IntKinds.IntKind, fallback: seq<int>)
    requires forall i | 0 <= i < |fallback| :: kind.Holds(fallback[i])
    requires key in env && Ints(env, key, kind, fallback).Value?
    ensures var r := Ints(env, key, kind, fallback); var parts := Split(env[key]);
      && |r.value| == |parts| == Commas(env[key]) + 1
      && forall i | 0 <= i < |parts| :: U64(parts[i]).Ok? && r.value[i] == IntKinds.Convert(kind, U64(parts[i]).value)
  {
    var r := Ints(env, key, kind, fallback);
    var parts := Split(env[key]);
    var narrow := (v: u64) => IntKinds.Convert(kind, v);
    assert r == List(env, key, fallback, U64, narrow);
    forall i | 0 <= i < |parts|
      ensures U64(parts[i]).Ok? && r.value[i] == IntKinds.Convert(kind, U64(parts[i]).value)
    {
      assert r.value[i] == narrow(U64(parts[i]).value);
    }
  }

  /** An integer list fails on the first part `i` that is not an unsigned
      64-bit decimal, naming the key, the raw text and that part. */
  lemma IntsFailure(env: Env, key: string, kind: IntKinds.IntKind, fallback: seq<int>) returns (i: nat)
    requires forall j | 0 <= j < |fallback| :: kind.Holds(fallback[j])
    requires Ints(env, key, kind, fallback).Failure?
    ensures key in env && FirstFailure(Split(env[key]), U64, i)
    ensures Ints(env, key, kind, fallback) == Failure(key, env[key], Part(key, Split(env[key])[i], U64(Split(env[key])[i]).cause))
  {
    var r := Ints(env, key, kind, fallback);
    var narrow := (v: u64) => IntKinds.Convert(kind, v);
    var parse: string -> ParseResult<u64> := U64;
    assert r == List(env, key, fallback, parse, narrow);
    var parts := Split(env[key]);
    i :| FirstFailure(parts, parse, i) && r.cause == Part(key, parts[i], parse(parts[i]).cause);
  }

  /** The texts strconv.ParseBool reads as true and as false. */
  const TrueTokens: set<string> := {"1", "t", "T", "TRUE", "true", "True"}
  const FalseTokens: set<string> := {"0", "f", "F", "FALSE", "false", "False"}

  /** strconv.ParseBool: one of a fixed set of tokens, or a syntax error. */
  function ParseBool(s: string): (r: ParseResult<bool>)
    ensures r.Ok? <==> s in TrueTokens + FalseTokens
    ensures r.Ok? ==> (r.value <==> s !in FalseTokens)
    ensures r.Err? ==> r.cause == Syntax
  {
    if s in TrueTokens then Ok(true)
    else if s in FalseTokens then Ok(false)
    else Err(Syntax)
  }

  /** A boolean variable. */
  function Bool(env: Env, key: string, fallback: bool): (r: Outcome<bool>)
    ensures key !in env ==> r == Value(fallback)
    ensures key in env ==> (r == Value(true) <==> env[key] in TrueTokens)
    ensures key in env ==> (r == Value(false) <==> env[key] in FalseTokens)
    ensures r.Failure? ==> key in env && r == Failure(key, env[key], Syntax)
  {
    Parse(env, key, fallback, ParseBool)
  }

  /** Once a part fails, nothing after it is looked at: whatever follows the
      failing part, the result is the same failure. */
  lemma {:induction false} ParsePartsStopsAtFailure<T, U>(key: string, parts: seq<string>, p: string -> ParseResult<T>, convert: T -> U, i: nat, later: seq<string>)
    requires FirstFailure(parts, p, i)
    ensures ParseParts(key, parts[..i + 1] + later, p, convert) == ParseParts(key, parts, p, convert)
    ensures ParseParts(key, parts, p, convert) == Err(Part(key, parts[i], p(parts[i]).cause))
    decreases i
  {
    var cut := parts[..i + 1] + later;
    assert cut[0] == parts[0];
    if i > 0 {
      assert cut[1..] == parts[1..][..i] + later;
      assert FirstFailure(parts[1..], p, i - 1);
      ParsePartsStopsAtFailure(key, parts[1..], p, convert, i - 1, later);
    }
  }

  /** Joining the parts of a string list with commas gives back the raw text. */
  lemma StringsJoin(env: Env, key: string, fallback: seq<string>)
    requires key in env
    ensures Strings(env, key, fallback).Value?
    ensures |Strings(env, key, fallback).value| > 0
    ensures Join(Strings(env, key, fallback).value) == env[key]
  {
  }

  /** An empty variable is a list of one empty string, not an empty list. */
  lemma StringsEmpty(env: Env, key: string, fallback: seq<string>)
    requires key in env && env[key] == ""
    ensures Strings(env, key, fallback) == Value([""])
  {
  }

  /** Every integer kind gets its fallback back unchanged when the key is
      absent, negative signed fallbacks included. */
  lemma IntAbsent(env: Env, key: string)
    requires key !in env
    ensures Int(env, key, IntKinds.Int8, -128) == Value(-128)
    ensures Int(env, key, IntKinds.Int64, -1) == Value(-1)
    ensures Int(env, key, IntKinds.Uint8, 255) == Value(255)
  {
  }

  /** A sign is rejected, even for a signed kind: "-1" fails. */
  lemma IntRejectsSign(env: Env, key: string, kind: IntKinds.IntKind, fallback: int)
    requires kind.Holds(fallback)
    requires key in env && |env[key]| > 0 && (env[key][0] == '-' || env[key][0] == '+')
    ensures Int(env, key, kind, fallback) == Failure(key, env[key], Syntax)
  {
    U64RejectsSign(env[key]);
  }

  /** Narrowing is modular and silent: "300" read as uint8 is 44. */
  lemma IntNarrows(env: Env, key: string)
    requires key in env && env[key] == "300"
    ensures Int(env, key, IntKinds.Uint8, 42) == Value(44)
  {
    assert Render(300) == "300";
    U64RoundTrip(300);
  }

  /** "123" read as any integer kind is 123; "abc" fails with a syntax
      error, never falling back. */
  lemma IntExamples(e1: Env, e2: Env, key: string, kind: IntKinds.IntKind, fallback: int)
    requires kind.Holds(fallback)
    requires key in e1 && e1[key] == "123"
    requires key in e2 && e2[key] == "abc"
    ensures Int(e1, key, kind, fallback) == Value(123)
    ensures Int(e2, key, kind, fallback) == Failure(key, "abc", Syntax)
  {
    assert Render(123) == "123";
    U64RoundTrip(123);
    IntKinds.SmallHolds(kind, 123);
    IntKinds.ConvertIdentity(kind, 123);
    assert DigitRun("abc") == 0 && "abc"[..0] == "";
  }

  /** The two texts of the list examples below, cut at the comma. */
  lemma SplitExamples()
    ensures Split("123,124") == ["123", "124"]
    ensures Split("123,a") == ["123", "a"]
  {
    assert Join(["123", "124"]) == "123,124";
    SplitJoin(["123", "124"]);
    assert Join(["123", "a"]) == "123,a";
    SplitJoin(["123", "a"]);
  }

  /** The parts of the list examples below, read as uint64. */
  lemma U64Examples()
    ensures U64("123") == Ok(123) && U64("124") == Ok(124)
    ensures U64("a") == Err(Syntax)
  {
    assert Render(123) == "123";
    U64RoundTrip(123);
    assert Render(124) == "124";
    U64RoundTrip(124);
    assert DigitRun("a") == 0 && "a"[..0] == "";
  }

  /** When every part fits the kind, narrowing changes nothing: the list is
      exactly the parts' decimal values, in order. */
  lemma IntsInRange(env: Env, key: string, kind: IntKinds.IntKind, fallback: seq<int>, values: seq<u64>)
    requires forall i | 0 <= i < |fallback| :: kind.Holds(fallback[i])
    requires key in env && |Split(env[key])| == |values|
    requires forall i | 0 <= i < |values| :: U64(Split(env[key])[i]) == Ok(values[i]) && kind.Holds(values[i])
    ensures Ints(env, key, kind, fallback) == Value(values)
  {
    var r := Ints(env, key, kind, fallback);
    var parts := Split(env[key]);
    assert AllParse(parts, U64);
    IntsValues(env, key, kind, fallback);
    assert r.Value? && |r.value| == |values|;
    forall i | 0 <= i < |parts|
      ensures r.value[i] == values[i]
    {
      IntKinds.ConvertIdentity(kind, values[i]);
    }
    assert r.value == values;
  }

  /** A two-part list whose parts both fit the kind is the two values. */
  lemma IntsTwoParts(env: Env, key: string, kind: IntKinds.IntKind, fallback: seq<int>, a: string, b: string, x: u64, y: u64)
    requires forall i | 0 <= i < |fallback| :: kind.Holds(fallback[i])
    requires key in env && Split(env[key]) == [a, b]
    requires U64(a) == Ok(x) && U64(b) == Ok(y) && kind.Holds(x) && kind.Holds(y)
    ensures Ints(env, key, kind, fallback) == Value([x, y])
  {
    var values := [x, y];
    IntsInRange(env, key, kind, fallback, values);
  }

  /** "123,124" read as a list of any integer kind is [123, 124]. */
  lemma IntsExample(env: Env, key: string, kind: IntKinds.IntKind, fallback: seq<int>)
    requires key in env && env[key] == "123,124"
    requires forall i | 0 <= i < |fallback| :: kind.Holds(fallback[i])
    ensures Ints(env, key, kind, fallback) == Value([123, 124])
  {
    SplitExamples();
    U64Examples();
    IntKinds.SmallHolds(kind, 123);
    IntKinds.SmallHolds(kind, 124);
    IntsTwoParts(env, key, kind, fallback, "123", "124", 123, 124);
  }

  /** "123,a" read as an integer list fails on the part "a", with a syntax
      error, and no list comes back. */
  lemma IntsFailureExample(env: Env, key: string, kind: IntKinds.IntKind, fallback: seq<int>)
    requires key in env && env[key] == "123,a"
    requires forall i | 0 <= i < |fallback| :: kind.Holds(fallback[i])
    ensures Ints(env, key, kind, fallback) == Failure(key, "123,a", Part(key, "a", Syntax))
  {
    SplitExamples();
    U64Examples();
    var parts := Split(env[key]);
    assert parts == ["123", "a"];
    assert U64(parts[0]).Ok? && U64(parts[1]).Err?;
    var i := IntsFailure(env, key, kind, fallback);
    assert i == 1;
  }

  /** "value1,value2" read as a string list is ["value1", "value2"]. */
  lemma StringsExample()
    ensures Strings(map["K" := "value1,value2"], "K", ["fallback"]) == Value(["value1", "value2"])
  {
    var parts := ["value1", "value2"];
    assert Join(parts) == "value1,value2";
    SplitJoin(parts);
  }

  /** An absent boolean gives the fallback true; "false" gives false. */
  lemma BoolScenarios()
    ensures Bool(map[], "K", true) == Value(true)
    ensures Bool(map["K" := "false"], "K", true) == Value(false)
  {
  }
}
