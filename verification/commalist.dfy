/** Go's strings.Split(s, ",") as the list accessors use it: cut the text at
    every comma, with no trimming and no dropping of empty parts. */
module CommaList {

  /** The list separator. */
  const Sep: char := ','

  /** Number of separators in `s`. */
  function Commas(s: string): nat
    decreases |s|
  {
    if |s| == 0 then 0 else (if s[0] == Sep then 1 else 0) + Commas(s[1..])
  }

  /** The parts joined back together with a separator between neighbours. */
  function Join(parts: seq<string>): string
    requires |parts| > 0
    decreases |parts|
  {
    if |parts| == 1 then parts[0] else parts[0] + [Sep] + Join(parts[1..])
  }

  /** The text cut at every separator: one more part than there are commas,
      no part holding a comma, and joining the parts gives the text back. */
  function Split(s: string): (parts: seq<string>)
    ensures |parts| == Commas(s) + 1
    ensures forall i | 0 <= i < |parts| :: Sep !in parts[i]
    ensures Join(parts) == s
    decreases |s|
  {
    if |s| == 0 then [""]
    else
      var rest := Split(s[1..]);
      if s[0] == Sep then
        assert ([""] + rest)[1..] == rest;
        [""] + rest
      else
        var parts := [[s[0]] + rest[0]] + rest[1..];
        assert parts[1..] == rest[1..];
        assert s == [s[0]] + s[1..];
        parts
  }

  /** Splitting is the inverse of joining comma-free parts. */
  lemma {:induction false} SplitJoin(parts: seq<string>)
    requires |parts| > 0
    requires forall i | 0 <= i < |parts| :: Sep !in parts[i]
    ensures Split(Join(parts)) == parts
    decreases |parts|
  {
    if |parts| == 1 {
      SplitNoSep(parts[0]);
    } else {
      var tail := Join(parts[1..]);
      SplitJoin(parts[1..]);
      SplitAfterSep(tail);
      SplitPrefix(parts[0], [Sep] + tail);
      assert parts[0] + [Sep] + tail == parts[0] + ([Sep] + tail);
      assert parts[0] + "" == parts[0];
      assert [parts[0]] + parts[1..] == parts;
    }
  }

  /** A comma-free text is a single part. */
  lemma {:induction false} SplitNoSep(s: string)
    requires Sep !in s
    ensures Split(s) == [s]
    decreases |s|
  {
    if |s| > 0 {
      assert Sep !in s[1..];
      SplitNoSep(s[1..]);
      assert [s[0]] + s[1..] == s;
    }
  }

  /** A leading separator opens an empty first part. */
  lemma SplitAfterSep(t: string)
    ensures Split([Sep] + t) == [""] + Split(t)
  {
    assert ([Sep] + t)[1..] == t;
  }

  /** A comma-free prefix is glued onto the first part of what follows it. */
  lemma {:induction false} SplitPrefix(p: string, t: string)
    requires Sep !in p
    ensures Split(p + t) == [p + Split(t)[0]] + Split(t)[1..]
    decreases |p|
  {
    if |p| > 0 {
      assert Sep !in p[1..];
      SplitPrefix(p[1..], t);
      assert (p + t)[1..] == p[1..] + t;
      assert [p[0]] + (p[1..] + Split(t)[0]) == p + Split(t)[0];
    } else {
      assert p + t == t;
      assert p + Split(t)[0] == Split(t)[0];
      assert [Split(t)[0]] + Split(t)[1..] == Split(t);
    }
  }
}
