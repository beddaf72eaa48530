/** Text helpers: what the C string functions of the logger do to NUL-free text. */
module Strings {

  function Min(a: nat, b: nat): nat
  {
    if a <= b then a else b
  }

  /** The first `n` characters of `s`, or all of `s` when it is shorter: what a
      bounded copy (`strncpy`, `snprintf` into a buffer of `n + 1` chars) keeps. */
  function Prefix(s: string, n: nat): (r: string)
    ensures |r| == Min(|s|, n)
    ensures r == s[..|r|]
  {
    if |s| <= n then s else s[..n]
  }

  /** The text obtained by writing the segments one after another. */
  function Join(segments: seq<string>): string
  {
    if segments == [] then "" else segments[0] + Join(segments[1..])
  }

  lemma {:induction false} JoinAppend(a: seq<string>, b: seq<string>)
    ensures Join(a + b) == Join(a) + Join(b)
  {
    if a == [] {
      assert a + b == b;
    } else {
      assert (a + b)[1..] == a[1..] + b;
      JoinAppend(a[1..], b);
    }
  }

  /** Writing one more segment extends the text by exactly that segment. */
  lemma JoinSnoc(segments: seq<string>, s: string)
    ensures Join(segments + [s]) == Join(segments) + s
  {
    JoinAppend(segments, [s]);
    assert Join([s]) == s + Join([]);
  }

  lemma JoinPair(a: string, b: string)
    ensures Join([a]) == a
    ensures Join([a, b]) == a + b
  {
    assert Join([b]) == b + Join([]);
    assert [a, b][1..] == [b];
  }

  lemma Associative<T>(x: seq<T>, y: seq<T>, z: seq<T>)
    ensures (x + y) + z == x + (y + z)
  {
  }

  lemma Regroup(a: string, b: string, c: string, d: string)
    ensures (a + b) + c == a + (b + c)
    ensures ((a + b) + c) + d == a + (b + (c + d))
  {
  }

  /** Writing more segments whose text is known. */
  lemma JoinAfter(segments: seq<string>, more: seq<string>, text: string)
    requires Join(more) == text
    ensures Join(segments + more) == Join(segments) + text
  {
    JoinAppend(segments, more);
  }
}
