/**
 * Rust's `str::split` with a `char` pattern, collected into a vector: the
 * pieces of the text between occurrences of the separator, always one more
 * piece than there are separators (so `""` gives `[""]` and `"."` gives
 * `["", ""]`).
 */
module StrSplit {

  /** `s.split(sep).collect::<Vec<&str>>()`. */
  function Split(s: string, sep: char): (parts: seq<string>)
    ensures |parts| >= 1
    ensures forall i :: 0 <= i < |parts| ==> sep !in parts[i]
  {
    if s == [] then [[]]
    else
      var rest := Split(s[1..], sep);
      if s[0] == sep then [[]] + rest
      else [[s[0]] + rest[0]] + rest[1..]
  }

  /** The pieces put back together with the separator between them. */
  function Join(parts: seq<string>, sep: char): string
    requires |parts| >= 1
  {
    if |parts| == 1 then parts[0]
    else parts[0] + [sep] + Join(parts[1..], sep)
  }

  /** The number of pieces is one more than the number of separators. */
  lemma {:induction false} SplitCount(s: string, sep: char)
    ensures |Split(s, sep)| == multiset(s)[sep] + 1
  {
    if s != [] {
      SplitCount(s[1..], sep);
      assert s == [s[0]] + s[1..];
    }
  }

  /** Joining the pieces gives back the text. */
  lemma {:induction false} JoinSplit(s: string, sep: char)
    ensures Join(Split(s, sep), sep) == s
  {
    if s != [] {
      var rest := Split(s[1..], sep);
      JoinSplit(s[1..], sep);
      if s[0] == sep {
        assert Split(s, sep)[1..] == rest;
      } else if |rest| == 1 {
        assert s == [s[0]] + s[1..];
      } else {
        var parts := Split(s, sep);
        assert parts[1..] == rest[1..];
        assert Join(rest, sep) == rest[0] + [sep] + Join(rest[1..], sep);
        assert s == [s[0]] + s[1..];
      }
    }
  }

  /** Text free of the separator is a single piece. */
  lemma {:induction false} SplitFree(s: string, sep: char)
    requires sep !in s
    ensures Split(s, sep) == [s]
  {
    if s != [] {
      SplitFree(s[1..], sep);
      assert s == [s[0]] + s[1..];
    }
  }

  /** A separator-free prefix followed by a separator is the first piece. */
  lemma {:induction false} SplitAfterPrefix(a: string, sep: char, t: string)
    requires sep !in a
    ensures Split(a + [sep] + t, sep) == [a] + Split(t, sep)
  {
    if a != [] {
      assert (a + [sep] + t)[1..] == a[1..] + [sep] + t;
      SplitAfterPrefix(a[1..], sep, t);
      assert a == [a[0]] + a[1..];
    } else {
      assert (a + [sep] + t)[1..] == t;
    }
  }

  /** Two separator-free texts joined by one separator split back into themselves. */
  lemma SplitPair(a: string, sep: char, b: string)
    requires sep !in a && sep !in b
    ensures Split(a + [sep] + b, sep) == [a, b]
  {
    SplitAfterPrefix(a, sep, b);
    SplitFree(b, sep);
  }

  /** When a separator joins two texts and is the only one, neither text holds another. */
  lemma SingleSeparator(a: string, sep: char, b: string)
    requires multiset(a + [sep] + b)[sep] == 1
    ensures sep !in a && sep !in b
  {
    assert multiset(a + [sep] + b) == multiset(a) + multiset([sep]) + multiset(b);
  }

  /** A text splits into two pieces exactly when it is two separator-free
      texts joined by one separator. */
  lemma TwoPieces(s: string, sep: char)
    ensures |Split(s, sep)| == 2 <==> multiset(s)[sep] == 1
    ensures |Split(s, sep)| == 2 ==>
      var parts := Split(s, sep);
      s == parts[0] + [sep] + parts[1] && sep !in parts[0] && sep !in parts[1]
  {
    SplitCount(s, sep);
    if |Split(s, sep)| == 2 {
      var parts := Split(s, sep);
      JoinSplit(s, sep);
      assert Join(parts[1..], sep) == parts[1];
    }
  }
}
