/**
 * The JavaScript string and array operations the exercises are written with:
 * `s.split("")`, `s.split(c)` for a one-character separator `c`, and
 * `parts.join(sep)`. A JavaScript string is a sequence of UTF-16 code units;
 * here a `char` stands for one code unit.
 */
module JsStrings {

  /** `parts.join(sep)`: the parts with `sep` between neighbours. */
  function Join(parts: seq<string>, sep: string): string
  {
    if |parts| == 0 then ""
    else if |parts| == 1 then parts[0]
    else parts[0] + sep + Join(parts[1..], sep)
  }

  /** Joining a word in front of at least one more. */
  lemma JoinCons(w: string, rest: seq<string>, sep: string)
    requires |rest| >= 1
    ensures Join([w] + rest, sep) == w + sep + Join(rest, sep)
  {
    assert ([w] + rest)[1..] == rest;
  }

  /** `s.split("")`: one piece per character (the empty string gives no pieces). */
  function SplitChars(s: string): (r: seq<string>)
    ensures |r| == |s|
    ensures forall i :: 0 <= i < |s| ==> r[i] == [s[i]]
  {
    if s == [] then [] else [[s[0]]] + SplitChars(s[1..])
  }

  /**
   * `s.split(sep)` for a one-character separator: the maximal runs between
   * separators, so there is always one piece more than there are separators.
   */
  function Split(s: string, sep: char): (r: seq<string>)
    ensures |r| >= 1
    ensures forall w :: w in r ==> sep !in w
  {
    if s == [] then [""]
    else
      var rest := Split(s[1..], sep);
      if s[0] == sep then [""] + rest else [[s[0]] + rest[0]] + rest[1..]
  }

  /** Joining the single characters again with `""` restores the string. */
  lemma {:induction false} JoinSplitChars(s: string)
    ensures Join(SplitChars(s), "") == s
  {
    if |s| > 1 {
      JoinSplitChars(s[1..]);
      assert SplitChars(s)[1..] == SplitChars(s[1..]);
    }
  }

  /** Joining the pieces of a split with the separator restores the string. */
  lemma {:induction false} JoinSplit(s: string, sep: char)
    ensures Join(Split(s, sep), [sep]) == s
  {
    if s != [] {
      JoinSplit(s[1..], sep);
      var rest := Split(s[1..], sep);
      if s[0] == sep {
        assert ([""] + rest)[1..] == rest;
      } else if |rest| > 1 {
        var parts := [[s[0]] + rest[0]] + rest[1..];
        assert parts[1..] == rest[1..];
        assert Join(rest, [sep]) == rest[0] + [sep] + Join(rest[1..], [sep]);
      }
    }
  }

  /** A separator-free prefix glues onto the first piece of what follows it. */
  lemma {:induction false} SplitPrefix(w: string, tail: string, sep: char)
    requires sep !in w
    ensures Split(w + tail, sep) == [w + Split(tail, sep)[0]] + Split(tail, sep)[1..]
  {
    if w == [] {
      assert w + tail == tail;
      assert w + Split(tail, sep)[0] == Split(tail, sep)[0];
      assert [Split(tail, sep)[0]] + Split(tail, sep)[1..] == Split(tail, sep);
    } else {
      SplitPrefix(w[1..], tail, sep);
      assert (w + tail)[1..] == w[1..] + tail;
      assert [w[0]] + (w[1..] + Split(tail, sep)[0]) == w + Split(tail, sep)[0];
    }
  }

  /**
   * Splitting a join of separator-free words gives the words back; together with
   * JoinSplit, split and join are inverse on non-empty word lists.
   */
  lemma {:induction false} SplitJoin(words: seq<string>, sep: char)
    requires |words| >= 1
    requires forall w :: w in words ==> sep !in w
    ensures Split(Join(words, [sep]), sep) == words
  {
    if |words| == 1 {
      SplitPrefix(words[0], "", sep);
      assert words[0] + "" == words[0];
    } else {
      SplitJoin(words[1..], sep);
      var tail := [sep] + Join(words[1..], [sep]);
      SplitPrefix(words[0], tail, sep);
      assert tail[0] == sep && tail[1..] == Join(words[1..], [sep]);
      assert Split(tail, sep) == [""] + words[1..];
      assert Join(words, [sep]) == words[0] + tail;
      assert words[0] + "" == words[0];
      assert words == [words[0]] + words[1..];
    }
  }
}
