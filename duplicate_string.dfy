/**
 * The duplicate-word exercise: `removeDuplicates(str)` splits `str` on `" "`,
 * keeps the first occurrence of each word (exact, case-sensitive equality) and
 * joins the kept words with `" "`. Three variants are modelled: a nested loop
 * with an `itemFound` flag, a loop using `includes`, and a `Set` spread.
 */
module DuplicateString {
  import opened JsStrings

  /** No word occurs twice. */
  predicate Distinct<T(==)>(words: seq<T>)
  {
    forall i, j :: 0 <= i < j < |words| ==> words[i] != words[j]
  }

  /** The index of the first occurrence of `w` in `words`. */
  function FirstIndex<T(==)>(words: seq<T>, w: T): (k: nat)
    requires w in words
    ensures k < |words| && words[k] == w
    ensures w !in words[..k]
  {
    if words[0] == w then 0
    else
      var k := 1 + FirstIndex(words[1..], w);
      assert words[..k] == [words[0]] + words[1..][..k - 1];
      k
  }

  /** The words of `words` that do not occur earlier in `words`, in their order. */
  function FirstOccurrences<T(==, !new)>(words: seq<T>): (r: seq<T>)
    ensures forall w :: w in r <==> w in words
    ensures Distinct(r)
  {
    if words == [] then []
    else
      var prefix, w := words[..|words| - 1], words[|words| - 1];
      assert words == prefix + [w];
      FirstOccurrences(prefix) + if w in prefix then [] else [w]
  }

  /** Appending a word keeps it exactly when it is new. */
  lemma FirstOccurrencesSnoc<T(!new)>(prefix: seq<T>, w: T)
    ensures FirstOccurrences(prefix + [w]) == FirstOccurrences(prefix) + if w in prefix then [] else [w]
  {
    assert (prefix + [w])[..|prefix|] == prefix;
  }

  /** What every variant returns: the first occurrences of the words, joined by spaces. */
  function RemoveDuplicates(str: string): string
  {
    Join(FirstOccurrences(Split(str, ' ')), " ")
  }

  /** The first index of a word already present does not change when a word is appended. */
  lemma FirstIndexSnoc<T>(prefix: seq<T>, x: T, w: T)
    requires w in prefix + [x]
    ensures w in prefix ==> FirstIndex(prefix + [x], w) == FirstIndex(prefix, w)
    ensures w !in prefix ==> FirstIndex(prefix + [x], w) == |prefix|
  {
    var k := FirstIndex(prefix + [x], w);
    assert (prefix + [x])[..k] == if k <= |prefix| then prefix[..k] else prefix + [x];
    if w in prefix {
      var j := FirstIndex(prefix, w);
      assert (prefix + [x])[..j] == prefix[..j];
    }
  }

  /**
   * The kept words come in the order of their first occurrences; with
   * `FirstIndex` as the index map, they are a subsequence of the input.
   */
  lemma {:induction false} FirstOccurrencesInOrder<T(!new)>(words: seq<T>)
    ensures forall i, j :: 0 <= i < j < |FirstOccurrences(words)| ==>
      FirstIndex(words, FirstOccurrences(words)[i]) < FirstIndex(words, FirstOccurrences(words)[j])
  {
    if words != [] {
      var prefix, x := words[..|words| - 1], words[|words| - 1];
      assert words == prefix + [x];
      FirstOccurrencesInOrder(prefix);
      var p := FirstOccurrences(prefix);
      var r := FirstOccurrences(words);
      assert r == p + if x in prefix then [] else [x];
      forall i, j | 0 <= i < j < |r|
        ensures FirstIndex(words, r[i]) < FirstIndex(words, r[j])
      {
        assert r[i] in p;
        FirstIndexSnoc(prefix, x, r[i]);
        FirstIndexSnoc(prefix, x, r[j]);
        if j < |p| {
          assert r[j] in p;
        }
      }
    }
  }

  /** Words that are already distinct are all kept. */
  lemma {:induction false} FirstOccurrencesOfDistinct<T(!new)>(words: seq<T>)
    requires Distinct(words)
    ensures FirstOccurrences(words) == words
  {
    if words != [] {
      var prefix, x := words[..|words| - 1], words[|words| - 1];
      assert words == prefix + [x];
      assert Distinct(prefix);
      FirstOccurrencesOfDistinct(prefix);
    }
  }

  /** The words of the result are the first occurrences of the words of the input. */
  lemma ResultWords(str: string)
    ensures Split(RemoveDuplicates(str), ' ') == FirstOccurrences(Split(str, ' '))
  {
    var words := Split(str, ' ');
    var kept := FirstOccurrences(words);
    assert words[0] in kept;
    SplitJoin(kept, ' ');
  }

  /** A string whose words are already distinct comes back unchanged. */
  lemma DistinctUnchanged(str: string)
    requires Distinct(Split(str, ' '))
    ensures RemoveDuplicates(str) == str
  {
    FirstOccurrencesOfDistinct(Split(str, ' '));
    JoinSplit(str, ' ');
  }

  /** Removing duplicates a second time changes nothing. */
  lemma RemoveDuplicatesIdempotent(str: string)
    ensures RemoveDuplicates(RemoveDuplicates(str)) == RemoveDuplicates(str)
  {
    ResultWords(str);
    DistinctUnchanged(RemoveDuplicates(str));
  }

  /** The documented example. */
  lemma ExampleRemoveDuplicates()
    ensures RemoveDuplicates("This is is a test test string") == "This is a test string"
  {
    var words := ["This", "is", "is", "a", "test", "test", "string"];
    ExampleInputJoin();
    ExampleOutputJoin();
    SplitJoin(words, ' ');
    ExampleFirstOccurrences();
  }

  /** The words of the example input, joined. */
  lemma ExampleInputJoin()
    ensures Join(["This", "is", "is", "a", "test", "test", "string"], " ") == "This is is a test test string"
  {
    JoinSeven("This", "is", "is", "a", "test", "test", "string", " ");
  }

  /** The words of the example output, joined. */
  lemma ExampleOutputJoin()
    ensures Join(["This", "is", "a", "test", "string"], " ") == "This is a test string"
  {
    JoinFive("This", "is", "a", "test", "string", " ");
  }

  /** Seven words joined: the words with the separator between neighbours. */
  lemma JoinSeven(a: string, b: string, c: string, d: string, e: string, f: string, g: string, sep: string)
    ensures Join([a, b, c, d, e, f, g], sep) == a + sep + b + sep + c + sep + d + sep + e + sep + f + sep + g
  {
    JoinFive(c, d, e, f, g, sep);
    JoinCons(b, [c, d, e, f, g], sep);
    assert [b, c, d, e, f, g] == [b] + [c, d, e, f, g];
    JoinCons(a, [b, c, d, e, f, g], sep);
    assert [a, b, c, d, e, f, g] == [a] + [b, c, d, e, f, g];
  }

  /** Five words joined: the words with the separator between neighbours. */
  lemma JoinFive(a: string, b: string, c: string, d: string, e: string, sep: string)
    ensures Join([a, b, c, d, e], sep) == a + sep + b + sep + c + sep + d + sep + e
  {
    JoinCons(d, [e], sep);
    assert [d, e] == [d] + [e];
    JoinCons(c, [d, e], sep);
    assert [c, d, e] == [c] + [d, e];
    JoinCons(b, [c, d, e], sep);
    assert [b, c, d, e] == [b] + [c, d, e];
    JoinCons(a, [b, c, d, e], sep);
    assert [a, b, c, d, e] == [a] + [b, c, d, e];
  }

  /** A word not seen before is kept, after the words kept so far. */
  lemma FirstOccurrencesKeep<T(!new)>(prefix: seq<T>, w: T, kept: seq<T>)
    requires FirstOccurrences(prefix) == kept && w !in prefix
    ensures FirstOccurrences(prefix + [w]) == kept + [w]
  {
    FirstOccurrencesSnoc(prefix, w);
  }

  /** A word seen before is dropped. */
  lemma FirstOccurrencesSkip<T(!new)>(prefix: seq<T>, w: T, kept: seq<T>)
    requires FirstOccurrences(prefix) == kept && w in prefix
    ensures FirstOccurrences(prefix + [w]) == kept
  {
    FirstOccurrencesSnoc(prefix, w);
  }

  /** The shape of the example: repeated neighbours collapse to one, for any distinct words. */
  lemma RepeatedNeighbours<T(!new)>(a: T, b: T, c: T, d: T, e: T)
    requires a != b && a != c && a != d && a != e && b != c && b != d && b != e && c != d && c != e && d != e
    ensures FirstOccurrences([a, b, b, c, d, d, e]) == [a, b, c, d, e]
  {
    assert [a] == [] + [a];
    FirstOccurrencesKeep([], a, []);
    assert [a, b] == [a] + [b];
    FirstOccurrencesKeep([a], b, [a]);
    assert [a, b, b] == [a, b] + [b];
    FirstOccurrencesSkip([a, b], b, [a, b]);
    assert [a, b, b, c] == [a, b, b] + [c] && [a, b, c] == [a, b] + [c];
    FirstOccurrencesKeep([a, b, b], c, [a, b]);
    assert [a, b, b, c, d] == [a, b, b, c] + [d] && [a, b, c, d] == [a, b, c] + [d];
    FirstOccurrencesKeep([a, b, b, c], d, [a, b, c]);
    assert [a, b, b, c, d, d] == [a, b, b, c, d] + [d];
    FirstOccurrencesSkip([a, b, b, c, d], d, [a, b, c, d]);
    assert [a, b, b, c, d, d, e] == [a, b, b, c, d, d] + [e] && [a, b, c, d, e] == [a, b, c, d] + [e];
    FirstOccurrencesKeep([a, b, b, c, d, d], e, [a, b, c, d]);
  }

  /** The first occurrences in the example. */
  lemma ExampleFirstOccurrences()
    ensures FirstOccurrences(["This", "is", "is", "a", "test", "test", "string"]) == ["This", "is", "a", "test", "string"]
  {
    RepeatedNeighbours("This", "is", "a", "test", "string");
  }

  /** The first variant: for each word, scan the kept words and set `itemFound` on a match. */
  method RemoveDuplicatesScan(str: string) returns (r: string)
    ensures r == RemoveDuplicates(str)
  {
    var arr := Split(str, ' ');
    var newArr: seq<string> := [];
    for strIndex := 0 to |arr|
      invariant newArr == FirstOccurrences(arr[..strIndex])
    {
      var itemFound := false;
      for j := 0 to |newArr|
        invariant itemFound <==> arr[strIndex] in newArr[..j]
      {
        if newArr[j] == arr[strIndex] {
          itemFound := true;
        }
        assert newArr[..j + 1] == newArr[..j] + [newArr[j]];
      }
      assert newArr[..|newArr|] == newArr;
      if !itemFound {
        newArr := newArr + [arr[strIndex]];
      }
      assert arr[..strIndex + 1][..strIndex] == arr[..strIndex];
    }
    assert arr[..|arr|] == arr;
    r := Join(newArr, " ");
  }

  /** The second variant: keep a word when `newArr.includes(word)` is false. */
  method RemoveDuplicatesIncludes(str: string) returns (r: string)
    ensures r == RemoveDuplicates(str)
  {
    var arr := Split(str, ' ');
    var newArr: seq<string> := [];
    for strIndex := 0 to |arr|
      invariant newArr == FirstOccurrences(arr[..strIndex])
    {
      if arr[strIndex] !in newArr {
        newArr := newArr + [arr[strIndex]];
      }
      assert arr[..strIndex + 1][..strIndex] == arr[..strIndex];
    }
    assert arr[..|arr|] == arr;
    r := Join(newArr, " ");
  }

  /** A JavaScript `Set` of strings: its members in insertion order. */
  datatype JsSet = JsSet(members: seq<string>)

  /** `set.add(w)`: a new member goes last; a present member stays where it is. */
  function Add(s: JsSet, w: string): JsSet
  {
    if w in s.members then s else JsSet(s.members + [w])
  }

  /** `new Set(arr)`: the elements of `arr` added in order to an empty set. */
  function SetOf(arr: seq<string>): JsSet
  {
    if arr == [] then JsSet([]) else Add(SetOf(arr[..|arr| - 1]), arr[|arr| - 1])
  }

  /** A set built from an array holds the first occurrences, in insertion order. */
  lemma {:induction false} SetOfMembers(arr: seq<string>)
    ensures SetOf(arr).members == FirstOccurrences(arr)
  {
    if arr != [] {
      SetOfMembers(arr[..|arr| - 1]);
    }
  }

  /** The third variant: `[...new Set(str.split(" "))].join(" ")`. */
  function RemoveDuplicatesBySet(str: string): (r: string)
    ensures r == RemoveDuplicates(str)
  {
    SetOfMembers(Split(str, ' '));
    Join(SetOf(Split(str, ' ')).members, " ")
  }
}
