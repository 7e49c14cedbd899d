/**
 * The string-reversal exercise: three implementations of `reverse(str)`, each
 * of which returns the characters of `str` in the opposite order.
 */
module ReverseString {
  import opened Sequences
  import opened JsStrings

  /**
   * The first variant: split into characters, push them onto a new array from
   * the last index down to 0, then join with `""`.
   */
  method ReverseByPush(str: string) returns (r: string)
    ensures r == Reversed(str)
  {
    var arr := SplitChars(str);
    var reverseArr: seq<string> := [];
    var i := |arr| - 1;
    while i >= 0
      invariant -1 <= i < |arr|
      invariant reverseArr == Reversed(arr[i + 1..])
    {
      ReversedCons(arr[i], arr[i + 1..]);
      assert arr[i..] == [arr[i]] + arr[i + 1..];
      reverseArr := reverseArr + [arr[i]];
      i := i - 1;
    }
    assert arr[0..] == arr;
    r := Join(reverseArr, "");
    JoinReversedChars(str);
  }

  /** The second variant: `str.split("").reverse().join("")`. */
  function ReverseBySplitJoin(str: string): (r: string)
    ensures r == Reversed(str)
  {
    JoinReversedChars(str);
    Join(Reversed(SplitChars(str)), "")
  }

  /**
   * The third variant: append `str[i]` to an initially empty string for `i`
   * from the last index down to 0.
   */
  method ReverseByConcat(str: string) returns (reversed: string)
    ensures reversed == Reversed(str)
  {
    reversed := "";
    var i := |str| - 1;
    while i >= 0
      invariant -1 <= i < |str|
      invariant reversed == Reversed(str[i + 1..])
    {
      ReversedCons(str[i], str[i + 1..]);
      assert str[i..] == [str[i]] + str[i + 1..];
      reversed := reversed + [str[i]];
      i := i - 1;
    }
    assert str[0..] == str;
  }

  /** Reversing the one-character pieces and joining them reverses the string. */
  lemma JoinReversedChars(s: string)
    ensures Join(Reversed(SplitChars(s)), "") == Reversed(s)
  {
    var pieces := SplitChars(s);
    forall k | 0 <= k < |s|
      ensures Reversed(pieces)[k] == SplitChars(Reversed(s))[k]
    {
      ReversedAt(pieces, k);
      ReversedAt(s, k);
    }
    assert Reversed(pieces) == SplitChars(Reversed(s));
    JoinSplitChars(Reversed(s));
  }

  /** The documented example: `reverse('Hello, world!')` is `'!dlrow ,olleH'`. */
  lemma HelloWorldExample()
    ensures Reversed("Hello, world!") == "!dlrow ,olleH"
  {
    var s, r := "Hello, world!", "!dlrow ,olleH";
    assert forall k :: 0 <= k < |s| ==> r[k] == s[|s| - 1 - k];
    ReversedFromMirror(s, r);
  }
}
