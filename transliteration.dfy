/** Character-for-character substitution between two parallel alphabets,
    the primitive the ULID codec uses in both directions. */
module Transliteration {

  /** Index of the first occurrence of c in a, or |a| when c does not occur. */
  function FirstIndex(a: seq<char>, c: char): (j: nat)
    ensures j <= |a|
    ensures j < |a| ==> a[j] == c
    ensures forall k :: 0 <= k < j ==> a[k] != c
  {
    if a == [] then 0
    else if a[0] == c then 0
    else 1 + FirstIndex(a[1..], c)
  }

  /** The image of one character: the alphabet2 symbol at the index of its
      first match in alphabet1, or the character itself when there is none. */
  function TransliterateChar(c: char, alphabet1: seq<char>, alphabet2: seq<char>): char
    requires |alphabet1| <= |alphabet2|
  {
    var j := FirstIndex(alphabet1, c);
    if j < |alphabet1| then alphabet2[j] else c
  }

  /** The string with every character replaced by its image. */
  function Transliterated(s: string, alphabet1: seq<char>, alphabet2: seq<char>): (r: string)
    requires |alphabet1| <= |alphabet2|
    ensures |r| == |s|
  {
    seq(|s|, i requires 0 <= i < |s| => TransliterateChar(s[i], alphabet1, alphabet2))
  }

  /** transliterate(string, alphabet1, alphabet2): copies the string into a
      char array and overwrites each element in place with its image. */
  method Transliterate(s: string, alphabet1: seq<char>, alphabet2: seq<char>) returns (r: string)
    requires |alphabet1| <= |alphabet2|
    ensures r == Transliterated(s, alphabet1, alphabet2)
  {
    var output := new char[|s|](k requires 0 <= k < |s| => s[k]);
    var i := 0;
    while i < output.Length
      invariant 0 <= i <= output.Length
      invariant output[..i] == Transliterated(s[..i], alphabet1, alphabet2)
      invariant output[i..] == s[i..]
    {
      var j := 0;
      while j < |alphabet1|
        invariant 0 <= j <= |alphabet1|
        invariant output[..i] == Transliterated(s[..i], alphabet1, alphabet2)
        invariant output[i..] == s[i..]
        invariant forall k :: 0 <= k < j ==> alphabet1[k] != s[i]
      {
        if output[i] == alphabet1[j] {
          output[i] := alphabet2[j];
          break;
        }
        j := j + 1;
      }
      assert output[i] == TransliterateChar(s[i], alphabet1, alphabet2);
      assert output[i + 1..] == s[i + 1..];
      i := i + 1;
    }
    r := output[..];
  }

  /** Transliteration distributes over concatenation. */
  lemma {:induction false} TransliteratedAppend(p: string, q: string, alphabet1: seq<char>, alphabet2: seq<char>)
    requires |alphabet1| <= |alphabet2|
    ensures Transliterated(p + q, alphabet1, alphabet2)
         == Transliterated(p, alphabet1, alphabet2) + Transliterated(q, alphabet1, alphabet2)
  {
  }

  /** Transliterating a piece of a string gives the same piece of its image. */
  lemma {:induction false} TransliteratedSlice(s: string, alphabet1: seq<char>, alphabet2: seq<char>, i: nat, j: nat)
    requires |alphabet1| <= |alphabet2| && i <= j <= |s|
    ensures Transliterated(s[i..j], alphabet1, alphabet2) == Transliterated(s, alphabet1, alphabet2)[i..j]
  {
  }

  /** What happens at position i: a character equal to alphabet1[j], and to
      no earlier symbol of alphabet1, becomes alphabet2[j]; a character that
      is not in alphabet1 stays as it is. */
  lemma {:induction false} TransliteratedAt(s: string, alphabet1: seq<char>, alphabet2: seq<char>, i: nat)
    requires |alphabet1| <= |alphabet2| && i < |s|
    ensures forall j :: 0 <= j < |alphabet1| && alphabet1[j] == s[i] && s[i] !in alphabet1[..j] ==>
      Transliterated(s, alphabet1, alphabet2)[i] == alphabet2[j]
    ensures s[i] !in alphabet1 ==> Transliterated(s, alphabet1, alphabet2)[i] == s[i]
  {
    var f := FirstIndex(alphabet1, s[i]);
    forall j | 0 <= j < |alphabet1| && alphabet1[j] == s[i] && s[i] !in alphabet1[..j]
      ensures f == j
    {
    }
    if s[i] !in alphabet1 {
      assert f == |alphabet1|;
    }
  }

  /** No symbol occurs twice. */
  ghost predicate Distinct(a: seq<char>) {
    forall i, j :: 0 <= i < j < |a| ==> a[i] != a[j]
  }

  /** In an alphabet without repeats, every symbol is found at its own index. */
  lemma {:induction false} FirstIndexOfDistinct(a: seq<char>, k: nat)
    requires Distinct(a) && k < |a|
    ensures FirstIndex(a, a[k]) == k
  {
  }

  /** Mapping alphabet1 to alphabet2 and back is the identity on strings over
      alphabet1, when the two alphabets have the same size and no repeats. */
  lemma {:induction false} TransliterateInverse(s: string, alphabet1: seq<char>, alphabet2: seq<char>)
    requires |alphabet1| == |alphabet2| && Distinct(alphabet1) && Distinct(alphabet2)
    requires forall i :: 0 <= i < |s| ==> s[i] in alphabet1
    ensures Transliterated(Transliterated(s, alphabet1, alphabet2), alphabet2, alphabet1) == s
  {
    var t := Transliterated(s, alphabet1, alphabet2);
    forall i | 0 <= i < |s|
      ensures Transliterated(t, alphabet2, alphabet1)[i] == s[i]
    {
      var k := FirstIndex(alphabet1, s[i]);
      FirstIndexOfDistinct(alphabet2, k);
    }
  }
}
