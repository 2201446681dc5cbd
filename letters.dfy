/** Case folding, letter counting and bit emission over a character sequence.
    The program reads its characters from a file; here the text is a
    parameter, and the loops run over it. */
module Letters {

  /** Size of the alphabet: the lowercase letters 'a'..'z'. */
  const ALPHABET: int := 26

  predicate IsUpper(c: char)
  {
    'A' <= c <= 'Z'
  }

  predicate IsLower(c: char)
  {
    'a' <= c <= 'z'
  }

  /** Upper-case letters go to the lower-case letter at the same alphabet
      position; every other character is left alone. */
  function ToLowerFast(c: char): (r: char)
    ensures IsUpper(c) ==> IsLower(r) && r as int - 'a' as int == c as int - 'A' as int
    ensures !IsUpper(c) ==> r == c
  {
    if IsUpper(c) then (c as int - 'A' as int + 'a' as int) as char else c
  }

  /** Folding yields a lower-case letter exactly for the letters of either case,
      and folding twice is folding once. */
  lemma ToLowerFastFoldsLetters(c: char)
    ensures IsLower(ToLowerFast(c)) <==> IsUpper(c) || IsLower(c)
    ensures ToLowerFast(ToLowerFast(c)) == ToLowerFast(c)
  {
  }

  /** The i-th lower-case letter. */
  function Letter(i: int): (c: char)
    requires 0 <= i < ALPHABET
    ensures IsLower(c)
  {
    ('a' as int + i) as char
  }

  /** Position of a lower-case letter in the alphabet. */
  function LetterIndex(c: char): (i: int)
    requires IsLower(c)
    ensures 0 <= i < ALPHABET && Letter(i) == c
  {
    c as int - 'a' as int
  }

  /** IsUpper and IsLower never hold together, and IsLower holds exactly for
      the 26 letters of the alphabet. */
  lemma CaseClasses(c: char)
    ensures !(IsUpper(c) && IsLower(c))
    ensures IsLower(c) <==> exists i :: 0 <= i < ALPHABET && Letter(i) == c
  {
    if IsLower(c) {
      var i := LetterIndex(c);
      assert Letter(i) == c;
    }
  }

  /** Letter and LetterIndex are inverse bijections between 0..25 and 'a'..'z'. */
  lemma LetterIndexOfLetter(i: int)
    requires 0 <= i < ALPHABET
    ensures LetterIndex(Letter(i)) == i
  {
  }

  /** The text with every character case-folded. */
  function Folded(text: seq<char>): (r: seq<char>)
    ensures |r| == |text|
    ensures forall k :: 0 <= k < |text| ==> r[k] == ToLowerFast(text[k])
  {
    seq(|text|, k requires 0 <= k < |text| => ToLowerFast(text[k]))
  }

  /** How many characters of the text fold to the i-th letter. */
  ghost function Occurrences(text: seq<char>, i: int): nat
    requires 0 <= i < ALPHABET
  {
    multiset(Folded(text))[Letter(i)]
  }

  lemma OccurrencesSnoc(text: seq<char>, c: char, i: int)
    requires 0 <= i < ALPHABET
    ensures Occurrences(text + [c], i)
         == Occurrences(text, i) + (if ToLowerFast(c) == Letter(i) then 1 else 0)
  {
    assert Folded(text + [c]) == Folded(text) + [ToLowerFast(c)];
  }

  /** The counting loop: after the whole text, slot i holds the number of
      characters that fold to the i-th letter; characters that do not fold to
      a lower-case letter are not counted anywhere. */
  method BuildFrequency(text: seq<char>) returns (freq: seq<int>)
    ensures |freq| == ALPHABET
    ensures forall i :: 0 <= i < ALPHABET ==> freq[i] == Occurrences(text, i)
  {
    freq := seq(ALPHABET, _ => 0);
    for k := 0 to |text|
      invariant |freq| == ALPHABET
      invariant forall i :: 0 <= i < ALPHABET ==> freq[i] == Occurrences(text[..k], i)
    {
      var c := ToLowerFast(text[k]);
      if IsLower(c) {
        var idx := LetterIndex(c);
        freq := freq[idx := freq[idx] + 1];
      }
      assert text[..k + 1] == text[..k] + [text[k]];
      forall i | 0 <= i < ALPHABET
        ensures freq[i] == Occurrences(text[..k + 1], i)
      {
        OccurrencesSnoc(text[..k], text[k], i);
      }
    }
    assert text[..|text|] == text;
  }

  /** The bits one character contributes: the code of its folded letter, or
      nothing for a character that does not fold to a letter. */
  function CharBits(codes: seq<string>, c: char): string
    requires |codes| == ALPHABET
  {
    var l := ToLowerFast(c);
    if IsLower(l) then codes[LetterIndex(l)] else []
  }

  /** The encoded message: the character codes in text order. */
  function Encoded(codes: seq<string>, text: seq<char>): string
    requires |codes| == ALPHABET
  {
    if text == [] then [] else Encoded(codes, text[..|text| - 1]) + CharBits(codes, text[|text| - 1])
  }

  /** The emission loop, with the bits collected instead of written out. */
  method EncodeMessage(codes: seq<string>, text: seq<char>) returns (bits: string)
    requires |codes| == ALPHABET
    ensures bits == Encoded(codes, text)
  {
    bits := [];
    for k := 0 to |text|
      invariant bits == Encoded(codes, text[..k])
    {
      var c := ToLowerFast(text[k]);
      if IsLower(c) {
        var bitstr := codes[LetterIndex(c)];
        if bitstr != [] {
          bits := bits + bitstr;
        }
      }
      assert text[..k + 1][..k] == text[..k];
    }
    assert text[..|text|] == text;
  }

  /** Sum over the first n letters of (occurrences in text) times (code length). */
  ghost function WeightedLength(text: seq<char>, codes: seq<string>, n: int): int
    requires |codes| == ALPHABET && 0 <= n <= ALPHABET
  {
    if n == 0 then 0
    else WeightedLength(text, codes, n - 1) + Occurrences(text, n - 1) * |codes[n - 1]|
  }

  lemma {:induction false} WeightedLengthSnoc(text: seq<char>, c: char, codes: seq<string>, n: int)
    requires |codes| == ALPHABET && 0 <= n <= ALPHABET
    ensures WeightedLength(text + [c], codes, n)
         == WeightedLength(text, codes, n)
            + (if IsLower(ToLowerFast(c)) && LetterIndex(ToLowerFast(c)) < n
               then |codes[LetterIndex(ToLowerFast(c))]| else 0)
  {
    if n > 0 {
      WeightedLengthSnoc(text, c, codes, n - 1);
      OccurrencesSnoc(text, c, n - 1);
      var o := Occurrences(text, n - 1);
      var len := |codes[n - 1]|;
      if ToLowerFast(c) == Letter(n - 1) {
        LetterIndexOfLetter(n - 1);
        assert (o + 1) * len == o * len + len;
      } else if IsLower(ToLowerFast(c)) {
        assert LetterIndex(ToLowerFast(c)) != n - 1;
      }
    }
  }

  /** The length of the encoded message is the sum, over the letters, of each
      letter's count times the length of its code. */
  lemma {:induction false} EncodedLength(codes: seq<string>, text: seq<char>)
    requires |codes| == ALPHABET
    ensures |Encoded(codes, text)| == WeightedLength(text, codes, ALPHABET)
  {
    if text == [] {
      ZeroWeightedLength(codes, ALPHABET);
    } else {
      var t := text[..|text| - 1];
      var c := text[|text| - 1];
      assert text == t + [c];
      EncodedLength(codes, t);
      WeightedLengthSnoc(t, c, codes, ALPHABET);
    }
  }

  lemma {:induction false} ZeroWeightedLength(codes: seq<string>, n: int)
    requires |codes| == ALPHABET && 0 <= n <= ALPHABET
    ensures WeightedLength([], codes, n) == 0
  {
    if n > 0 {
      ZeroWeightedLength(codes, n - 1);
      assert Folded([]) == [];
    }
  }

  /** Encoding does not depend on letter case. */
  lemma {:induction false} EncodedIgnoresCase(codes: seq<string>, text: seq<char>)
    requires |codes| == ALPHABET
    ensures Encoded(codes, Folded(text)) == Encoded(codes, text)
  {
    if text != [] {
      var t := text[..|text| - 1];
      assert Folded(text)[..|text| - 1] == Folded(t);
      EncodedIgnoresCase(codes, t);
      ToLowerFastFoldsLetters(text[|text| - 1]);
    }
  }
}
