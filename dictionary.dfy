/**
 * Looking a word up in the 2048-word dictionary (dict_search in
 * skey_read.c): the word is upper-cased, any character that is not an
 * ASCII letter rejects it, and the table is searched from the front.
 */
module Dictionary {

  /** The number of words in the table, the 2^11 values of an 11-bit chunk. */
  const DictSize: nat := 2048

  /** dict_search's result for a word with a character that is not a letter. */
  const NotALetter: int := -2

  /** dict_search's result for a word of letters that is not in the table. */
  const NotFound: int := -1

  /**
   * A character the copying loop of dict_search goes on past: with a signed
   * char, `word[i] > 0` holds for the ASCII characters 1 .. 127 only, and
   * the loop stops at the terminating NUL or at any byte 128 .. 255.
   */
  predicate Continues(c: char)
  {
    0 < c as int < 128
  }

  /** The part of a word the copying loop reads: everything before the first character that stops it. */
  function Visible(word: string): (r: string)
    ensures |r| <= |word| && r == word[..|r|]
    ensures forall i :: 0 <= i < |r| ==> Continues(r[i])
    ensures |r| < |word| ==> !Continues(word[|r|])
  {
    if word == [] || !Continues(word[0]) then [] else [word[0]] + Visible(word[1..])
  }

  predicate IsLower(c: char)
  {
    'a' <= c <= 'z'
  }

  predicate IsUpper(c: char)
  {
    'A' <= c <= 'Z'
  }

  predicate IsLetter(c: char)
  {
    IsLower(c) || IsUpper(c)
  }

  predicate AllLetters(word: string)
  {
    forall i :: 0 <= i < |word| ==> IsLetter(word[i])
  }

  /** The upper-case form of a character; every other character is kept. */
  function Upper(c: char): (r: char)
    ensures IsLetter(c) ==> IsUpper(r)
    ensures IsUpper(c) || !IsLetter(c) ==> r == c
  {
    if IsLower(c) then (c as int + ('A' as int - 'a' as int)) as char else c
  }

  /** The word with every letter upper-cased. */
  function UpperWord(word: string): (r: string)
    ensures |r| == |word|
    ensures forall i :: 0 <= i < |word| ==> r[i] == Upper(word[i])
  {
    seq(|word|, i requires 0 <= i < |word| => Upper(word[i]))
  }

  /** The first position at or after `from` where u is in the table, or NotFound. */
  function FirstMatch(dict: seq<string>, u: string, from: nat): (r: int)
    requires from <= |dict|
    ensures r == NotFound || (from <= r < |dict| && dict[r] == u)
    decreases |dict| - from
  {
    if from == |dict| then NotFound
    else if dict[from] == u then from
    else FirstMatch(dict, u, from + 1)
  }

  /** FirstMatch finds the first occurrence of u in dict[from..], and NotFound when it has none. */
  lemma {:induction false} FirstMatchIs(dict: seq<string>, u: string, from: nat)
    requires from <= |dict|
    ensures var r := FirstMatch(dict, u, from);
      (r == NotFound <==> forall j :: from <= j < |dict| ==> dict[j] != u) &&
      (r != NotFound ==>
        from <= r < |dict| && dict[r] == u && forall j :: from <= j < r ==> dict[j] != u)
    decreases |dict| - from
  {
    if from < |dict| && dict[from] != u {
      FirstMatchIs(dict, u, from + 1);
    }
  }

  /** What dict_search returns for a word. */
  function DictIndex(dict: seq<string>, word: string): int
    requires |dict| == DictSize
  {
    var v := Visible(word);
    if !AllLetters(v) then NotALetter else FirstMatch(dict, UpperWord(v), 0)
  }

  /**
   * The result is NotALetter exactly when a character before the stopping
   * one is not a letter, otherwise the first index of the upper-cased
   * letters, or NotFound exactly when no entry equals them.
   */
  lemma DictIndexIs(dict: seq<string>, word: string)
    requires |dict| == DictSize
    ensures var r, v := DictIndex(dict, word), Visible(word);
      (r == NotALetter <==> exists i :: 0 <= i < |v| && !IsLetter(v[i])) &&
      (r == NotFound <==> AllLetters(v) && forall j :: 0 <= j < DictSize ==> dict[j] != UpperWord(v)) &&
      (r >= 0 ==>
        AllLetters(v) && r < DictSize && dict[r] == UpperWord(v) &&
        forall j :: 0 <= j < r ==> dict[j] != UpperWord(v))
  {
    var v := Visible(word);
    FirstMatchIs(dict, UpperWord(v), 0);
    if AllLetters(v) {
      assert DictIndex(dict, word) == FirstMatch(dict, UpperWord(v), 0);
      assert DictIndex(dict, word) != NotALetter;
    } else {
      var i :| 0 <= i < |v| && !IsLetter(v[i]);
      assert !AllLetters(v);
      assert DictIndex(dict, word) == NotALetter;
      assert DictIndex(dict, word) != NotFound && DictIndex(dict, word) < 0;
    }
  }

  /** A word of ASCII characters is read whole. */
  lemma {:induction false} VisibleAscii(word: string)
    requires forall i :: 0 <= i < |word| ==> Continues(word[i])
    ensures Visible(word) == word
  {
    if word != [] {
      VisibleAscii(word[1..]);
    }
  }

  /**
   * Only the characters before the stopping one count: whatever follows a
   * byte 128 .. 255 is never looked at.
   */
  lemma CutAtStop(dict: seq<string>, word: string, rest: string)
    requires |dict| == DictSize && |Visible(word)| < |word|
    ensures DictIndex(dict, word[..|Visible(word)| + 1] + rest) == DictIndex(dict, word)
  {
    var v := Visible(word);
    var n := |v|;
    var w := word[..n + 1] + rest;
    assert w[..n] == v && w[n] == word[n];
    assert forall i :: 0 <= i < n ==> w[i] == v[i];
    StopsAt(w, n);
    SameVisible(dict, w, word);
  }

  /** Words the copying loop reads alike are looked up alike. */
  lemma SameVisible(dict: seq<string>, a: string, b: string)
    requires |dict| == DictSize && Visible(a) == Visible(b)
    ensures DictIndex(dict, a) == DictIndex(dict, b)
  {
  }

  /** The copying loop stops at the first character that stops it. */
  lemma {:induction false} StopsAt(word: string, n: nat)
    requires n < |word| && !Continues(word[n]) && forall i :: 0 <= i < n ==> Continues(word[i])
    ensures Visible(word) == word[..n]
    decreases n
  {
    if n > 0 {
      StopsAt(word[1..], n - 1);
      assert word[1..][..n - 1] == word[1..n];
    }
  }

  /** The result is NotALetter, NotFound or an index into the table. */
  lemma DictIndexRange(dict: seq<string>, word: string)
    requires |dict| == DictSize
    ensures var r := DictIndex(dict, word);
      r == NotALetter || r == NotFound || 0 <= r < DictSize
  {
    var v := Visible(word);
    FirstMatchIs(dict, UpperWord(v), 0);
    if AllLetters(v) {
      assert DictIndex(dict, word) == FirstMatch(dict, UpperWord(v), 0);
    }
  }

  /** Two words that differ only in the case of their letters. */
  predicate SameUpToCase(a: string, b: string)
  {
    |a| == |b| && forall i :: 0 <= i < |a| ==> Upper(a[i]) == Upper(b[i])
  }

  /** Every casing of a word is looked up alike. */
  lemma CaseInsensitive(dict: seq<string>, a: string, b: string)
    requires |dict| == DictSize && SameUpToCase(a, b)
    ensures DictIndex(dict, a) == DictIndex(dict, b)
  {
    forall i | 0 <= i < |a|
      ensures (IsLetter(a[i]) <==> IsLetter(b[i])) && (Continues(a[i]) <==> Continues(b[i]))
    {
      LetterUpToCase(a[i], b[i]);
    }
    VisibleUpToCase(a, b);
    var va, vb := Visible(a), Visible(b);
    assert UpperWord(va) == UpperWord(vb);
  }

  /** Two casings of a word stop at the same place. */
  lemma {:induction false} VisibleUpToCase(a: string, b: string)
    requires SameUpToCase(a, b)
    requires forall i :: 0 <= i < |a| ==> (Continues(a[i]) <==> Continues(b[i]))
    ensures |Visible(a)| == |Visible(b)| && SameUpToCase(Visible(a), Visible(b))
  {
    if a != [] && Continues(a[0]) {
      VisibleUpToCase(a[1..], b[1..]);
    }
  }

  /**
   * A letter and a character with the same upper-case form are both
   * letters, and two non-letters with the same form are the same.
   */
  lemma LetterUpToCase(c: char, d: char)
    requires Upper(c) == Upper(d)
    ensures IsLetter(c) <==> IsLetter(d)
    ensures !IsLetter(c) ==> c == d
  {
  }

  /** A table of 2048 distinct words, each spelled in upper-case letters only. */
  predicate IsTable(dict: seq<string>)
  {
    |dict| == DictSize &&
    (forall i :: 0 <= i < |dict| ==> forall k :: 0 <= k < |dict[i]| ==> IsUpper(dict[i][k])) &&
    (forall i, j :: 0 <= i < j < |dict| ==> dict[i] != dict[j])
  }

  /** Looking up the table's own word i, in any casing, gives i back. */
  lemma LookupOfEntry(dict: seq<string>, i: nat, word: string)
    requires IsTable(dict) && i < DictSize && SameUpToCase(word, dict[i])
    ensures DictIndex(dict, word) == i
  {
    var e := dict[i];
    VisibleAscii(e);
    assert UpperWord(e) == e;
    assert AllLetters(e);
    CaseInsensitive(dict, word, e);
    FirstMatchIs(dict, e, 0);
    assert FirstMatch(dict, e, 0) != NotFound;
  }

  /**
   * dict_search: copies the word, up to the character that stops the loop,
   * upper-casing every lower-case letter and returning NotALetter at the
   * first character that is neither; then compares the copy with each table
   * entry in turn. The end of the sequence stands for the terminating NUL.
   */
  method DictSearch(dict: seq<string>, word: string) returns (r: int)
    requires |dict| == DictSize
    ensures r == DictIndex(dict, word)
  {
    var copy := new char[|word| + 1];
    var i := 0;
    while i < |word| && Continues(word[i])
      invariant 0 <= i <= |Visible(word)|
      invariant forall j :: 0 <= j < i ==> IsLetter(word[j]) && copy[j] == Upper(word[j])
    {
      copy[i] := word[i];
      if word[i] <= 'z' && word[i] >= 'a' {
        copy[i] := (copy[i] as int + ('A' as int - 'a' as int)) as char;
      } else if word[i] < 'A' || word[i] > 'z' || (word[i] > 'Z' && word[i] < 'a') {
        return NotALetter;
      }
      i := i + 1;
    }
    copy[i] := 0 as char;
    var u := copy[..i];
    assert i == |Visible(word)|;
    assert u == UpperWord(Visible(word));
    i := 0;
    while i < DictSize
      invariant 0 <= i <= DictSize
      invariant FirstMatch(dict, u, 0) == FirstMatch(dict, u, i)
    {
      if dict[i] == u {
        return i;
      }
      i := i + 1;
    }
    return NotFound;
  }
}
