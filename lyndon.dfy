/** The Lyndon test of is_lyndon: a word passes when none of its non-trivial
    rotations is lexicographically smaller than the word itself. */
module Lyndon {

  import Modular

  /** String comparison `a < b`: lexicographic by symbol, a proper prefix being
      the smaller. */
  function LexLess(a: string, b: string): (r: bool)
    ensures |a| < |b| && a == b[..|a|] ==> r
    ensures r ==> |b| > 0 && (|a| == 0 || a[0] <= b[0])
    decreases |a|
  {
    if |a| == 0 then |b| > 0
    else if |b| == 0 then false
    else if a[0] != b[0] then a[0] < b[0]
    else LexLess(a[1..], b[1..])
  }

  /** a is smaller than b with their first difference at index k, or a is a
      proper prefix of b (k == |a|). */
  ghost predicate SmallerAt(a: string, b: string, k: int) {
    && 0 <= k <= |a| && k <= |b| && a[..k] == b[..k]
    && ((k == |a| && k < |b|) || (k < |a| && k < |b| && a[k] < b[k]))
  }

  /** A first difference at k, in a's favour, makes a the smaller. */
  lemma {:induction false} SmallerAtGivesLess(a: string, b: string, k: int)
    requires SmallerAt(a, b, k)
    ensures LexLess(a, b)
    decreases k
  {
    if k > 0 {
      assert a[0] == a[..k][0] == b[..k][0] == b[0];
      assert a[1..][..k - 1] == a[..k][1..];
      assert b[1..][..k - 1] == b[..k][1..];
      SmallerAtGivesLess(a[1..], b[1..], k - 1);
    }
  }

  /** The comparison agrees with the textbook definition of lexicographic order. */
  lemma {:induction false} LexLessIff(a: string, b: string)
    ensures LexLess(a, b) <==> exists k :: SmallerAt(a, b, k)
    decreases |a|
  {
    if k :| SmallerAt(a, b, k) {
      SmallerAtGivesLess(a, b, k);
    }
    if LexLess(a, b) {
      if |a| == 0 || a[0] != b[0] {
        assert SmallerAt(a, b, 0);
      } else {
        LexLessIff(a[1..], b[1..]);
        var k :| SmallerAt(a[1..], b[1..], k);
        assert a[..k + 1] == [a[0]] + a[1..][..k];
        assert b[..k + 1] == [b[0]] + b[1..][..k];
        assert SmallerAt(a, b, k + 1);
      }
    }
  }

  lemma {:induction false} LexLessIrreflexive(a: string)
    ensures !LexLess(a, a)
    decreases |a|
  {
    if |a| > 0 {
      LexLessIrreflexive(a[1..]);
    }
  }

  lemma {:induction false} LexLessAsymmetric(a: string, b: string)
    ensures LexLess(a, b) ==> !LexLess(b, a)
    decreases |a|
  {
    if |a| > 0 && |b| > 0 && a[0] == b[0] {
      LexLessAsymmetric(a[1..], b[1..]);
    }
  }

  /** Two different words are always ordered one way or the other. */
  lemma {:induction false} LexLessTotal(a: string, b: string)
    ensures a != b ==> LexLess(a, b) || LexLess(b, a)
    decreases |a|
  {
    if |a| > 0 && |b| > 0 && a[0] == b[0] {
      LexLessTotal(a[1..], b[1..]);
      if a != b {
        assert a == [a[0]] + a[1..] && b == [b[0]] + b[1..];
      }
    }
  }

  /** The rotation `word[i:] + word[:i]`: as long as the word, and the word
      itself at offsets 0 and |word|. */
  function Rotation(word: string, i: int): (r: string)
    requires 0 <= i <= |word|
    ensures |r| == |word|
    ensures i == 0 || i == |word| ==> r == word
  {
    word[i..] + word[..i]
  }

  /** Rotation i reads the word cyclically from offset i. */
  lemma RotationAt(word: string, i: int, t: int)
    requires 0 <= i < |word| && 0 <= t < |word|
    ensures |Rotation(word, i)| == |word|
    ensures Rotation(word, i)[t] == word[(i + t) % |word|]
  {
    Modular.ModBelowTwice(i + t, |word|);
  }

  /** The loop of is_lyndon from offset i on: it stops with false at the first
      rotation that compares smaller than the word. */
  function NoSmallerRotationFrom(word: string, i: int): (r: bool)
    requires 1 <= i
    ensures r <==> forall k :: i <= k < |word| ==> !LexLess(Rotation(word, k), word)
    decreases |word| - i
  {
    if i >= |word| then true
    else !LexLess(Rotation(word, i), word) && NoSmallerRotationFrom(word, i + 1)
  }

  /** is_lyndon as written: the word is no greater than each of its non-trivial
      rotations.  A rotation equal to the word is accepted. */
  function IsLyndon(word: string): (r: bool)
    ensures |word| <= 1 ==> r
    ensures r <==> forall i :: 1 <= i < |word| ==> word == Rotation(word, i) || LexLess(word, Rotation(word, i))
  {
    var r := NoSmallerRotationFrom(word, 1);
    forall i | 1 <= i < |word|
      ensures !LexLess(Rotation(word, i), word) <==> word == Rotation(word, i) || LexLess(word, Rotation(word, i))
    {
      LexLessIrreflexive(word);
      LexLessAsymmetric(word, Rotation(word, i));
      LexLessTotal(word, Rotation(word, i));
    }
    r
  }

  /** The corrected test: strictly smaller than every non-trivial rotation, the
      property the docstring of is_lyndon states. */
  function StrictlySmallerFrom(word: string, i: int): (r: bool)
    requires 1 <= i
    ensures r <==> forall k :: i <= k < |word| ==> LexLess(word, Rotation(word, k))
    decreases |word| - i
  {
    if i >= |word| then true
    else LexLess(word, Rotation(word, i)) && StrictlySmallerFrom(word, i + 1)
  }

  function IsStrictLyndon(word: string): (r: bool)
    ensures |word| <= 1 ==> r
    ensures r <==> forall i :: 1 <= i < |word| ==> LexLess(word, Rotation(word, i))
  {
    StrictlySmallerFrom(word, 1)
  }

  /** A word that passes the corrected test passes the test as written. */
  lemma StrictPassesAsWritten(word: string)
    ensures IsStrictLyndon(word) ==> IsLyndon(word)
  {
  }

  /** On words equal to none of their non-trivial rotations the two tests
      agree; they can differ only on words equal to one of them. */
  lemma AsWrittenMatchesStrictOnPrimitive(word: string)
    requires forall i :: 1 <= i < |word| ==> Rotation(word, i) != word
    ensures IsLyndon(word) <==> IsStrictLyndon(word)
  {
  }

  /** Every rotation of a constant word is that word. */
  lemma ConstantRotation(word: string, i: int)
    requires 0 <= i < |word|
    requires forall t :: 0 <= t < |word| ==> word[t] == word[0]
    ensures Rotation(word, i) == word
  {
    forall t | 0 <= t < |word|
      ensures Rotation(word, i)[t] == word[t]
    {
      RotationAt(word, i, t);
    }
  }

  /** A constant word is accepted by is_lyndon as written, and rejected by the
      corrected test once it has two symbols or more. */
  lemma ConstantWordAccepted(word: string)
    requires forall t :: 0 <= t < |word| ==> word[t] == word[0]
    ensures IsLyndon(word)
    ensures |word| >= 2 ==> !IsStrictLyndon(word)
  {
    forall i | 1 <= i < |word|
      ensures Rotation(word, i) == word
    {
      ConstantRotation(word, i);
    }
    if |word| >= 2 {
      LexLessIrreflexive(word);
      assert !LexLess(word, Rotation(word, 1));
    }
  }

  /** "aa" and "abab" equal one of their rotations: is_lyndon accepts them, the
      corrected test does not. */
  lemma PeriodicWordsAccepted()
    ensures IsLyndon("aa") && !IsStrictLyndon("aa")
    ensures IsLyndon("abab") && !IsStrictLyndon("abab")
  {
    ConstantWordAccepted("aa");
    assert Rotation("abab", 2) == "abab";
    LexLessIrreflexive("abab");
    assert IsLyndon("abab");
  }

  lemma SmallExamples()
    ensures IsLyndon("ab") && !IsLyndon("ba")
    ensures IsLyndon("aab") && !IsLyndon("aba")
  {
    assert Rotation("ba", 1) == "ab";
    assert Rotation("aab", 1) == "aba" && Rotation("aab", 2) == "baa";
    assert Rotation("aba", 2) == "aab";
  }
}
