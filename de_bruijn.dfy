/** The de Bruijn test of is_debruijn: a word of length k^n passes when its
    k^n cyclic windows of length n are pairwise distinct, as counted in a
    dictionary from window to number of occurrences. */
module DeBruijn {

  import Modular

  /** `k ** n` for natural k and n. */
  function Pow(k: nat, n: nat): (p: nat)
    ensures k >= 1 ==> p >= 1
    ensures k == 0 && n >= 1 ==> p == 0
  {
    if n == 0 then 1 else k * Pow(k, n - 1)
  }

  function Min(a: int, b: int): int {
    if a <= b then a else b
  }

  /** The window the loop builds for start i: the slice `word[i:i+n]`, or, when
      it runs past the end, `word[i:] + word[:i+n-L]`, where a slice bound past
      the end is cut back to L. */
  function SliceWindow(word: string, n: nat, i: nat): (s: string)
    requires i < |word|
    ensures |s| == Min(n, 2 * |word| - i)
    ensures forall t :: 0 <= t < |s| && i + t < |word| ==> s[t] == word[i + t]
    ensures forall t :: 0 <= t < |s| && |word| <= i + t ==> s[t] == word[i + t - |word|]
  {
    var L := |word|;
    if i + n <= L then word[i..i + n]
    else word[i..] + word[..Min(i + n - L, L)]
  }

  /** The true cyclic window of length n starting at i. */
  function CyclicWindow(word: string, n: nat, i: nat): string
    requires |word| > 0
  {
    seq(n, t requires 0 <= t < n => word[(i + t) % |word|])
  }

  /** The slices reach the true cyclic window whenever the wrapped part is no
      longer than the word, that is, n <= L + 1. */
  lemma SliceWindowIsCyclic(word: string, n: nat, i: nat)
    requires i < |word| && n <= |word| + 1
    ensures SliceWindow(word, n, i) == CyclicWindow(word, n, i)
  {
    var L := |word|;
    var s, c := SliceWindow(word, n, i), CyclicWindow(word, n, i);
    assert |s| == n;
    forall t | 0 <= t < n
      ensures s[t] == c[t]
    {
      Modular.ModBelowTwice(i + t, L);
    }
  }

  ghost predicate SliceWindowsDistinct(word: string, n: nat) {
    forall a, b :: 0 <= a < b < |word| ==> SliceWindow(word, n, a) != SliceWindow(word, n, b)
  }

  /** The L cyclic windows of length n are pairwise distinct. */
  ghost predicate CyclicWindowsDistinct(word: string, n: nat) {
    forall a, b :: 0 <= a < b < |word| ==> CyclicWindow(word, n, a) != CyclicWindow(word, n, b)
  }

  lemma {:induction false} PowOfOne(n: nat)
    ensures Pow(1, n) == 1
  {
    if n > 0 {
      PowOfOne(n - 1);
    }
  }

  lemma {:induction false} PowExceeds(k: nat, n: nat)
    requires k >= 2
    ensures Pow(k, n) >= n + 1
  {
    if n > 0 {
      PowExceeds(k, n - 1);
      var p := Pow(k, n - 1);
      assert (k - 2) * p >= 0;
      assert k * p == (k - 2) * p + 2 * p;
    }
  }

  /** For a word of the required length the sliced windows are distinct exactly
      when the cyclic ones are: for k >= 2 the slices are the cyclic windows,
      and for k = 1 the word has a single window. */
  lemma SliceDistinctIffCyclic(word: string, k: nat, n: nat)
    requires k >= 1 && n >= 1 && |word| == Pow(k, n)
    ensures SliceWindowsDistinct(word, n) <==> CyclicWindowsDistinct(word, n)
  {
    if k == 1 {
      PowOfOne(n);
    } else {
      PowExceeds(k, n);
      forall a | 0 <= a < |word|
        ensures SliceWindow(word, n, a) == CyclicWindow(word, n, a)
      {
        SliceWindowIsCyclic(word, n, a);
      }
    }
  }

  /** `seen.get(s, 0)`: the stored count, or 0 for a window not yet seen. */
  function Get(seen: map<string, nat>, s: string): nat {
    if s in seen then seen[s] else 0
  }

  ghost function Pick(keys: set<string>): string
    requires keys != {}
  {
    var s :| s in keys; s
  }

  /** The sum of the counts in a dictionary. */
  ghost function Total(m: map<string, nat>): nat
    decreases |m|
  {
    if m.Keys == {} then 0
    else
      var s := Pick(m.Keys);
      assert |m - {s}| < |m| by {
        assert (m - {s}).Keys == m.Keys - {s};
      }
      m[s] + Total(m - {s})
  }

  /** The sum does not depend on which key is taken out first. */
  lemma {:induction false} TotalRemove(m: map<string, nat>, s: string)
    requires s in m
    ensures Total(m) == m[s] + Total(m - {s})
    decreases |m|
  {
    var p := Pick(m.Keys);
    if p != s {
      assert |m - {p}| < |m| by {
        assert (m - {p}).Keys == m.Keys - {p};
      }
      TotalRemove(m - {p}, s);
      assert |m - {s}| < |m| by {
        assert (m - {s}).Keys == m.Keys - {s};
      }
      TotalRemove(m - {s}, p);
      assert m - {p} - {s} == m - {s} - {p};
    }
  }

  /** `seen[s] = seen.get(s, 0) + 1` adds one to the sum of the counts. */
  lemma TotalIncrement(m: map<string, nat>, s: string)
    ensures Total(m[s := Get(m, s) + 1]) == Total(m) + 1
  {
    var m' := m[s := Get(m, s) + 1];
    TotalRemove(m', s);
    assert m' - {s} == m - {s};
    if s in m {
      TotalRemove(m, s);
    } else {
      assert m - {s} == m;
    }
  }

  /** `seen[s] = seen.get(s, 0) + 1`: s becomes a key with one more count,
      every other key keeps its count, and the sum of the counts rises by one. */
  function Record(seen: map<string, nat>, s: string): (m: map<string, nat>)
    ensures m.Keys == seen.Keys + {s}
    ensures m[s] == Get(seen, s) + 1
    ensures forall t :: t in seen && t != s ==> m[t] == seen[t]
    ensures Total(m) == Total(seen) + 1
  {
    TotalIncrement(seen, s);
    seen[s := Get(seen, s) + 1]
  }

  /** A dictionary whose counts are all one has as many keys as its total. */
  lemma {:induction false} TotalOfOnes(m: map<string, nat>)
    requires forall s :: s in m ==> m[s] == 1
    ensures Total(m) == |m|
    decreases |m|
  {
    if m.Keys != {} {
      var s := Pick(m.Keys);
      assert (m - {s}).Keys == m.Keys - {s};
      TotalOfOnes(m - {s});
    } else {
      assert m == map[];
    }
  }

  /** The windows of the first i starts, in order. */
  ghost function Windows(word: string, n: nat, i: nat): seq<string>
    requires i <= |word|
  {
    seq(i, t requires 0 <= t < i => SliceWindow(word, n, t))
  }

  /** In a sequence without repetitions each element occurs at most once. */
  lemma {:induction false} DistinctOnce(ws: seq<string>, s: string)
    requires forall a, b :: 0 <= a < b < |ws| ==> ws[a] != ws[b]
    ensures multiset(ws)[s] <= 1
    decreases |ws|
  {
    if |ws| > 0 {
      var init := ws[..|ws| - 1];
      assert ws == init + [ws[|ws| - 1]];
      DistinctOnce(init, s);
      if s == ws[|ws| - 1] {
        assert s !in init;
      }
    }
  }

  /** An element at two positions occurs at least twice. */
  lemma RepeatedTwice(ws: seq<string>, a: int, b: int)
    requires 0 <= a < b < |ws| && ws[a] == ws[b]
    ensures multiset(ws)[ws[a]] >= 2
  {
    assert ws == ws[..b] + ws[b..];
    assert ws[a] in ws[..b];
    assert ws[b] in ws[b..];
  }

  /** `seen` holds, for every window among the first i, its number of
      occurrences, and nothing else; its counts sum to i. */
  ghost predicate Counted(seen: map<string, nat>, ws: seq<string>, i: int)
    requires 0 <= i <= |ws|
  {
    && (forall s :: Get(seen, s) == multiset(ws[..i])[s])
    && (forall s :: s in seen ==> seen[s] >= 1)
    && Total(seen) == i
  }

  /** Counting window i (`seen[s] = seen.get(s, 0) + 1`) keeps the dictionary
      equal to the occurrence counts, and adds exactly one to the sum. */
  lemma CountStep(ws: seq<string>, i: int, seen: map<string, nat>, seen': map<string, nat>)
    requires 0 <= i < |ws| && Counted(seen, ws, i)
    requires seen' == Record(seen, ws[i])
    ensures Counted(seen', ws, i + 1)
  {
    assert ws[..i + 1] == ws[..i] + [ws[i]];
  }

  /** Once the dictionary holds the count of every window, "k^n keys, each
      counted once" says exactly that no window repeats. */
  lemma CountsDecideDistinct(ws: seq<string>, seen: map<string, nat>)
    requires forall s :: Get(seen, s) == multiset(ws)[s]
    requires forall s :: s in seen ==> seen[s] >= 1
    requires Total(seen) == |ws|
    ensures (|seen| == |ws| && forall s | s in seen :: seen[s] == 1)
            <==> forall a, b :: 0 <= a < b < |ws| ==> ws[a] != ws[b]
  {
    if forall a, b :: 0 <= a < b < |ws| ==> ws[a] != ws[b] {
      forall s | s in seen
        ensures seen[s] == 1
      {
        DistinctOnce(ws, s);
        assert Get(seen, s) == seen[s];
      }
      TotalOfOnes(seen);
    } else {
      var a, b :| 0 <= a < b < |ws| && ws[a] == ws[b];
      RepeatedTwice(ws, a, b);
      assert Get(seen, ws[a]) >= 2;
    }
  }

  /** After the loop, the final test of is_debruijn decides whether the cyclic
      windows are pairwise distinct. */
  lemma SeenDecides(word: string, k: nat, n: nat, seen: map<string, nat>)
    requires k >= 1 && n >= 1 && |word| == Pow(k, n)
    requires Counted(seen, Windows(word, n, |word|), |word|)
    ensures (|seen| == Pow(k, n) && forall s | s in seen :: seen[s] == 1)
            <==> CyclicWindowsDistinct(word, n)
  {
    var ws := Windows(word, n, |word|);
    assert ws[..|word|] == ws;
    assert forall a :: 0 <= a < |word| ==> ws[a] == SliceWindow(word, n, a);
    CountsDecideDistinct(ws, seen);
    SliceDistinctIffCyclic(word, k, n);
  }

  /** is_debruijn: reject any length other than k^n; otherwise count the L
      windows in `seen` and accept when there are k^n distinct windows, each
      seen once. */
  method IsDeBruijn(word: string, k: nat, n: nat) returns (r: bool)
    requires k >= 1 && n >= 1
    ensures |word| != Pow(k, n) ==> !r
    ensures r <==> |word| == Pow(k, n) && CyclicWindowsDistinct(word, n)
  {
    var L := |word|;
    if L != Pow(k, n) {
      return false;
    }
    ghost var ws := Windows(word, n, L);
    var seen: map<string, nat> := map[];
    for i := 0 to L
      invariant Counted(seen, ws, i)
    {
      var substring := SliceWindow(word, n, i);
      ghost var before := seen;
      seen := Record(seen, substring);
      CountStep(ws, i, before, seen);
    }
    SeenDecides(word, k, n, seen);
    r := |seen| == Pow(k, n) && forall s | s in seen :: seen[s] == 1;
  }

  /** Distinctness of the cyclic windows, checked on a list of them. */
  lemma CyclicWindowsListed(word: string, n: nat, ws: seq<string>)
    requires |ws| == |word| > 0
    requires forall a :: 0 <= a < |ws| ==> CyclicWindow(word, n, a) == ws[a]
    ensures CyclicWindowsDistinct(word, n) <==> forall a, b :: 0 <= a < b < |ws| ==> ws[a] != ws[b]
  {
  }

  /** "0011" is a de Bruijn word for k = 2, n = 2: its windows are 00, 01, 11, 10. */
  lemma BinaryDeBruijnExample()
    ensures |"0011"| == Pow(2, 2) && CyclicWindowsDistinct("0011", 2)
  {
    assert CyclicWindow("0011", 2, 0) == "00";
    assert CyclicWindow("0011", 2, 1) == "01";
    assert CyclicWindow("0011", 2, 2) == "11";
    assert CyclicWindow("0011", 2, 3) == "10";
    CyclicWindowsListed("0011", 2, ["00", "01", "11", "10"]);
  }

  /** "0101" has the right length but reads 01 at starts 0 and 2. */
  lemma BinaryRepeatExample()
    ensures |"0101"| == Pow(2, 2) && !CyclicWindowsDistinct("0101", 2)
  {
    assert CyclicWindow("0101", 2, 0) == "01";
    assert CyclicWindow("0101", 2, 2) == "01";
  }

  /** Symbols are never checked against a k-letter alphabet: a word whose
      symbols are all different has pairwise distinct windows, since windows
      at different starts begin differently.  So "abcd" passes for k = 2,
      n = 2 although it uses four letters. */
  lemma AlphabetNotChecked(word: string, n: nat)
    requires n >= 1
    requires forall a, b :: 0 <= a < b < |word| ==> word[a] != word[b]
    ensures CyclicWindowsDistinct(word, n)
  {
    forall a, b | 0 <= a < b < |word|
      ensures CyclicWindow(word, n, a) != CyclicWindow(word, n, b)
    {
      Modular.ModBelowTwice(a, |word|);
      Modular.ModBelowTwice(b, |word|);
      assert CyclicWindow(word, n, a)[0] == word[a];
      assert CyclicWindow(word, n, b)[0] == word[b];
    }
  }
}
