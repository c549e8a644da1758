/** Characters, alphabets and permutations shared by the cipher and the attack. */
module Letters {

  datatype Option<T> = None | Some(value: T)

  /** The 26 upper-case letters in order. */
  const ALPHA: string := "ABCDEFGHIJKLMNOPQRSTUVWXYZ"

  /** The 25 letters of a Playfair square: A..Z without J (J is merged into I). */
  const ALPHA25: string := "ABCDEFGHIKLMNOPQRSTUVWXYZ"

  /** C's isupper in the "C" locale. */
  predicate IsUpper(c: char) { 'A' <= c <= 'Z' }

  /** C's isalpha in the "C" locale: ASCII letters only. */
  predicate IsAlpha(c: char) { 'A' <= c <= 'Z' || 'a' <= c <= 'z' }

  /** C's toupper in the "C" locale: only a..z change, each to its upper-case letter. */
  function ToUpper(c: char): (u: char)
    ensures IsAlpha(c) <==> IsUpper(u)
    ensures 'a' <= c <= 'z' ==> u == ALPHA[c as int - 'a' as int]
    ensures IsUpper(c) ==> u == c
    ensures !IsAlpha(c) ==> u == c
  {
    if 'a' <= c <= 'z' then
      AlphaAt(c as int - 'a' as int);
      (c as int - 32) as char
    else c
  }

  /** All characters of s are upper-case letters. */
  predicate AllUpper(s: string) { forall i :: 0 <= i < |s| ==> IsUpper(s[i]) }

  /** No character occurs twice in s. */
  predicate Distinct<T(==)>(s: seq<T>) { forall i, j :: 0 <= i < j < |s| ==> s[i] != s[j] }

  /** s lists every symbol of the alphabet ab exactly once. */
  predicate IsPermutationOf(s: string, ab: string)
  {
    |s| == |ab| && Distinct(s) && (forall c :: c in s <==> c in ab)
  }

  /** A valid substitution alphabet (26 letters, each once). */
  predicate IsAlph26(s: string) { IsPermutationOf(s, ALPHA) }

  /** A valid Playfair key (the 25 letters other than J, each once). */
  predicate IsKey25(s: string) { IsPermutationOf(s, ALPHA25) }

  /** The first position of c in s (std::string::find, str.index). */
  function IndexOf<T(==)>(s: seq<T>, c: T): (k: nat)
    requires c in s
    ensures k < |s| && s[k] == c
    ensures forall j :: 0 <= j < k ==> s[j] != c
  {
    if s[0] == c then 0 else 1 + IndexOf(s[1..], c)
  }

  lemma UpperIsAlpha(c: char)
    ensures IsUpper(c) <==> c in ALPHA
  {
  }

  lemma Alpha25IsAlphaWithoutJ(c: char)
    ensures c in ALPHA25 <==> IsUpper(c) && c != 'J'
  {
  }

  /** The k-th letter of the alphabet is 'A' + k. */
  lemma AlphaAt(k: int)
    requires 0 <= k < 26
    ensures ALPHA[k] == ('A' as int + k) as char
  {
  }

  /** The first k + 1 letters extend the first k by one. */
  lemma AlphaPrefixStep(k: int)
    requires 0 <= k < 26
    ensures ALPHA[..k + 1] == ALPHA[..k] + [('A' as int + k) as char]
  {
  }

  /** A sequence of characters in strictly increasing order has no repeats. */
  lemma {:induction false} AscendingDistinct(s: string)
    requires forall i :: 0 <= i < |s| - 1 ==> s[i] < s[i + 1]
    ensures forall i, j :: 0 <= i < j < |s| ==> s[i] < s[j]
    decreases |s|
  {
    if |s| > 1 {
      var front := s[..|s| - 1];
      AscendingDistinct(front);
      forall i | 0 <= i < |s| - 1 ensures s[i] < s[|s| - 1] {
        assert front[i] == s[i];
        if i < |s| - 2 {
          assert front[i] < front[|s| - 2];
        }
      }
    }
  }

  lemma AlphabetsDistinct()
    ensures Distinct(ALPHA) && Distinct(ALPHA25)
  {
    AscendingDistinct(ALPHA);
    AscendingDistinct(ALPHA25);
  }

  /** In a sequence without repeats, the first occurrence of s[k] is k itself. */
  lemma IndexOfDistinct<T>(s: seq<T>, k: int)
    requires Distinct(s) && 0 <= k < |s|
    ensures IndexOf(s, s[k]) == k
  {
  }

  /** Swapping two positions of a sequence. */
  function Swap<T>(s: seq<T>, i: int, j: int): (r: seq<T>)
    requires 0 <= i < |s| && 0 <= j < |s|
    ensures |r| == |s| && r[i] == s[j] && r[j] == s[i]
    ensures forall k :: 0 <= k < |s| && k != i && k != j ==> r[k] == s[k]
  {
    s[i := s[j]][j := s[i]]
  }

  /**
   * Closure of permutations under a swap: swapping any two positions (possibly
   * the same one) of a permutation of ab gives a permutation of ab.
   */
  lemma SwapKeepsPermutation(s: string, ab: string, i: int, j: int)
    requires IsPermutationOf(s, ab)
    requires 0 <= i < |s| && 0 <= j < |s|
    ensures IsPermutationOf(Swap(s, i, j), ab)
  {
    var r := Swap(s, i, j);
    forall a, b | 0 <= a < b < |r| ensures r[a] != r[b] {
      var a' := if a == i then j else if a == j then i else a;
      var b' := if b == i then j else if b == j then i else b;
      assert r[a] == s[a'] && r[b] == s[b'] && a' != b';
    }
    forall c ensures c in r <==> c in s {
      if c in s {
        var k :| 0 <= k < |s| && s[k] == c;
        var k' := if k == i then j else if k == j then i else k;
        assert r[k'] == c;
      }
      if c in r {
        var k :| 0 <= k < |r| && r[k] == c;
        var k' := if k == i then j else if k == j then i else k;
        assert s[k'] == c;
      }
    }
  }

  /** A swap rearranges a sequence without changing its elements. */
  lemma SwapMultiset<T>(s: seq<T>, i: int, j: int)
    requires 0 <= i < |s| && 0 <= j < |s|
    ensures multiset(Swap(s, i, j)) == multiset(s)
  {
    assert Swap(s, i, j) == s[i := s[j]][j := s[i]];
  }

  /** 26 distinct upper-case letters: the shape of a substitution alphabet, stated index by index. */
  predicate AlphLetters(a: string)
  {
    |a| == 26 && Distinct(a) && forall i :: 0 <= i < |a| ==> IsUpper(a[i])
  }

  /** 25 distinct upper-case letters other than J: the shape of a Playfair key, stated index by index. */
  predicate KeyLetters(k: string)
  {
    |k| == 25 && Distinct(k) && forall i :: 0 <= i < |k| ==> IsUpper(k[i]) && k[i] != 'J'
  }

  /** The symbols of a sequence. */
  function Symbols<T>(s: seq<T>): set<T>
  {
    set x | x in s
  }

  /** A sequence without repeats has as many symbols as positions. */
  lemma {:induction false} DistinctSymbols<T>(s: seq<T>)
    requires Distinct(s)
    ensures |Symbols(s)| == |s|
    decreases |s|
  {
    if s != [] {
      var front := s[..|s| - 1];
      assert Distinct(front);
      DistinctSymbols(front);
      assert Symbols(s) == Symbols(front) + {s[|s| - 1]} by {
        assert s == front + [s[|s| - 1]];
      }
      assert s[|s| - 1] !in Symbols(front);
    }
  }

  /** Pigeonhole: as many distinct symbols as a repeat-free alphabet, all drawn from it, are all of it. */
  lemma Pigeonhole(s: string, ab: string)
    requires Distinct(s) && Distinct(ab) && |s| == |ab|
    requires forall i :: 0 <= i < |s| ==> s[i] in ab
    ensures forall c :: c in ab ==> c in s
  {
    var S, U := Symbols(s), Symbols(ab);
    DistinctSymbols(s);
    DistinctSymbols(ab);
    assert S <= U;
    assert |U - S| == |U| - |S| by {
      assert U == (U - S) + S;
      assert (U - S) * S == {};
    }
    assert U - S == {};
    forall c | c in ab ensures c in s {
      assert c in U;
    }
  }

  /** The index-by-index shapes are exactly the two kinds of permutation. */
  lemma LettersArePermutations(a: string, k: string)
    ensures AlphLetters(a) <==> IsAlph26(a)
    ensures KeyLetters(k) <==> IsKey25(k)
  {
    AlphabetsDistinct();
    if AlphLetters(a) {
      forall i | 0 <= i < |a| ensures a[i] in ALPHA {
        UpperIsAlpha(a[i]);
      }
      Pigeonhole(a, ALPHA);
      forall c | c in a ensures c in ALPHA {
        var i :| 0 <= i < |a| && a[i] == c;
      }
    }
    if IsAlph26(a) {
      forall i | 0 <= i < |a| ensures IsUpper(a[i]) {
        UpperIsAlpha(a[i]);
      }
    }
    if KeyLetters(k) {
      forall i | 0 <= i < |k| ensures k[i] in ALPHA25 {
        Alpha25IsAlphaWithoutJ(k[i]);
      }
      Pigeonhole(k, ALPHA25);
      forall c | c in k ensures c in ALPHA25 {
        var i :| 0 <= i < |k| && k[i] == c;
      }
    }
    if IsKey25(k) {
      forall i | 0 <= i < |k| ensures IsUpper(k[i]) && k[i] != 'J' {
        Alpha25IsAlphaWithoutJ(k[i]);
      }
    }
  }

  /** A swap keeps both shapes. */
  lemma SwapKeepsLetters(s: string, i: int, j: int)
    requires 0 <= i < |s| && 0 <= j < |s|
    ensures AlphLetters(s) ==> AlphLetters(Swap(s, i, j))
    ensures KeyLetters(s) ==> KeyLetters(Swap(s, i, j))
  {
    var r := Swap(s, i, j);
    if Distinct(s) {
      forall a, b | 0 <= a < b < |r| ensures r[a] != r[b] {
        var a' := if a == i then j else if a == j then i else a;
        var b' := if b == i then j else if b == j then i else b;
        assert r[a] == s[a'] && r[b] == s[b'] && a' != b';
      }
    }
    forall a | 0 <= a < |r| ensures exists a' :: 0 <= a' < |s| && r[a] == s[a'] {
      var a' := if a == i then j else if a == j then i else a;
      assert r[a] == s[a'];
    }
  }
}
