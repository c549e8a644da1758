/**
 * What the DualCipher class computes, as functions on strings: letter
 * normalisation, the keyword substitution alphabet, the Playfair key, digraph
 * preparation, and the two cipher stages. The class in module Cipher is proved
 * against these; the properties of the cipher are lemmas here.
 */
module CipherSpec {
  import opened Letters
  import Playfair

  /** normalizeLetters: keep the ASCII letters, upper-cased, in order. */
  function Normalize(s: string): (r: string)
    ensures AllUpper(r) && |r| <= |s|
    decreases |s|
  {
    if s == [] then []
    else Normalize(s[..|s| - 1]) + (if IsAlpha(s[|s| - 1]) then [ToUpper(s[|s| - 1])] else [])
  }

  lemma {:induction false} NormalizeAppend(a: string, b: string)
    ensures Normalize(a + b) == Normalize(a) + Normalize(b)
    decreases |b|
  {
    if b == [] {
      assert a + b == a;
    } else {
      var b' := b[..|b| - 1];
      assert (a + b)[..|a + b| - 1] == a + b';
      NormalizeAppend(a, b');
    }
  }

  /** Normalisation leaves an upper-case text as it is, so it is idempotent. */
  lemma {:induction false} NormalizeUpper(s: string)
    requires AllUpper(s)
    ensures Normalize(s) == s
    decreases |s|
  {
    if s != [] {
      NormalizeUpper(s[..|s| - 1]);
    }
  }

  lemma NormalizeIdempotent(s: string)
    ensures Normalize(Normalize(s)) == Normalize(s)
  {
    NormalizeUpper(Normalize(s));
  }

  /** The text upper-cased character by character (the first loop of buildKeywordAlphabet). */
  function Upper(s: string): (r: string)
    ensures |r| == |s| && forall i :: 0 <= i < |s| ==> r[i] == ToUpper(s[i])
    decreases |s|
  {
    if s == [] then [] else Upper(s[..|s| - 1]) + [ToUpper(s[|s| - 1])]
  }

  /** Each character upper-cased, then J turned into I (buildPlayfairGrid's first loop). */
  function Merged(s: string): (r: string)
    ensures |r| == |s| && forall i :: 0 <= i < |s| ==> r[i] == Playfair.Canon(ToUpper(s[i]))
    decreases |s|
  {
    if s == [] then [] else Merged(s[..|s| - 1]) + [Playfair.Canon(ToUpper(s[|s| - 1]))]
  }

  /** The letters of s, each at its first occurrence (other characters dropped). */
  function Dedup(s: string): (d: string)
    ensures Distinct(d)
    ensures forall c :: c in d <==> c in s && IsAlpha(c)
    decreases |s|
  {
    if s == [] then []
    else
      var d := Dedup(s[..|s| - 1]);
      var c := s[|s| - 1];
      assert forall x :: x in s <==> x in s[..|s| - 1] || x == c;
      if IsAlpha(c) && c !in d then d + [c] else d
  }

  /** Dedup keeps the letters in the order of their first occurrence in s. */
  lemma {:induction false} DedupFirstOccurrenceOrder(s: string)
    ensures forall i, j :: 0 <= i < j < |Dedup(s)| ==> IndexOf(s, Dedup(s)[i]) < IndexOf(s, Dedup(s)[j])
    decreases |s|
  {
    if s != [] {
      var n := |s|;
      var front := s[..n - 1];
      DedupFirstOccurrenceOrder(front);
      var d, df := Dedup(s), Dedup(front);
      forall i | 0 <= i < |df| ensures IndexOf(s, df[i]) == IndexOf(front, df[i]) {
        IndexOfPrefix(s, n - 1, df[i]);
      }
      if d != df {
        var c := s[n - 1];
        assert c !in front;
        assert IndexOf(s, c) == n - 1;
      }
    }
  }

  /** The first occurrence of x in s lies in any prefix of s that contains x. */
  lemma IndexOfPrefix(s: string, n: nat, x: char)
    requires n <= |s| && x in s[..n]
    ensures IndexOf(s, x) == IndexOf(s[..n], x)
  {
    var k' := IndexOf(s[..n], x);
    assert s[k'] == x;
  }

  /** acc followed by those letters of ab, in order, that are not already present. */
  function Fill(acc: string, ab: string): (r: string)
    ensures |r| >= |acc| && r[..|acc|] == acc
    ensures forall c :: c in r <==> c in acc || c in ab
    ensures Distinct(acc) ==> Distinct(r)
    decreases |ab|
  {
    if ab == [] then acc
    else
      var f := Fill(acc, ab[..|ab| - 1]);
      var c := ab[|ab| - 1];
      assert forall x :: x in ab <==> x in ab[..|ab| - 1] || x == c;
      if c !in f then f + [c] else f
  }

  /** One more letter of the alphabet to fill from. */
  lemma FillAppend(acc: string, ab: string, c: char)
    ensures Fill(acc, ab + [c]) == if c in Fill(acc, ab) then Fill(acc, ab) else Fill(acc, ab) + [c]
  {
    assert (ab + [c])[..|ab|] == ab;
  }

  /** The letters of s other than J, in order. */
  function WithoutJ(s: string): (r: string)
    ensures forall c :: c in r <==> c in s && c != 'J'
    decreases |s|
  {
    if s == [] then []
    else
      var c := s[|s| - 1];
      assert forall x :: x in s <==> x in s[..|s| - 1] || x == c;
      WithoutJ(s[..|s| - 1]) + (if c == 'J' then [] else [c])
  }

  lemma WithoutJAppend(s: string, c: char)
    ensures WithoutJ(s + [c]) == WithoutJ(s) + (if c == 'J' then [] else [c])
  {
    assert (s + [c])[..|s|] == s;
  }

  /** buildKeywordAlphabet: the keyword's distinct letters, then the rest of A..Z. */
  function KeywordAlphabet(rawKey: string): (r: string)
    ensures Distinct(r) && forall c :: c in ALPHA ==> c in r
  {
    Fill(Dedup(Upper(rawKey)), ALPHA)
  }

  /** The 25-letter Playfair key of buildPlayfairGrid, before it is laid out row-major. */
  function PlayfairKey(keyword: string): (r: string)
    ensures Distinct(r) && forall c :: c in ALPHA && c != 'J' ==> c in r
  {
    Fill(Dedup(Merged(keyword)), WithoutJ(ALPHA))
  }

  /** The key square of a keyword. */
  function Square(keyword: string): (g: Playfair.Grid)
    ensures Playfair.IsSquare(g)
  {
    PlayfairKeyIsKey25(keyword);
    Playfair.GridOfKeyIsSquare(PlayfairKey(keyword));
    Playfair.GridOf(PlayfairKey(keyword))
  }

  /** Two texts without repeats and with the same letters have the same length. */
  lemma SameLettersSameLength(s: string, t: string)
    requires Distinct(s) && Distinct(t) && forall c :: c in s <==> c in t
    ensures |s| == |t|
  {
    DistinctSymbols(s);
    DistinctSymbols(t);
    assert Symbols(s) == Symbols(t);
  }

  /**
   * The keyword alphabet is a permutation of A..Z that starts with the keyword's
   * distinct letters, upper-cased, in the order of their first occurrence.
   */
  lemma KeywordAlphabetIsAlph26(rawKey: string)
    ensures IsAlph26(KeywordAlphabet(rawKey))
    ensures var d := Dedup(Upper(rawKey));
      |d| <= 26 && KeywordAlphabet(rawKey)[..|d|] == d &&
      (forall c :: c in d <==> IsAlpha(c) && c in Upper(rawKey)) &&
      (forall i, j :: 0 <= i < j < |d| ==> IndexOf(Upper(rawKey), d[i]) < IndexOf(Upper(rawKey), d[j]))
  {
    var u := Upper(rawKey);
    var d := Dedup(u);
    var r := KeywordAlphabet(rawKey);
    forall c | c in d ensures c in ALPHA {
      var i := IndexOf(u, c);
      UpperIsAlpha(c);
    }
    forall c ensures c in r <==> c in ALPHA {
      UpperIsAlpha(c);
    }
    AlphabetsDistinct();
    SameLettersSameLength(r, ALPHA);
    DedupFirstOccurrenceOrder(u);
  }

  /** The Playfair key is a permutation of the 25 letters other than J. */
  lemma PlayfairKeyIsKey25(keyword: string)
    ensures IsKey25(PlayfairKey(keyword))
  {
    var m := Merged(keyword);
    var d := Dedup(m);
    var k := PlayfairKey(keyword);
    forall c | c in d ensures c in ALPHA25 {
      var i := IndexOf(m, c);
      Alpha25IsAlphaWithoutJ(c);
    }
    forall c ensures c in k <==> c in ALPHA25 {
      Alpha25IsAlphaWithoutJ(c);
      UpperIsAlpha(c);
    }
    AlphabetsDistinct();
    SameLettersSameLength(k, ALPHA25);
  }

  /**
   * The keyword's letters open the Playfair key, upper-cased, J as I, each once,
   * in the order of their first occurrence.
   */
  lemma PlayfairKeyStartsWithKeyword(keyword: string)
    ensures var d := Dedup(Merged(keyword));
      |d| <= 25 && PlayfairKey(keyword)[..|d|] == d &&
      (forall c :: c in d <==> IsAlpha(c) && c in Merged(keyword)) &&
      (forall c :: c in d ==> c != 'J') &&
      (forall i, j :: 0 <= i < j < |d| ==> IndexOf(Merged(keyword), d[i]) < IndexOf(Merged(keyword), d[j]))
  {
    PlayfairKeyIsKey25(keyword);
    var m := Merged(keyword);
    forall c | c in Dedup(m) ensures c != 'J' {
      var i := IndexOf(m, c);
    }
    DedupFirstOccurrenceOrder(m);
  }

  /** prepareForPlayfair's first loop: letters only, upper-cased, J as I. */
  function Clean(raw: string): (r: string)
    ensures AllUpper(r) && |r| <= |raw|
    ensures forall i :: 0 <= i < |r| ==> r[i] != 'J'
    decreases |raw|
  {
    if raw == [] then []
    else
      var c := raw[|raw| - 1];
      Clean(raw[..|raw| - 1]) + (if IsAlpha(c) then [Playfair.Canon(ToUpper(c))] else [])
  }

  /**
   * prepareForPlayfair's digraph loop: take two letters at a time; when both are
   * equal, emit the first with an X and start the next digraph at the second.
   */
  function Pairs(s: string): (r: string)
    decreases |s|
  {
    if |s| == 0 then []
    else if |s| == 1 then [s[0]]
    else if s[0] == s[1] then [s[0], 'X'] + Pairs(s[1..])
    else [s[0], s[1]] + Pairs(s[2..])
  }

  /** prepareForPlayfair: cleaned digraphs, padded with X to even length. */
  function Prepare(raw: string): (r: string)
    ensures |r| % 2 == 0
  {
    var out := Pairs(Clean(raw));
    if |out| % 2 == 1 then out + ['X'] else out
  }

  /** Every digraph of r holds two different letters, or is XX. */
  predicate SplitDigraphs(r: string)
  {
    forall k :: 0 <= k < |r| / 2 ==> r[2 * k] != r[2 * k + 1] || r[2 * k] == 'X'
  }

  /**
   * The digraph loop emits every letter it reads, inserts only X, never shortens
   * the text, and emits no doubled digraph except XX.
   */
  lemma {:induction false} PairsProperties(s: string)
    ensures |Pairs(s)| >= |s|
    ensures forall i :: 0 <= i < |Pairs(s)| ==> Pairs(s)[i] in s || Pairs(s)[i] == 'X'
    ensures SplitDigraphs(Pairs(s))
    decreases |s|
  {
    if |s| >= 2 {
      var r := Pairs(s);
      var rest := if s[0] == s[1] then s[1..] else s[2..];
      PairsProperties(rest);
      var pr := Pairs(rest);
      assert r == [r[0], r[1]] + pr;
      forall i | 0 <= i < |r| ensures r[i] in s || r[i] == 'X' {
        if i >= 2 {
          assert r[i] == pr[i - 2];
          assert pr[i - 2] in rest ==> pr[i - 2] in s;
        }
      }
      forall k | 0 <= k < |r| / 2 ensures r[2 * k] != r[2 * k + 1] || r[2 * k] == 'X' {
        if k >= 1 {
          assert r[2 * k] == pr[2 * (k - 1)] && r[2 * k + 1] == pr[2 * (k - 1) + 1];
        }
      }
    }
  }

  /**
   * prepareForPlayfair's output has even length, has no J, is made of letters of
   * the cleaned input and X, is no shorter than the cleaned input, and has no
   * doubled digraph other than XX.
   */
  lemma PrepareProperties(raw: string)
    ensures var p, c := Prepare(raw), Clean(raw);
      |p| % 2 == 0 && |p| >= |c| && AllUpper(p) && SplitDigraphs(p) &&
      (forall i :: 0 <= i < |p| ==> p[i] != 'J' && (p[i] in c || p[i] == 'X'))
  {
    var c := Clean(raw);
    PairsProperties(c);
    var out, p := Pairs(c), Prepare(raw);
    forall i | 0 <= i < |p| ensures p[i] in c || p[i] == 'X' {
      if i < |out| { assert p[i] == out[i]; }
    }
    forall i | 0 <= i < |p| ensures p[i] != 'J' && IsUpper(p[i]) {
      if i < |out| {
        assert p[i] == out[i];
        if p[i] in c {
          var j :| 0 <= j < |c| && c[j] == p[i];
        }
      }
    }
    if |out| % 2 == 1 {
      forall k | 0 <= k < |p| / 2 ensures p[2 * k] != p[2 * k + 1] || p[2 * k] == 'X' {
        if 2 * k + 1 < |out| {
          assert p[2 * k] == out[2 * k] && p[2 * k + 1] == out[2 * k + 1];
        } else {
          assert p[2 * k + 1] == 'X';
        }
      }
    }
  }

  /** A text with no doubled letter inside any digraph. */
  predicate NoDoubledDigraph(s: string)
  {
    forall k :: 0 <= k < |s| / 2 ==> s[2 * k] != s[2 * k + 1]
  }

  /** Clean leaves an upper-case text without J as it is. */
  lemma {:induction false} CleanIdentity(s: string)
    requires AllUpper(s) && forall i :: 0 <= i < |s| ==> s[i] != 'J'
    ensures Clean(s) == s
    decreases |s|
  {
    if s != [] {
      CleanIdentity(s[..|s| - 1]);
    }
  }

  /** The digraph loop leaves a text with no doubled digraph as it is, when its length is even. */
  lemma {:induction false} PairsIdentity(s: string)
    requires |s| % 2 == 0 && NoDoubledDigraph(s)
    ensures Pairs(s) == s
    decreases |s|
  {
    if s != [] {
      var rest := s[2..];
      assert s[2 * 0] != s[2 * 0 + 1];
      forall k | 0 <= k < |rest| / 2 ensures rest[2 * k] != rest[2 * k + 1] {
        assert rest[2 * k] == s[2 * (k + 1)] && rest[2 * k + 1] == s[2 * (k + 1) + 1];
      }
      PairsIdentity(rest);
      assert s == [s[0], s[1]] + rest;
    }
  }

  /** prepareForPlayfair changes nothing in an even-length upper-case text without J or doubled digraphs. */
  lemma PrepareIdentity(s: string)
    requires AllUpper(s) && |s| % 2 == 0 && NoDoubledDigraph(s)
    requires forall i :: 0 <= i < |s| ==> s[i] != 'J'
    ensures Prepare(s) == s
  {
    CleanIdentity(s);
    PairsIdentity(s);
  }

  /**
   * The per-character substitution of keywordEncrypt (src = A..Z, dst = the keyword
   * alphabet) and keywordDecrypt (the other way round): a character found in src at
   * position k becomes dst[k]; any other character is copied.
   */
  function Translate(src: string, dst: string, s: string): (r: string)
    requires |src| == |dst|
    ensures |r| == |s|
    decreases |s|
  {
    if s == [] then []
    else
      var c := s[|s| - 1];
      Translate(src, dst, s[..|s| - 1]) + [if c in src then dst[IndexOf(src, c)] else c]
  }

  /** A left-to-right pass extends the translated prefix by one character. */
  lemma TranslateStep(src: string, dst: string, s: string, i: int)
    requires |src| == |dst| && 0 <= i < |s|
    ensures Translate(src, dst, s[..i + 1]) ==
      Translate(src, dst, s[..i]) + [if s[i] in src then dst[IndexOf(src, s[i])] else s[i]]
  {
    assert s[..i + 1][..i] == s[..i];
  }

  /** Translate works character by character. */
  lemma {:induction false} TranslateAt(src: string, dst: string, s: string, i: int)
    requires |src| == |dst| && 0 <= i < |s|
    ensures Translate(src, dst, s)[i] == if s[i] in src then dst[IndexOf(src, s[i])] else s[i]
    decreases |s|
  {
    if i < |s| - 1 {
      TranslateAt(src, dst, s[..|s| - 1], i);
    }
  }

  /** Text whose every character is in ab. */
  predicate Over(ab: string, s: string) { forall i :: 0 <= i < |s| ==> s[i] in ab }

  /** Translating text over src gives text over dst. */
  lemma TranslateOver(src: string, dst: string, s: string)
    requires |src| == |dst| && Over(src, s)
    ensures Over(dst, Translate(src, dst, s))
  {
    forall i | 0 <= i < |s| ensures Translate(src, dst, s)[i] in dst {
      TranslateAt(src, dst, s, i);
    }
  }

  /** Substitution round trip: between two alphabets without repeats, translating back undoes translating. */
  lemma TranslateRoundTrip(src: string, dst: string, s: string)
    requires |src| == |dst| && Distinct(src) && Distinct(dst) && Over(src, s)
    ensures Translate(dst, src, Translate(src, dst, s)) == s
  {
    var t := Translate(src, dst, s);
    var u := Translate(dst, src, t);
    forall i | 0 <= i < |s| ensures u[i] == s[i] {
      TranslateAt(src, dst, s, i);
      var k := IndexOf(src, s[i]);
      TranslateAt(dst, src, t, i);
      IndexOfDistinct(dst, k);
    }
  }

  /** keywordEncrypt on the specification level. */
  function KeywordEncrypted(keyword: string, plain: string): (r: string)
    ensures |r| == |Normalize(plain)|
  {
    KeywordAlphabetIsAlph26(keyword);
    Translate(ALPHA, KeywordAlphabet(keyword), Normalize(plain))
  }

  /** keywordDecrypt on the specification level. */
  function KeywordDecrypted(keyword: string, cipher: string): (r: string)
    ensures |r| == |Normalize(cipher)|
  {
    KeywordAlphabetIsAlph26(keyword);
    Translate(KeywordAlphabet(keyword), ALPHA, Normalize(cipher))
  }

  /** The substitution stage yields upper-case letters only. */
  lemma KeywordEncryptedUpper(keyword: string, plain: string)
    ensures AllUpper(KeywordEncrypted(keyword, plain)) && |KeywordEncrypted(keyword, plain)| == |Normalize(plain)|
  {
    KeywordAlphabetIsAlph26(keyword);
    var n := Normalize(plain);
    forall i | 0 <= i < |n| ensures n[i] in ALPHA { UpperIsAlpha(n[i]); }
    TranslateOver(ALPHA, KeywordAlphabet(keyword), n);
    var e := KeywordEncrypted(keyword, plain);
    forall i | 0 <= i < |e| ensures IsUpper(e[i]) { UpperIsAlpha(e[i]); }
  }

  /** Keyword round trip: keywordDecrypt(keywordEncrypt(p)) is p's letters, upper-cased. */
  lemma KeywordRoundTrip(keyword: string, plain: string)
    ensures KeywordDecrypted(keyword, KeywordEncrypted(keyword, plain)) == Normalize(plain)
  {
    KeywordAlphabetIsAlph26(keyword);
    AlphabetsDistinct();
    var n := Normalize(plain);
    forall i | 0 <= i < |n| ensures n[i] in ALPHA { UpperIsAlpha(n[i]); }
    KeywordEncryptedUpper(keyword, plain);
    NormalizeUpper(KeywordEncrypted(keyword, plain));
    TranslateRoundTrip(ALPHA, KeywordAlphabet(keyword), n);
  }

  /** Upper-case text is over any key square. */
  lemma UpperOverSquare(keyword: string, s: string)
    requires AllUpper(s)
    ensures Playfair.AllInGrid(Square(keyword), s)
  {
    PlayfairKeyIsKey25(keyword);
    forall i | 0 <= i < |s| ensures Playfair.InGrid(Square(keyword), s[i]) {
      Playfair.KeySquareFindsEveryLetter(PlayfairKey(keyword), s[i]);
    }
  }

  /** encrypt: keyword substitution, digraph preparation, Playfair encryption. */
  function Encrypted(keyword: string, plain: string): (r: string)
    ensures |r| % 2 == 0
  {
    var prepared := Prepare(KeywordEncrypted(keyword, plain));
    PrepareProperties(KeywordEncrypted(keyword, plain));
    UpperOverSquare(keyword, prepared);
    Playfair.Encrypt(Square(keyword), prepared)
  }

  /** decrypt: Playfair decryption, then keyword substitution inverted. */
  function Decrypted(keyword: string, cipher: string): (r: string)
    requires |cipher| % 2 == 0 && Playfair.AllInGrid(Square(keyword), cipher)
    ensures |r| <= |cipher|
  {
    KeywordDecrypted(keyword, Playfair.Decrypt(Square(keyword), cipher))
  }

  /**
   * The composed cipher: decrypt(encrypt(p)) is keywordDecrypt applied to the
   * prepared substituted text: preparation is the only step not undone.
   */
  lemma CipherRoundTrip(keyword: string, plain: string)
    ensures var c := Encrypted(keyword, plain);
      |c| % 2 == 0 && Playfair.AllInGrid(Square(keyword), c) &&
      Decrypted(keyword, c) == KeywordDecrypted(keyword, Prepare(KeywordEncrypted(keyword, plain)))
  {
    var stage1 := KeywordEncrypted(keyword, plain);
    var prepared := Prepare(stage1);
    PrepareProperties(stage1);
    UpperOverSquare(keyword, prepared);
    Playfair.DecryptEncrypt(Square(keyword), prepared);
  }

  /**
   * When the substituted text has even length, no J and no doubled digraph,
   * decrypt(encrypt(p)) gives back p's letters, upper-cased.
   */
  lemma CipherRoundTripExact(keyword: string, plain: string)
    requires var s := KeywordEncrypted(keyword, plain);
      |s| % 2 == 0 && NoDoubledDigraph(s) && forall i :: 0 <= i < |s| ==> s[i] != 'J'
    ensures var c := Encrypted(keyword, plain);
      |c| % 2 == 0 && Playfair.AllInGrid(Square(keyword), c) && Decrypted(keyword, c) == Normalize(plain)
  {
    CipherRoundTrip(keyword, plain);
    KeywordEncryptedUpper(keyword, plain);
    PrepareIdentity(KeywordEncrypted(keyword, plain));
    KeywordRoundTrip(keyword, plain);
  }
}
