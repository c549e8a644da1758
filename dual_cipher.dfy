/**
 * The DualCipher class: a keyword field and a 5x5 character grid that setKeyword
 * rewrites, and the substitution and Playfair operations that read them. Each
 * method keeps the loops of the C++ code it models. The keyword, substitution
 * and preparation methods are proved equal to functions of module CipherSpec;
 * the grid building, lookup and digraph methods and the two Playfair loops are
 * proved equal to functions of module Playfair. The properties of those
 * functions (permutation, round trips) are proved in their modules.
 */
module Cipher {
  import opened Letters
  import Playfair
  import opened CipherSpec

  /** The cells of a 5x5 character array, row by row. */
  function Cells(a: array2<char>): (g: Playfair.Grid)
    requires a.Length0 == 5 && a.Length1 == 5
    reads a
    ensures Playfair.IsGrid(g)
    ensures forall r, c :: 0 <= r < 5 && 0 <= c < 5 ==> g[r][c] == a[r, c]
  {
    seq(5, r requires 0 <= r < 5 reads a => seq(5, c requires 0 <= c < 5 reads a => a[r, c]))
  }

  class DualCipher {
    /** The normalised keyword (upper-case letters only once set). */
    var keyword: string
    /** The Playfair key square. */
    const playfairGrid: array2<char>

    ghost predicate Valid()
      reads this
    {
      playfairGrid.Length0 == 5 && playfairGrid.Length1 == 5
    }

    ghost function Grid(): (g: Playfair.Grid)
      requires Valid()
      reads this, playfairGrid
      ensures Playfair.IsGrid(g)
    {
      Cells(playfairGrid)
    }

    /** The grid is the key square of the current keyword, as setKeyword leaves it. */
    ghost predicate Keyed()
      requires Valid()
      reads this, playfairGrid
    {
      Grid() == Square(keyword)
    }

    /** The default constructor: empty keyword, a grid of its own not yet built. */
    constructor ()
      ensures Valid() && keyword == []
      ensures fresh(playfairGrid)
    {
      keyword := [];
      playfairGrid := new char[5, 5];
    }

    /** normalizeLetters */
    static method NormalizeLetters(s: string) returns (out: string)
      ensures out == Normalize(s)
    {
      out := [];
      var i := 0;
      while i < |s|
        invariant 0 <= i <= |s|
        invariant out == Normalize(s[..i])
      {
        var ch := s[i];
        assert s[..i + 1][..i] == s[..i];
        if IsAlpha(ch) {
          out := out + [ToUpper(ch)];
        }
        i := i + 1;
      }
      assert s[..|s|] == s;
    }

    /** buildKeywordAlphabet */
    method BuildKeywordAlphabet(rawKey: string) returns (temp: string)
      ensures temp == KeywordAlphabet(rawKey)
    {
      // upper-case a copy of the key in place
      var key := rawKey;
      var i := 0;
      while i < |key|
        invariant 0 <= i <= |key| == |rawKey|
        invariant forall k :: 0 <= k < i ==> key[k] == ToUpper(rawKey[k])
        invariant forall k :: i <= k < |key| ==> key[k] == rawKey[k]
      {
        key := key[i := ToUpper(key[i])];
        i := i + 1;
      }
      assert key == Upper(rawKey);
      // keyword letters first, without repeats
      temp := [];
      i := 0;
      while i < |key|
        invariant 0 <= i <= |key|
        invariant temp == Dedup(key[..i])
      {
        var c := key[i];
        assert key[..i + 1][..i] == key[..i];
        if IsAlpha(c) && c !in temp {
          temp := temp + [c];
        }
        i := i + 1;
      }
      assert key[..|key|] == key;
      // then the remaining letters A..Z
      var acc := temp;
      var k := 0;
      while k < 26
        invariant 0 <= k <= 26
        invariant temp == Fill(acc, ALPHA[..k])
      {
        var c := ('A' as int + k) as char;
        AlphaPrefixStep(k);
        FillAppend(acc, ALPHA[..k], c);
        if c !in temp {
          temp := temp + [c];
        }
        k := k + 1;
      }
      assert ALPHA[..26] == ALPHA;
    }

    /**
     * The first half of buildPlayfairGrid: the keyword's letters (upper-cased, J as
     * I, first occurrences only), then the other letters of A..Z except J.
     */
    static method GridKey(keyword: string) returns (key: string)
      ensures key == PlayfairKey(keyword) && |key| == 25
    {
      key := [];
      var i := 0;
      while i < |keyword|
        invariant 0 <= i <= |keyword|
        invariant key == Dedup(Merged(keyword[..i]))
      {
        var c := ToUpper(keyword[i]);
        if c == 'J' { c := 'I'; }
        assert keyword[..i + 1][..i] == keyword[..i];
        assert Merged(keyword[..i + 1])[..i] == Merged(keyword[..i]);
        if IsAlpha(c) && c !in key {
          key := key + [c];
        }
        i := i + 1;
      }
      assert keyword[..|keyword|] == keyword;
      var acc := key;
      var k := 0;
      assert WithoutJ(ALPHA[..0]) == [];
      while k < 26
        invariant 0 <= k <= 26
        invariant key == Fill(acc, WithoutJ(ALPHA[..k]))
      {
        var c := ('A' as int + k) as char;
        ghost var w := WithoutJ(ALPHA[..k]);
        AlphaPrefixStep(k);
        WithoutJAppend(ALPHA[..k], c);
        if c == 'J' {
          assert WithoutJ(ALPHA[..k + 1]) == w;
          k := k + 1;
          continue;
        }
        assert WithoutJ(ALPHA[..k + 1]) == w + [c];
        FillAppend(acc, w, c);
        if c !in key {
          key := key + [c];
        }
        k := k + 1;
      }
      assert ALPHA[..26] == ALPHA;
      PlayfairKeyIsKey25(keyword);
    }

    /** buildPlayfairGrid: lay out the keyword's Playfair key row-major. */
    method BuildPlayfairGrid()
      requires Valid()
      modifies playfairGrid
      ensures Valid() && Keyed()
    {
      var key := GridKey(keyword);
      Populate(key);
    }

    /** The second half of buildPlayfairGrid: key[5 * r + c] goes to row r, column c. */
    method Populate(key: string)
      requires Valid() && |key| == 25
      modifies playfairGrid
      ensures Valid() && Grid() == Playfair.GridOf(key)
    {
      var idx := 0;
      var r := 0;
      while r < 5
        invariant 0 <= r <= 5 && idx == 5 * r
        invariant forall r', c' :: 0 <= r' < r && 0 <= c' < 5 ==> playfairGrid[r', c'] == key[5 * r' + c']
      {
        var c := 0;
        while c < 5
          invariant 0 <= c <= 5 && idx == 5 * r + c
          invariant forall r', c' :: 0 <= r' < r && 0 <= c' < 5 ==> playfairGrid[r', c'] == key[5 * r' + c']
          invariant forall c' :: 0 <= c' < c ==> playfairGrid[r, c'] == key[5 * r + c']
        {
          playfairGrid[r, c] := key[idx];
          idx := idx + 1;
          c := c + 1;
        }
        r := r + 1;
      }
      Playfair.SameCells(Grid(), Playfair.GridOf(key));
    }

    /** findPosInGrid: (r, c) of the letter (J looked up as I), or (-1, -1) when it is absent. */
    method FindPosInGrid(ch: char) returns (r: int, c: int)
      requires Valid()
      ensures Playfair.Locate(Grid(), ch).Some? ==>
        r == Playfair.Locate(Grid(), ch).value.r && c == Playfair.Locate(Grid(), ch).value.c
      ensures Playfair.Locate(Grid(), ch).None? ==> r == -1 && c == -1
    {
      var x := if ch == 'J' then 'I' else ch;
      r := 0;
      while r < 5
        invariant 0 <= r <= 5
        invariant forall r', c' :: 0 <= r' < r && 0 <= c' < 5 ==> playfairGrid[r', c'] != x
      {
        c := 0;
        while c < 5
          invariant 0 <= c <= 5
          invariant forall c' :: 0 <= c' < c ==> playfairGrid[r, c'] != x
        {
          if playfairGrid[r, c] == x {
            var p := Playfair.Locate(Grid(), ch).value;
            Playfair.LocateIsFirst(Grid(), ch);
            assert !Playfair.Before(r, c, p);
            return;
          }
          c := c + 1;
        }
        r := r + 1;
      }
      return -1, -1;
    }

    /** The body of playfairEncryptPrepared's loop: one digraph by the three Playfair rules. */
    method EncryptDigraph(a: char, b: char) returns (pair: string)
      requires Valid() && Playfair.InGrid(Grid(), a) && Playfair.InGrid(Grid(), b)
      ensures pair == Playfair.EncryptPair(Grid(), a, b)
    {
      var r1, c1 := FindPosInGrid(a);
      var r2, c2 := FindPosInGrid(b);
      if r1 == r2 {
        pair := [playfairGrid[r1, (c1 + 1) % 5], playfairGrid[r2, (c2 + 1) % 5]];
      } else if c1 == c2 {
        pair := [playfairGrid[(r1 + 1) % 5, c1], playfairGrid[(r2 + 1) % 5, c2]];
      } else {
        pair := [playfairGrid[r1, c2], playfairGrid[r2, c1]];
      }
    }

    /** The body of playfairDecryptCipher's loop: one digraph by the inverse rules. */
    method DecryptDigraph(a: char, b: char) returns (pair: string)
      requires Valid() && Playfair.InGrid(Grid(), a) && Playfair.InGrid(Grid(), b)
      ensures pair == Playfair.DecryptPair(Grid(), a, b)
    {
      var r1, c1 := FindPosInGrid(a);
      var r2, c2 := FindPosInGrid(b);
      if r1 == r2 {
        pair := [playfairGrid[r1, (c1 + 4) % 5], playfairGrid[r2, (c2 + 4) % 5]];
      } else if c1 == c2 {
        pair := [playfairGrid[(r1 + 4) % 5, c1], playfairGrid[(r2 + 4) % 5, c2]];
      } else {
        pair := [playfairGrid[r1, c2], playfairGrid[r2, c1]];
      }
    }

    /** playfairEncryptPrepared (assumes even length and grid letters). */
    method PlayfairEncryptPrepared(prepared: string) returns (cipher: string)
      requires Valid() && |prepared| % 2 == 0 && Playfair.AllInGrid(Grid(), prepared)
      ensures cipher == Playfair.Encrypt(Grid(), prepared)
    {
      ghost var g := Grid();
      cipher := [];
      var i := 0;
      while i < |prepared|
        invariant 0 <= i <= |prepared| && i % 2 == 0
        invariant Playfair.AllInGrid(g, prepared[..i])
        invariant cipher == Playfair.Encrypt(g, prepared[..i])
      {
        Playfair.EvenStep(i, |prepared|);
        Playfair.EncryptPrefixStep(g, prepared, i);
        var pair := EncryptDigraph(prepared[i], prepared[i + 1]);
        cipher := cipher + pair;
        i := i + 2;
      }
      assert prepared[..|prepared|] == prepared;
    }

    /** playfairDecryptCipher (cipher length must be even). */
    method PlayfairDecryptCipher(cipher: string) returns (plain: string)
      requires Valid() && |cipher| % 2 == 0 && Playfair.AllInGrid(Grid(), cipher)
      ensures plain == Playfair.Decrypt(Grid(), cipher)
    {
      ghost var g := Grid();
      plain := [];
      var i := 0;
      while i < |cipher|
        invariant 0 <= i <= |cipher| && i % 2 == 0
        invariant Playfair.AllInGrid(g, cipher[..i])
        invariant plain == Playfair.Decrypt(g, cipher[..i])
      {
        Playfair.EvenStep(i, |cipher|);
        Playfair.DecryptPrefixStep(g, cipher, i);
        var pair := DecryptDigraph(cipher[i], cipher[i + 1]);
        plain := plain + pair;
        i := i + 2;
      }
      assert cipher[..|cipher|] == cipher;
    }

    /** setKeyword: keep the keyword's letters, upper-cased, then rebuild the grid. */
    method SetKeyword(k: string)
      requires Valid()
      modifies this, playfairGrid
      ensures Valid() && keyword == Normalize(k) && Keyed()
    {
      keyword := [];
      var i := 0;
      while i < |k|
        invariant 0 <= i <= |k|
        invariant keyword == Normalize(k[..i])
      {
        assert k[..i + 1][..i] == k[..i];
        if IsAlpha(k[i]) {
          keyword := keyword + [ToUpper(k[i])];
        }
        i := i + 1;
      }
      assert k[..|k|] == k;
      BuildPlayfairGrid();
    }

    /** keywordEncrypt: plaintext letters through the keyword alphabet. */
    method KeywordEncrypt(plain: string) returns (out: string)
      ensures out == KeywordEncrypted(keyword, plain)
    {
      var cleaned := NormalizeLetters(plain);
      var alphabet := BuildKeywordAlphabet(keyword);
      KeywordAlphabetIsAlph26(keyword);
      out := [];
      var i := 0;
      while i < |cleaned|
        invariant 0 <= i <= |cleaned|
        invariant out == Translate(ALPHA, alphabet, cleaned[..i])
      {
        var c := cleaned[i];
        TranslateStep(ALPHA, alphabet, cleaned, i);
        if c in ALPHA {
          var pos := IndexOf(ALPHA, c);
          out := out + [alphabet[pos]];
        } else {
          out := out + [c];
        }
        i := i + 1;
      }
      assert cleaned[..|cleaned|] == cleaned;
    }

    /** keywordDecrypt: ciphertext letters back through the keyword alphabet. */
    method KeywordDecrypt(cipher: string) returns (out: string)
      ensures out == KeywordDecrypted(keyword, cipher)
    {
      var cleaned := NormalizeLetters(cipher);
      var alphabet := BuildKeywordAlphabet(keyword);
      KeywordAlphabetIsAlph26(keyword);
      out := [];
      var i := 0;
      while i < |cleaned|
        invariant 0 <= i <= |cleaned|
        invariant out == Translate(alphabet, ALPHA, cleaned[..i])
      {
        var c := cleaned[i];
        TranslateStep(alphabet, ALPHA, cleaned, i);
        if c in alphabet {
          var pos := IndexOf(alphabet, c);
          out := out + [ALPHA[pos]];
        } else {
          out := out + [c];
        }
        i := i + 1;
      }
      assert cleaned[..|cleaned|] == cleaned;
    }

    /** encrypt: keyword substitution, then digraph preparation and Playfair. */
    method Encrypt(plaintext: string) returns (cipher: string)
      requires Valid() && Keyed()
      ensures cipher == Encrypted(keyword, plaintext)
    {
      var stage1 := KeywordEncrypt(plaintext);
      var prepared := PrepareForPlayfair(stage1);
      PrepareProperties(stage1);
      UpperOverSquare(keyword, prepared);
      cipher := PlayfairEncryptPrepared(prepared);
    }

    /** decrypt: Playfair decryption, then keyword substitution back. */
    method Decrypt(ciphertext: string) returns (plain: string)
      requires Valid() && |ciphertext| % 2 == 0 && Playfair.AllInGrid(Grid(), ciphertext)
      ensures plain == KeywordDecrypted(keyword, Playfair.Decrypt(Grid(), ciphertext))
    {
      var stage1 := PlayfairDecryptCipher(ciphertext);
      plain := KeywordDecrypt(stage1);
    }

    /** prepareForPlayfair: clean the text, split doubled digraphs with X, pad with X. */
    static method PrepareForPlayfair(raw: string) returns (out: string)
      ensures out == Prepare(raw)
    {
      var cleaned := CleanLetters(raw);
      out := [];
      var i := 0;
      while i < |cleaned|
        invariant 0 <= i <= |cleaned|
        invariant out + Pairs(cleaned[i..]) == Pairs(cleaned)
      {
        var a := cleaned[i];
        ghost var rest := cleaned[i..];
        out := out + [a];
        if i + 1 < |cleaned| {
          var b := cleaned[i + 1];
          if a == b {
            out := out + ['X'];
            assert rest[1..] == cleaned[i + 1..];
          } else {
            out := out + [b];
            assert rest[2..] == cleaned[i + 2..];
            i := i + 1;
          }
        }
        i := i + 1;
      }
      assert cleaned[i..] == [];
      if |out| % 2 == 1 {
        out := out + ['X'];
      }
    }

    /** prepareForPlayfair's first loop: keep the letters, upper-cased, J as I. */
    static method CleanLetters(raw: string) returns (cleaned: string)
      ensures cleaned == Clean(raw)
    {
      cleaned := [];
      var j := 0;
      while j < |raw|
        invariant 0 <= j <= |raw|
        invariant cleaned == Clean(raw[..j])
      {
        var ch := raw[j];
        assert raw[..j + 1][..j] == raw[..j];
        if IsAlpha(ch) {
          var c := ToUpper(ch);
          if c == 'J' { c := 'I'; }
          cleaned := cleaned + [c];
        }
        j := j + 1;
      }
      assert raw[..|raw|] == raw;
    }
  }

  /**
   * The calls main makes, with the console replaced by parameters: a new cipher
   * is keyed, encrypts the plaintext and decrypts the ciphertext again. The
   * recovered text is the substituted text as prepared for Playfair, substituted
   * back; CipherRoundTripExact says when that is the normalised plaintext.
   */
  method Session(key: string, plaintext: string) returns (ciphertext: string, recovered: string)
    ensures ciphertext == Encrypted(Normalize(key), plaintext)
    ensures |ciphertext| % 2 == 0 && Playfair.AllInGrid(Square(Normalize(key)), ciphertext)
    ensures recovered == KeywordDecrypted(Normalize(key), Prepare(KeywordEncrypted(Normalize(key), plaintext)))
  {
    var dc := new DualCipher();
    dc.SetKeyword(key);
    ciphertext := dc.Encrypt(plaintext);
    CipherRoundTrip(dc.keyword, plaintext);
    recovered := dc.Decrypt(ciphertext);
  }
}
