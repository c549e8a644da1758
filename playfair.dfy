/**
 * The Playfair rules shared by the DualCipher class and the hill-climbing attack:
 * a 5x5 key square laid out row-major from a 25-letter key, letter lookup with J
 * merged into I, and the same-row / same-column / rectangle digraph rules.
 */
module Playfair {
  import opened Letters

  /** A grid as the attack holds it: five rows of five characters. */
  type Grid = seq<seq<char>>

  datatype Pos = Pos(r: int, c: int)

  predicate IsGrid(g: Grid) { |g| == 5 && forall r :: 0 <= r < 5 ==> |g[r]| == 5 }

  /** A proper key square: 5x5, upper-case letters other than J, no letter twice. */
  predicate IsSquare(g: Grid)
  {
    IsGrid(g) &&
    (forall r, c :: 0 <= r < 5 && 0 <= c < 5 ==> IsUpper(g[r][c]) && g[r][c] != 'J') &&
    (forall r1, c1, r2, c2 ::
       0 <= r1 < 5 && 0 <= c1 < 5 && 0 <= r2 < 5 && 0 <= c2 < 5 && g[r1][c1] == g[r2][c2] ==>
         r1 == r2 && c1 == c2)
  }

  /** Row-major layout of a 25-letter key: cell (r, c) holds key[5 * r + c]. */
  function GridOf(key: string): (g: Grid)
    requires |key| == 25
    ensures IsGrid(g)
    ensures forall r, c :: 0 <= r < 5 && 0 <= c < 5 ==> g[r][c] == key[5 * r + c]
  {
    seq(5, i requires 0 <= i < 5 => key[i * 5 .. (i + 1) * 5])
  }

  /** Grids are equal when they agree cell by cell. */
  lemma SameCells(g: Grid, h: Grid)
    requires IsGrid(g) && IsGrid(h)
    requires forall r, c :: 0 <= r < 5 && 0 <= c < 5 ==> g[r][c] == h[r][c]
    ensures g == h
  {
    forall r | 0 <= r < 5 ensures g[r] == h[r] {
      assert forall c :: 0 <= c < 5 ==> g[r][c] == h[r][c];
    }
  }

  /** Two keys with the same grid are the same key. */
  lemma GridOfInjective(k1: string, k2: string)
    requires |k1| == 25 && |k2| == 25
    requires GridOf(k1) == GridOf(k2)
    ensures k1 == k2
  {
    forall i | 0 <= i < 25 ensures k1[i] == k2[i] {
      var r, c := i / 5, i % 5;
      assert 5 * r + c == i;
      assert GridOf(k1)[r][c] == GridOf(k2)[r][c];
    }
  }

  /** A permutation of the 25 letters lays out as a proper key square. */
  lemma GridOfKeyIsSquare(key: string)
    requires IsKey25(key)
    ensures IsSquare(GridOf(key))
  {
    var g := GridOf(key);
    forall r, c | 0 <= r < 5 && 0 <= c < 5 ensures IsUpper(g[r][c]) && g[r][c] != 'J' {
      assert key[5 * r + c] in key;
      Alpha25IsAlphaWithoutJ(key[5 * r + c]);
    }
  }

  /** J is looked up as I. */
  function Canon(ch: char): (r: char)
    ensures r != 'J' && (ch != 'J' ==> r == ch)
  {
    if ch == 'J' then 'I' else ch
  }

  /** The first row, from row r on, that contains x, with x's first column in it. */
  function LocateFromRow(g: Grid, x: char, r: nat): (p: Option<Pos>)
    requires IsGrid(g) && r <= 5
    decreases 5 - r
    ensures p.Some? ==> r <= p.value.r < 5 && 0 <= p.value.c < 5 && g[p.value.r][p.value.c] == x
    ensures p.None? <==> forall r', c' :: r <= r' < 5 && 0 <= c' < 5 ==> g[r'][c'] != x
  {
    if r == 5 then None
    else if x in g[r] then Some(Pos(r, IndexOf(g[r], x)))
    else LocateFromRow(g, x, r + 1)
  }

  /**
   * Lookup of a letter in the grid, J as I: a cell that holds the letter, or None
   * when no cell does (the cell is the first in row-major order: LocateIsFirst).
   */
  function Locate(g: Grid, ch: char): (p: Option<Pos>)
    requires IsGrid(g)
    ensures p.Some? ==> 0 <= p.value.r < 5 && 0 <= p.value.c < 5 && g[p.value.r][p.value.c] == Canon(ch)
    ensures p.None? <==> forall r, c :: 0 <= r < 5 && 0 <= c < 5 ==> g[r][c] != Canon(ch)
  {
    LocateFromRow(g, Canon(ch), 0)
  }

  /** Cell (r', c') comes before p in row-major order. */
  predicate Before(r': int, c': int, p: Pos) { r' < p.r || (r' == p.r && c' < p.c) }

  lemma {:induction false} LocateFromRowIsFirst(g: Grid, x: char, r: nat)
    requires IsGrid(g) && r <= 5 && LocateFromRow(g, x, r).Some?
    ensures forall r', c' :: r <= r' < 5 && 0 <= c' < 5 && Before(r', c', LocateFromRow(g, x, r).value) ==>
      g[r'][c'] != x
    decreases 5 - r
  {
    if x !in g[r] {
      LocateFromRowIsFirst(g, x, r + 1);
    }
  }

  /** The cell Locate returns is the first one, in row-major order, that holds the letter. */
  lemma LocateIsFirst(g: Grid, ch: char)
    requires IsGrid(g) && Locate(g, ch).Some?
    ensures forall r', c' :: 0 <= r' < 5 && 0 <= c' < 5 && Before(r', c', Locate(g, ch).value) ==>
      g[r'][c'] != Canon(ch)
  {
    LocateFromRowIsFirst(g, Canon(ch), 0);
  }

  /** In a proper square every cell is found where it is. */
  lemma LocateCell(g: Grid, r: int, c: int)
    requires IsSquare(g) && 0 <= r < 5 && 0 <= c < 5
    ensures Locate(g, g[r][c]) == Some(Pos(r, c))
  {
    assert Canon(g[r][c]) == g[r][c];
  }

  /** For the square of a permutation key, every upper-case letter is found. */
  lemma KeySquareFindsEveryLetter(key: string, ch: char)
    requires IsKey25(key) && IsUpper(ch)
    ensures Locate(GridOf(key), ch).Some?
  {
    Alpha25IsAlphaWithoutJ(Canon(ch));
    var i := IndexOf(key, Canon(ch));
    var r, c := i / 5, i % 5;
    assert GridOf(key)[r][c] == key[5 * r + c] == Canon(ch);
  }

  predicate InGrid(g: Grid, ch: char) requires IsGrid(g) { Locate(g, ch).Some? }

  predicate AllInGrid(g: Grid, s: string) requires IsGrid(g)
  {
    forall i :: 0 <= i < |s| ==> InGrid(g, s[i])
  }

  /** The next row or column, wrapping (the C++ source's (x + 1) % 5). */
  function Next(x: int): int { (x + 1) % 5 }

  /** The previous row or column, wrapping ((x + 4) % 5 in C++, (x - 1) % 5 in Python). */
  function Prev(x: int): int { (x + 4) % 5 }

  /** Encryption of one digraph: same row shifts right, same column shifts down, else swap columns. */
  function EncryptPair(g: Grid, a: char, b: char): (r: string)
    requires IsGrid(g) && InGrid(g, a) && InGrid(g, b)
    ensures |r| == 2
  {
    var p1, p2 := Locate(g, a).value, Locate(g, b).value;
    if p1.r == p2.r then [g[p1.r][Next(p1.c)], g[p2.r][Next(p2.c)]]
    else if p1.c == p2.c then [g[Next(p1.r)][p1.c], g[Next(p2.r)][p2.c]]
    else [g[p1.r][p2.c], g[p2.r][p1.c]]
  }

  /** Decryption of one digraph: same row shifts left, same column shifts up, else swap columns. */
  function DecryptPair(g: Grid, a: char, b: char): (r: string)
    requires IsGrid(g) && InGrid(g, a) && InGrid(g, b)
    ensures |r| == 2
  {
    var p1, p2 := Locate(g, a).value, Locate(g, b).value;
    if p1.r == p2.r then [g[p1.r][Prev(p1.c)], g[p2.r][Prev(p2.c)]]
    else if p1.c == p2.c then [g[Prev(p1.r)][p1.c], g[Prev(p2.r)][p2.c]]
    else [g[p1.r][p2.c], g[p2.r][p1.c]]
  }

  /** Digraph-by-digraph encryption of an even-length text. */
  function Encrypt(g: Grid, s: string): (r: string)
    requires IsGrid(g) && |s| % 2 == 0 && AllInGrid(g, s)
    ensures |r| == |s|
    decreases |s|
  {
    if s == [] then []
    else Encrypt(g, s[..|s| - 2]) + EncryptPair(g, s[|s| - 2], s[|s| - 1])
  }

  /** Digraph-by-digraph decryption of an even-length text. */
  function Decrypt(g: Grid, s: string): (r: string)
    requires IsGrid(g) && |s| % 2 == 0 && AllInGrid(g, s)
    ensures |r| == |s|
    decreases |s|
  {
    if s == [] then []
    else Decrypt(g, s[..|s| - 2]) + DecryptPair(g, s[|s| - 2], s[|s| - 1])
  }

  /** In a proper square, the output of either rule is again made of grid letters other than J. */
  lemma PairOutputInGrid(g: Grid, a: char, b: char)
    requires IsSquare(g) && InGrid(g, a) && InGrid(g, b)
    ensures forall k :: 0 <= k < 2 ==> InGrid(g, EncryptPair(g, a, b)[k]) && EncryptPair(g, a, b)[k] != 'J'
    ensures forall k :: 0 <= k < 2 ==> InGrid(g, DecryptPair(g, a, b)[k]) && DecryptPair(g, a, b)[k] != 'J'
  {
    EncryptOutputInGrid(g, a, b);
    DecryptOutputInGrid(g, a, b);
  }

  lemma EncryptOutputInGrid(g: Grid, a: char, b: char)
    requires IsSquare(g) && InGrid(g, a) && InGrid(g, b)
    ensures forall k :: 0 <= k < 2 ==> InGrid(g, EncryptPair(g, a, b)[k]) && EncryptPair(g, a, b)[k] != 'J'
  {
  }

  lemma DecryptOutputInGrid(g: Grid, a: char, b: char)
    requires IsSquare(g) && InGrid(g, a) && InGrid(g, b)
    ensures forall k :: 0 <= k < 2 ==> InGrid(g, DecryptPair(g, a, b)[k]) && DecryptPair(g, a, b)[k] != 'J'
  {
  }

  lemma WrapInverse(x: int)
    requires 0 <= x < 5
    ensures 0 <= Next(x) < 5 && 0 <= Prev(x) < 5 && Prev(Next(x)) == x && Next(Prev(x)) == x
  {
  }

  /**
   * Decrypting an encrypted digraph gives it back: the shifts +1 and +4 cancel
   * modulo 5, and the rectangle swap is its own inverse.
   */
  lemma DecryptEncryptPair(g: Grid, a: char, b: char)
    requires IsSquare(g) && InGrid(g, a) && InGrid(g, b) && a != 'J' && b != 'J'
    ensures var e := EncryptPair(g, a, b);
      InGrid(g, e[0]) && InGrid(g, e[1]) && DecryptPair(g, e[0], e[1]) == [a, b]
  {
    var p1, p2 := Locate(g, a).value, Locate(g, b).value;
    assert g[p1.r][p1.c] == a && g[p2.r][p2.c] == b;
    WrapInverse(p1.r); WrapInverse(p1.c); WrapInverse(p2.r); WrapInverse(p2.c);
    var q1, q2;
    if p1.r == p2.r {
      q1, q2 := Pos(p1.r, Next(p1.c)), Pos(p2.r, Next(p2.c));
    } else if p1.c == p2.c {
      q1, q2 := Pos(Next(p1.r), p1.c), Pos(Next(p2.r), p2.c);
    } else {
      q1, q2 := Pos(p1.r, p2.c), Pos(p2.r, p1.c);
    }
    var e := EncryptPair(g, a, b);
    assert e == [g[q1.r][q1.c], g[q2.r][q2.c]];
    LocateCell(g, q1.r, q1.c);
    LocateCell(g, q2.r, q2.c);
  }

  /** Encrypting a decrypted digraph gives it back. */
  lemma EncryptDecryptPair(g: Grid, a: char, b: char)
    requires IsSquare(g) && InGrid(g, a) && InGrid(g, b) && a != 'J' && b != 'J'
    ensures var d := DecryptPair(g, a, b);
      InGrid(g, d[0]) && InGrid(g, d[1]) && EncryptPair(g, d[0], d[1]) == [a, b]
  {
    var p1, p2 := Locate(g, a).value, Locate(g, b).value;
    assert g[p1.r][p1.c] == a && g[p2.r][p2.c] == b;
    WrapInverse(p1.r); WrapInverse(p1.c); WrapInverse(p2.r); WrapInverse(p2.c);
    var q1, q2;
    if p1.r == p2.r {
      q1, q2 := Pos(p1.r, Prev(p1.c)), Pos(p2.r, Prev(p2.c));
    } else if p1.c == p2.c {
      q1, q2 := Pos(Prev(p1.r), p1.c), Pos(Prev(p2.r), p2.c);
    } else {
      q1, q2 := Pos(p1.r, p2.c), Pos(p2.r, p1.c);
    }
    var d := DecryptPair(g, a, b);
    assert d == [g[q1.r][q1.c], g[q2.r][q2.c]];
    LocateCell(g, q1.r, q1.c);
    LocateCell(g, q2.r, q2.c);
  }

  /** Text over the square's letters: every character found, none of them J. */
  predicate OverSquare(g: Grid, s: string) requires IsGrid(g)
  {
    AllInGrid(g, s) && forall i :: 0 <= i < |s| ==> s[i] != 'J'
  }

  /** Dropping the last digraph keeps a text inside the grid. */
  lemma FrontInGrid(g: Grid, s: string)
    requires IsGrid(g) && |s| >= 2 && AllInGrid(g, s)
    ensures AllInGrid(g, s[..|s| - 2])
  {
    var front := s[..|s| - 2];
    forall i | 0 <= i < |front| ensures InGrid(g, front[i]) {
      assert front[i] == s[i];
    }
  }

  /** One more digraph of a left-to-right pass: the prefix through it is encrypted by appending its pair. */
  lemma EncryptPrefixStep(g: Grid, s: string, i: int)
    requires IsGrid(g) && AllInGrid(g, s) && 0 <= i && i + 2 <= |s| && i % 2 == 0
    ensures InGrid(g, s[i]) && InGrid(g, s[i + 1])
    ensures AllInGrid(g, s[..i]) && AllInGrid(g, s[..i + 2])
    ensures Encrypt(g, s[..i + 2]) == Encrypt(g, s[..i]) + EncryptPair(g, s[i], s[i + 1])
  {
    PrefixInGrid(g, s, i + 2);
    FrontInGrid(g, s[..i + 2]);
    assert s[..i + 2][..i] == s[..i];
  }

  /** The decryption counterpart of EncryptPrefixStep. */
  lemma DecryptPrefixStep(g: Grid, s: string, i: int)
    requires IsGrid(g) && AllInGrid(g, s) && 0 <= i && i + 2 <= |s| && i % 2 == 0
    ensures InGrid(g, s[i]) && InGrid(g, s[i + 1])
    ensures AllInGrid(g, s[..i]) && AllInGrid(g, s[..i + 2])
    ensures Decrypt(g, s[..i + 2]) == Decrypt(g, s[..i]) + DecryptPair(g, s[i], s[i + 1])
  {
    PrefixInGrid(g, s, i + 2);
    FrontInGrid(g, s[..i + 2]);
    assert s[..i + 2][..i] == s[..i];
  }

  /** Stepping an even index by a digraph stays within an even length. */
  lemma EvenStep(i: int, n: int)
    requires 0 <= i < n && i % 2 == 0 && n % 2 == 0
    ensures i + 2 <= n && (i + 2) % 2 == 0
  {
  }

  lemma PrefixInGrid(g: Grid, s: string, n: int)
    requires IsGrid(g) && AllInGrid(g, s) && 0 <= n <= |s|
    ensures AllInGrid(g, s[..n])
  {
    forall i | 0 <= i < n ensures InGrid(g, s[..n][i]) {
      assert s[..n][i] == s[i];
    }
  }

  /** Text over a proper square is upper-case. */
  lemma SquareLettersUpper(g: Grid, s: string)
    requires IsSquare(g) && OverSquare(g, s)
    ensures AllUpper(s)
  {
    forall i | 0 <= i < |s| ensures IsUpper(s[i]) {
      var p := Locate(g, s[i]).value;
      assert g[p.r][p.c] == s[i];
    }
  }

  /** Encryption maps even-length text inside the square to text over the square, without J. */
  lemma {:induction false} EncryptOverSquare(g: Grid, s: string)
    requires IsSquare(g) && |s| % 2 == 0 && AllInGrid(g, s)
    ensures OverSquare(g, Encrypt(g, s))
    decreases |s|
  {
    if s != [] {
      var n := |s|;
      FrontInGrid(g, s);
      var front := s[..n - 2];
      EncryptOverSquare(g, front);
      PairOutputInGrid(g, s[n - 2], s[n - 1]);
      var ef, ep := Encrypt(g, front), EncryptPair(g, s[n - 2], s[n - 1]);
      var e := Encrypt(g, s);
      assert e == ef + ep;
      forall i | 0 <= i < n ensures InGrid(g, e[i]) && e[i] != 'J' {
        if i < n - 2 { assert e[i] == ef[i]; } else { assert e[i] == ep[i - (n - 2)]; }
      }
    }
  }

  /** Decryption maps even-length text inside the square to text over the square, without J. */
  lemma {:induction false} DecryptOverSquare(g: Grid, s: string)
    requires IsSquare(g) && |s| % 2 == 0 && AllInGrid(g, s)
    ensures OverSquare(g, Decrypt(g, s))
    decreases |s|
  {
    if s != [] {
      var n := |s|;
      FrontInGrid(g, s);
      var front := s[..n - 2];
      DecryptOverSquare(g, front);
      PairOutputInGrid(g, s[n - 2], s[n - 1]);
      var df, dp := Decrypt(g, front), DecryptPair(g, s[n - 2], s[n - 1]);
      var d := Decrypt(g, s);
      assert d == df + dp;
      forall i | 0 <= i < n ensures InGrid(g, d[i]) && d[i] != 'J' {
        if i < n - 2 { assert d[i] == df[i]; } else { assert d[i] == dp[i - (n - 2)]; }
      }
    }
  }

  lemma SplitLastPair(s: string)
    requires |s| >= 2
    ensures s == s[..|s| - 2] + [s[|s| - 2], s[|s| - 1]]
  {
  }

  /** Dropping the last digraph keeps a text over the square. */
  lemma FrontOverSquare(g: Grid, s: string)
    requires IsGrid(g) && |s| >= 2 && OverSquare(g, s)
    ensures OverSquare(g, s[..|s| - 2])
  {
    FrontInGrid(g, s);
    var front := s[..|s| - 2];
    forall i | 0 <= i < |front| ensures front[i] != 'J' {
      assert front[i] == s[i];
    }
  }

  /** Encryption of a text is that of all but its last digraph, followed by the last digraph's. */
  lemma EncryptOfSplit(g: Grid, s: string)
    requires IsGrid(g) && |s| >= 2 && |s| % 2 == 0 && AllInGrid(g, s)
    ensures AllInGrid(g, s[..|s| - 2])
    ensures Encrypt(g, s) == Encrypt(g, s[..|s| - 2]) + EncryptPair(g, s[|s| - 2], s[|s| - 1])
  {
    FrontInGrid(g, s);
  }

  /** Decryption of a text is that of all but its last digraph, followed by the last digraph's. */
  lemma DecryptOfSplit(g: Grid, s: string)
    requires IsGrid(g) && |s| >= 2 && |s| % 2 == 0 && AllInGrid(g, s)
    ensures AllInGrid(g, s[..|s| - 2])
    ensures Decrypt(g, s) == Decrypt(g, s[..|s| - 2]) + DecryptPair(g, s[|s| - 2], s[|s| - 1])
  {
    FrontInGrid(g, s);
  }

  /** Playfair round trip: decryption undoes encryption on any even-length text over the square. */
  lemma {:induction false} DecryptEncrypt(g: Grid, p: string)
    requires IsSquare(g) && |p| % 2 == 0 && OverSquare(g, p)
    ensures OverSquare(g, Encrypt(g, p)) && Decrypt(g, Encrypt(g, p)) == p
    decreases |p|
  {
    EncryptOverSquare(g, p);
    if p != [] {
      var n := |p|;
      var front := p[..n - 2];
      FrontOverSquare(g, p);
      DecryptEncrypt(g, front);
      DecryptEncryptPair(g, p[n - 2], p[n - 1]);
      var e, ef, ep := Encrypt(g, p), Encrypt(g, front), EncryptPair(g, p[n - 2], p[n - 1]);
      assert e == ef + ep;
      assert e[..n - 2] == ef;
      assert e[n - 2] == ep[0] && e[n - 1] == ep[1];
      DecryptOfSplit(g, e);
      SplitLastPair(p);
    }
  }

  /** The other direction: encryption undoes decryption. */
  lemma {:induction false} EncryptDecrypt(g: Grid, c: string)
    requires IsSquare(g) && |c| % 2 == 0 && OverSquare(g, c)
    ensures OverSquare(g, Decrypt(g, c)) && Encrypt(g, Decrypt(g, c)) == c
    decreases |c|
  {
    DecryptOverSquare(g, c);
    if c != [] {
      var n := |c|;
      var front := c[..n - 2];
      FrontOverSquare(g, c);
      EncryptDecrypt(g, front);
      EncryptDecryptPair(g, c[n - 2], c[n - 1]);
      var d, df, dp := Decrypt(g, c), Decrypt(g, front), DecryptPair(g, c[n - 2], c[n - 1]);
      assert d == df + dp;
      assert d[..n - 2] == df;
      assert d[n - 2] == dp[0] && d[n - 1] == dp[1];
      EncryptOfSplit(g, d);
      SplitLastPair(c);
    }
  }
}
