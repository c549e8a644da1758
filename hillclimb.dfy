/**
 * The hill-climbing attack on the dual cipher. A candidate key is a 26-letter
 * substitution alphabet and a 25-letter row-major Playfair key; a candidate is
 * scored by decrypting the ciphertext with it and summing digraph weights, plus a
 * bonus for agreeing with a known plaintext snippet. The random choices of the
 * search (initial permutations, swap positions, the 0.6 and 0.001 coins) are
 * inputs here. Scores are exact rationals.
 */
module HillClimb {
  import opened Letters
  import Playfair
  import CipherSpec

  // ---------------------------------------------------------------------------
  // Scoring
  // ---------------------------------------------------------------------------

  /** Digraph weights of common English digraphs. */
  const EN_DIG: map<string, real> := map[
    "TH" := 2.71, "HE" := 2.33, "IN" := 2.03, "ER" := 1.78, "AN" := 1.61, "RE" := 1.41,
    "ON" := 1.32, "AT" := 1.24, "EN" := 1.13, "ND" := 1.07, "TI" := 0.99, "ES" := 0.99,
    "OR" := 0.98, "TE" := 0.97, "OF" := 0.97, "ED" := 0.94, "IS" := 0.93, "IT" := 0.89,
    "AL" := 0.88, "AR" := 0.85, "ST" := 0.83, "TO" := 0.76, "NT" := 0.76, "NG" := 0.73]

  /** The weight of a digraph missing from the table. */
  const FALLBACK: real := 0.01

  /** The weight of a full known-plaintext match, as the search scores candidates. */
  const KNOWN_WEIGHT: real := 50.0

  /** The table lookup with the fallback; every weight lies between the fallback and TH's. */
  function Weight(dg: string): (w: real)
    ensures FALLBACK <= w <= 2.71
  {
    if dg in EN_DIG then EN_DIG[dg] else FALLBACK
  }

  /** The number of digraphs of a text: len(text) - 1 terms, none for the empty text. */
  function Terms(t: string): nat
  {
    if |t| == 0 then 0 else |t| - 1
  }

  /** The weights of the first n digraphs t[0..2], t[1..3], ... added up. */
  function DigraphSum(t: string, n: nat): (r: real)
    requires n == 0 || n < |t|
    ensures r >= 0.0
    decreases n
  {
    if n == 0 then 0.0 else DigraphSum(t, n - 1) + Weight(t[n - 1..n + 1])
  }

  /** Each of the n terms lies between the fallback and the largest table weight. */
  lemma {:induction false} DigraphSumBounds(t: string, n: nat)
    requires n == 0 || n < |t|
    ensures FALLBACK * n as real <= DigraphSum(t, n) <= 2.71 * n as real
    decreases n
  {
    if n > 0 {
      DigraphSumBounds(t, n - 1);
    }
  }

  /** Python's normalisation of a slice bound against a sequence of length n. */
  function SliceBound(i: int, n: nat): (k: nat)
    ensures k <= n
    ensures 0 <= i <= n ==> k == i
  {
    if i < 0 then (if i + n < 0 then 0 else i + n) else if i > n then n else i
  }

  /** Python's t[lo:hi], negative and out-of-range bounds included. */
  function Slice(t: string, lo: int, hi: int): (s: string)
    ensures 0 <= lo <= hi <= |t| ==> s == t[lo..hi]
    ensures |s| <= |t|
  {
    var a, b := SliceBound(lo, |t|), SliceBound(hi, |t|);
    if a < b then t[a..b] else []
  }

  /** The number of positions where a and b agree, over the shorter of the two (zip). */
  function Matches(a: string, b: string): (m: nat)
    ensures m <= |a| && m <= |b|
  {
    if a == [] || b == [] then 0 else (if a[0] == b[0] then 1 else 0) + Matches(a[1..], b[1..])
  }

  lemma {:induction false} MatchesSelf(a: string)
    ensures Matches(a, a) == |a|
  {
    if a != [] {
      MatchesSelf(a[1..]);
    }
  }

  /** The known-plaintext bonus: the fraction of snippet letters matched at pos, times the weight. */
  function HintBonus(text: string, snippet: string, pos: int, weight: real): (r: real)
    ensures weight >= 0.0 ==> r >= 0.0
  {
    var seg := Slice(text, pos, pos + |snippet|);
    var denominator := if 1 >= |snippet| then 1 else |snippet|;
    (Matches(seg, snippet) as real / denominator as real) * weight
  }

  /** The bonus applies only to a non-empty snippet with a position. */
  predicate HasHint(snippet: Option<string>, pos: Option<int>)
  {
    snippet.Some? && snippet.value != [] && pos.Some?
  }

  /** digraph_score on the specification level. */
  function Score(text: string, snippet: Option<string>, pos: Option<int>, weight: real): real
  {
    DigraphSum(text, Terms(text)) +
      (if HasHint(snippet, pos) then HintBonus(text, snippet.value, pos.value, weight) else 0.0)
  }

  lemma RatioAtMostOne(m: nat, d: nat)
    requires 0 < d && m <= d
    ensures 0.0 <= m as real / d as real <= 1.0
  {
  }

  lemma RatioOfSelf(d: nat)
    requires 0 < d
    ensures d as real / d as real == 1.0
  {
  }

  lemma FractionOfWeight(q: real, w: real)
    requires 0.0 <= q <= 1.0 && w >= 0.0
    ensures 0.0 <= q * w <= w
  {
  }

  /** The bonus never exceeds the weight, and a full match earns all of it. */
  lemma HintBonusBounds(text: string, snippet: string, pos: int, weight: real)
    requires weight >= 0.0
    ensures 0.0 <= HintBonus(text, snippet, pos, weight) <= weight
    ensures 0 <= pos && pos + |snippet| <= |text| && text[pos..pos + |snippet|] == snippet && snippet != [] ==>
      HintBonus(text, snippet, pos, weight) == weight
  {
    var seg := Slice(text, pos, pos + |snippet|);
    var d := if 1 >= |snippet| then 1 else |snippet|;
    var m := Matches(seg, snippet);
    var q := m as real / d as real;
    RatioAtMostOne(m, d);
    assert HintBonus(text, snippet, pos, weight) == q * weight;
    FractionOfWeight(q, weight);
    if 0 <= pos && pos + |snippet| <= |text| && text[pos..pos + |snippet|] == snippet && snippet != [] {
      assert seg == snippet;
      MatchesSelf(snippet);
      assert m == d;
      RatioOfSelf(d);
    }
  }

  /**
   * Bounds of the score: len(text) - 1 terms between 0.01 and 2.71, plus a bonus in
   * [0, weight] only when there is a hint.
   */
  lemma ScoreBounds(text: string, snippet: Option<string>, pos: Option<int>, weight: real)
    requires weight >= 0.0
    ensures FALLBACK * Terms(text) as real <= Score(text, snippet, pos, weight)
    ensures Score(text, snippet, pos, weight) <= 2.71 * Terms(text) as real + (if HasHint(snippet, pos) then weight else 0.0)
    ensures !HasHint(snippet, pos) ==> Score(text, snippet, pos, weight) == DigraphSum(text, Terms(text))
  {
    DigraphSumBounds(text, Terms(text));
    if HasHint(snippet, pos) {
      HintBonusBounds(text, snippet.value, pos.value, weight);
    }
  }

  /** digraph_score: the digraph loop, then the bonus when there is a hint. */
  method DigraphScore(text: string, knownSnippet: Option<string>, knownPos: Option<int>, knownWeight: real)
    returns (s: real)
    ensures s == Score(text, knownSnippet, knownPos, knownWeight)
  {
    s := 0.0;
    var i := 0;
    while i < |text| - 1
      invariant 0 <= i <= Terms(text)
      invariant s == DigraphSum(text, i)
    {
      var dg := text[i..i + 2];
      s := s + Weight(dg);
      i := i + 1;
    }
    if knownSnippet.Some? && knownSnippet.value != [] && knownPos.Some? {
      s := s + HintBonus(text, knownSnippet.value, knownPos.value, knownWeight);
    }
  }

  // ---------------------------------------------------------------------------
  // Playfair decryption and inverse substitution
  // ---------------------------------------------------------------------------

  /** Python's (x - 1) % 5 is the C++ source's (x + 4) % 5 on a grid index. */
  lemma PrevIsMinusOne(x: int)
    requires 0 <= x < 5
    ensures (x - 1) % 5 == Playfair.Prev(x)
  {
  }

  /** playfair_decrypt: the three inverse rules, digraph by digraph, with find_pos as Locate. */
  method PlayfairDecrypt(cipher: string, grid: Playfair.Grid) returns (plain: string)
    requires Playfair.IsGrid(grid) && |cipher| % 2 == 0 && Playfair.AllInGrid(grid, cipher)
    ensures plain == Playfair.Decrypt(grid, cipher)
  {
    plain := [];
    var i := 0;
    while i < |cipher|
      invariant 0 <= i <= |cipher| && i % 2 == 0
      invariant Playfair.AllInGrid(grid, cipher[..i])
      invariant plain == Playfair.Decrypt(grid, cipher[..i])
    {
      Playfair.EvenStep(i, |cipher|);
      Playfair.DecryptPrefixStep(grid, cipher, i);
      var pair := DecryptDigraph(grid, cipher[i], cipher[i + 1]);
      plain := plain + pair;
      i := i + 2;
    }
    assert cipher[..|cipher|] == cipher;
  }

  /** find_pos: the first cell, in row-major order, that holds the letter (J looked up as I), or None. */
  method FindPos(grid: Playfair.Grid, ch: char) returns (p: Option<Playfair.Pos>)
    requires Playfair.IsGrid(grid)
    ensures p == Playfair.Locate(grid, ch)
  {
    var x := if ch == 'J' then 'I' else ch;
    var r := 0;
    while r < 5
      invariant 0 <= r <= 5
      invariant forall r', c' :: 0 <= r' < r && 0 <= c' < 5 ==> grid[r'][c'] != x
    {
      var c := 0;
      while c < 5
        invariant 0 <= c <= 5
        invariant forall c' :: 0 <= c' < c ==> grid[r][c'] != x
      {
        if grid[r][c] == x {
          var q := Playfair.Locate(grid, ch).value;
          Playfair.LocateIsFirst(grid, ch);
          assert !Playfair.Before(r, c, q);
          return Some(Playfair.Pos(r, c));
        }
        c := c + 1;
      }
      r := r + 1;
    }
    return None;
  }

  /** The body of playfair_decrypt's loop; both letters must be in the grid (find_pos must not give None). */
  method DecryptDigraph(grid: Playfair.Grid, a: char, b: char) returns (pair: string)
    requires Playfair.IsGrid(grid) && Playfair.InGrid(grid, a) && Playfair.InGrid(grid, b)
    ensures pair == Playfair.DecryptPair(grid, a, b)
  {
    var q1 := FindPos(grid, a);
    var q2 := FindPos(grid, b);
    var p1, p2 := q1.value, q2.value;
    var r1, c1, r2, c2 := p1.r, p1.c, p2.r, p2.c;
    PrevIsMinusOne(c1);
    PrevIsMinusOne(c2);
    PrevIsMinusOne(r1);
    PrevIsMinusOne(r2);
    if r1 == r2 {
      pair := [grid[r1][(c1 - 1) % 5], grid[r2][(c2 - 1) % 5]];
    } else if c1 == c2 {
      pair := [grid[(r1 - 1) % 5][c1], grid[(r2 - 1) % 5][c2]];
    } else {
      pair := [grid[r1][c2], grid[r2][c1]];
    }
  }

  /** The inverse map of an alphabet: alph[i] goes to ALPHA[i], later entries overriding earlier ones. */
  function InvMap(alph: string): (inv: map<char, char>)
    requires |alph| <= |ALPHA|
    ensures forall c :: c in inv <==> c in alph
    decreases |alph|
  {
    if alph == [] then map[]
    else
      assert forall x :: x in alph <==> x in alph[..|alph| - 1] || x == alph[|alph| - 1];
      InvMap(alph[..|alph| - 1])[alph[|alph| - 1] := ALPHA[|alph| - 1]]
  }

  /** For an alphabet without repeats, the inverse map sends alph[i] back to ALPHA[i]. */
  lemma {:induction false} InvMapInverts(alph: string, i: int)
    requires |alph| <= |ALPHA| && Distinct(alph) && 0 <= i < |alph|
    ensures InvMap(alph)[alph[i]] == ALPHA[i]
    decreases |alph|
  {
    if i < |alph| - 1 {
      var front := alph[..|alph| - 1];
      assert front[i] == alph[i];
      assert alph[i] != alph[|alph| - 1];
      InvMapInverts(front, i);
    }
  }

  /** build_substitution_map_from_alph */
  method BuildSubstitutionMap(alph26: string) returns (inv: map<char, char>)
    requires |alph26| <= |ALPHA|
    ensures inv == InvMap(alph26)
  {
    inv := map[];
    var i := 0;
    while i < |alph26|
      invariant 0 <= i <= |alph26|
      invariant inv == InvMap(alph26[..i])
    {
      assert alph26[..i + 1][..i] == alph26[..i];
      inv := inv[alph26[i] := ALPHA[i]];
      i := i + 1;
    }
    assert alph26[..|alph26|] == alph26;
  }

  /** apply_sub_inv on the specification level: '?' stands for a character the map lacks. */
  function SubInv(s: string, inv: map<char, char>): (r: string)
    ensures |r| == |s|
    ensures forall i :: 0 <= i < |s| ==> r[i] == if s[i] in inv then inv[s[i]] else '?'
    decreases |s|
  {
    if s == [] then []
    else
      var ch := s[|s| - 1];
      SubInv(s[..|s| - 1], inv) + [if ch in inv then inv[ch] else '?']
  }

  /** apply_sub_inv */
  method ApplySubInv(stage1: string, invMap: map<char, char>) returns (out: string)
    ensures out == SubInv(stage1, invMap)
  {
    out := [];
    var i := 0;
    while i < |stage1|
      invariant 0 <= i <= |stage1|
      invariant out == SubInv(stage1[..i], invMap)
    {
      var ch := stage1[i];
      assert stage1[..i + 1][..i] == stage1[..i];
      out := out + [if ch in invMap then invMap[ch] else '?'];
      i := i + 1;
    }
    assert stage1[..|stage1|] == stage1;
  }

  /**
   * For a permutation of A..Z every letter is mapped, so no '?' appears, and the
   * inverse substitution is the keyword decryption's translation back to A..Z.
   */
  lemma SubInvIsTranslate(alph: string, x: string)
    requires IsAlph26(alph) && AllUpper(x)
    ensures SubInv(x, InvMap(alph)) == CipherSpec.Translate(alph, ALPHA, x)
    ensures AllUpper(SubInv(x, InvMap(alph)))
  {
    var r := SubInv(x, InvMap(alph));
    forall i | 0 <= i < |x| ensures r[i] == CipherSpec.Translate(alph, ALPHA, x)[i] && IsUpper(r[i]) {
      CipherSpec.TranslateAt(alph, ALPHA, x, i);
      UpperIsAlpha(x[i]);
      var k := IndexOf(alph, x[i]);
      InvMapInverts(alph, k);
      assert ALPHA[k] in ALPHA;
      UpperIsAlpha(ALPHA[k]);
    }
  }

  // ---------------------------------------------------------------------------
  // Neighbour operators
  // ---------------------------------------------------------------------------

  /** tweak_alph26: swap two distinct positions drawn from range(26). */
  method TweakAlph26(alph: string, i: int, j: int) returns (r: string)
    requires 0 <= i < 26 && 0 <= j < 26 && i != j
    requires i < |alph| && j < |alph|
    ensures |r| == |alph| && r[i] == alph[j] && r[j] == alph[i]
    ensures forall k :: 0 <= k < |alph| && k != i && k != j ==> r[k] == alph[k]
    ensures multiset(r) == multiset(alph)
    ensures IsAlph26(alph) ==> IsAlph26(r) && r[i] != alph[i] && r[j] != alph[j]
  {
    var a := new char[|alph|](k requires 0 <= k < |alph| => alph[k]);
    a[i], a[j] := a[j], a[i];
    r := a[..];
    assert r == Swap(alph, i, j);
    SwapMultiset(alph, i, j);
    if IsAlph26(alph) {
      SwapKeepsPermutation(alph, ALPHA, i, j);
    }
  }

  /** tweak_key25: swap two distinct positions drawn from range(25). */
  method TweakKey25(k25: string, i: int, j: int) returns (r: string)
    requires 0 <= i < 25 && 0 <= j < 25 && i != j
    requires i < |k25| && j < |k25|
    ensures |r| == |k25| && r[i] == k25[j] && r[j] == k25[i]
    ensures forall k :: 0 <= k < |k25| && k != i && k != j ==> r[k] == k25[k]
    ensures multiset(r) == multiset(k25)
    ensures IsKey25(k25) ==> IsKey25(r) && r[i] != k25[i] && r[j] != k25[j]
  {
    var a := new char[|k25|](k requires 0 <= k < |k25| => k25[k]);
    a[i], a[j] := a[j], a[i];
    r := a[..];
    assert r == Swap(k25, i, j);
    SwapMultiset(k25, i, j);
    if IsKey25(k25) {
      SwapKeepsPermutation(k25, ALPHA25, i, j);
    }
  }

  // ---------------------------------------------------------------------------
  // The search
  // ---------------------------------------------------------------------------

  /**
   * The random draws of one iteration: branch is random.random() against 0.6,
   * (i, j) the two distinct indices random.sample draws for the chosen tweak, and
   * accept is random.random() against 0.001.
   */
  datatype Draw = Draw(branch: real, i: int, j: int, accept: real)

  predicate DrawOk(d: Draw)
  {
    0 <= d.i && 0 <= d.j && d.i != d.j &&
    if d.branch < 0.6 then d.i < 26 && d.j < 26 else d.i < 25 && d.j < 25
  }

  /** One restart's draws: random_alph26(), random_key25() and the iterations' draws. */
  datatype Start = Start(alph: string, key: string, draws: seq<Draw>)

  predicate StartOk(st: Start, iterations: int)
  {
    AlphLetters(st.alph) && KeyLetters(st.key) && iterations <= |st.draws| &&
    forall m :: 0 <= m < |st.draws| ==> DrawOk(st.draws[m])
  }

  /** A record (plaintext, score, alph26, key25) as best_local and best_overall hold it. */
  datatype Best = Best(plain: string, score: real, alph: Option<string>, key: Option<string>)

  /**
   * The search's variables during a restart: curr_alph, curr_key, curr_grid and
   * curr_score, cand_key (None until the first Playfair-key tweak) and best_local.
   */
  datatype Climb = Climb(currAlph: string, currKey: string, currGrid: Playfair.Grid, currScore: real,
                         candKey: Option<string>, bestLocal: Best)

  /** A candidate as one iteration builds it before the acceptance test. */
  datatype Candidate = Candidate(alph: string, key: Option<string>, grid: Playfair.Grid, plain: string, score: real)

  /** The result: the ValueError for an odd-length ciphertext, or best_overall. */
  datatype Outcome = OddLength | Found(best: Best)

  /** A grid built by build_grid_from_keystr from some Playfair key. */
  ghost predicate KeyGrid(g: Playfair.Grid)
  {
    exists k :: KeyLetters(k) && g == Playfair.GridOf(k)
  }

  lemma KeyGridOf(k: string)
    requires KeyLetters(k)
    ensures KeyGrid(Playfair.GridOf(k))
  {
    LettersArePermutations(k, k);
  }

  /** Every upper-case letter is found in a key grid, so an upper-case text can be decrypted. */
  lemma KeyGridCovers(g: Playfair.Grid, c: string)
    requires KeyGrid(g) && AllUpper(c)
    ensures Playfair.IsGrid(g) && Playfair.AllInGrid(g, c)
  {
    var k :| KeyLetters(k) && g == Playfair.GridOf(k);
    LettersArePermutations(k, k);
    forall i | 0 <= i < |c| ensures Playfair.InGrid(g, c[i]) {
      Playfair.KeySquareFindsEveryLetter(k, c[i]);
    }
  }

  /** The candidate plaintext for a grid and an alphabet (the evaluation steps of the search). */
  function Decoded(c: string, g: Playfair.Grid, alph: string): (r: string)
    requires AllUpper(c) && |c| % 2 == 0 && KeyGrid(g) && |alph| <= |ALPHA|
    ensures |r| == |c|
  {
    KeyGridCovers(g, c);
    SubInv(Playfair.Decrypt(g, c), InvMap(alph))
  }

  /** Well-formed search variables. */
  ghost predicate Ok(s: Climb)
  {
    AlphLetters(s.currAlph) && KeyLetters(s.currKey) && KeyGrid(s.currGrid) &&
    (s.candKey.Some? ==> KeyLetters(s.candKey.value))
  }

  /** The candidate of one iteration: tweak the alphabet, or tweak the key and rebuild the grid. */
  function Propose(c: string, snip: Option<string>, pos: Option<int>, s: Climb, d: Draw): (k: Candidate)
    requires AllUpper(c) && |c| % 2 == 0 && Ok(s) && DrawOk(d)
    ensures AlphLetters(k.alph) && KeyGrid(k.grid) && (k.key.Some? ==> KeyLetters(k.key.value))
    ensures k.plain == Decoded(c, k.grid, k.alph) && k.score == Score(k.plain, snip, pos, KNOWN_WEIGHT)
    ensures d.branch < 0.6 ==> k.grid == s.currGrid && k.key == s.candKey && k.alph == Swap(s.currAlph, d.i, d.j)
    ensures d.branch >= 0.6 ==>
      k.alph == s.currAlph && k.key == Some(Swap(s.currKey, d.i, d.j)) && k.grid == Playfair.GridOf(k.key.value)
  {
    if d.branch < 0.6 then
      SwapKeepsLetters(s.currAlph, d.i, d.j);
      var alph := Swap(s.currAlph, d.i, d.j);
      var plain := Decoded(c, s.currGrid, alph);
      Candidate(alph, s.candKey, s.currGrid, plain, Score(plain, snip, pos, KNOWN_WEIGHT))
    else
      SwapKeepsLetters(s.currKey, d.i, d.j);
      var key := Swap(s.currKey, d.i, d.j);
      var grid := Playfair.GridOf(key);
      KeyGridOf(key);
      var plain := Decoded(c, grid, s.currAlph);
      Candidate(s.currAlph, Some(key), grid, plain, Score(plain, snip, pos, KNOWN_WEIGHT))
  }

  /** The acceptance rule: a better score, or the 0.001 coin. */
  predicate Accepts(curr: real, cand: real, d: Draw)
  {
    cand > curr || d.accept < 0.001
  }

  /**
   * One iteration. On acceptance curr_key becomes cand_key whenever some key tweak
   * has ever happened, even when this iteration tweaked only the alphabet.
   */
  function Step(c: string, snip: Option<string>, pos: Option<int>, s: Climb, d: Draw): (t: Climb)
    requires AllUpper(c) && |c| % 2 == 0 && Ok(s) && DrawOk(d)
    ensures Ok(t)
  {
    var k := Propose(c, snip, pos, s, d);
    if Accepts(s.currScore, k.score, d) then
      var key := if k.key.Some? then k.key.value else s.currKey;
      var best := if k.score > s.bestLocal.score then Best(k.plain, k.score, Some(k.alph), Some(key)) else s.bestLocal;
      Climb(k.alph, key, k.grid, k.score, k.key, best)
    else
      s.(candKey := k.key)
  }

  /** The iterations of a restart, one draw each. */
  function Run(c: string, snip: Option<string>, pos: Option<int>, s: Climb, ds: seq<Draw>): (t: Climb)
    requires AllUpper(c) && |c| % 2 == 0 && Ok(s) && forall m :: 0 <= m < |ds| ==> DrawOk(ds[m])
    ensures Ok(t)
    decreases |ds|
  {
    if ds == [] then s
    else Step(c, snip, pos, Run(c, snip, pos, s, ds[..|ds| - 1]), ds[|ds| - 1])
  }

  /** The variables at the start of a restart: the drawn alphabet and key, evaluated. */
  function Init(c: string, snip: Option<string>, pos: Option<int>, candKey: Option<string>, st: Start): (t: Climb)
    requires AllUpper(c) && |c| % 2 == 0 && AlphLetters(st.alph) && KeyLetters(st.key)
    requires candKey.Some? ==> KeyLetters(candKey.value)
    ensures Ok(t)
  {
    var grid := Playfair.GridOf(st.key);
    KeyGridOf(st.key);
    var plain := Decoded(c, grid, st.alph);
    var score := Score(plain, snip, pos, KNOWN_WEIGHT);
    Climb(st.alph, st.key, grid, score, candKey, Best(plain, score, Some(st.alph), Some(st.key)))
  }

  /** range(n) has no elements for negative n. */
  function Count(n: int): nat
  {
    if n < 0 then 0 else n
  }

  /** One restart: the initial candidate, then `iterations` steps. */
  function Restart(c: string, iterations: int, snip: Option<string>, pos: Option<int>, candKey: Option<string>,
                   st: Start): (t: Climb)
    requires AllUpper(c) && |c| % 2 == 0 && StartOk(st, iterations)
    requires candKey.Some? ==> KeyLetters(candKey.value)
    ensures Ok(t)
  {
    Run(c, snip, pos, Init(c, snip, pos, candKey, st), st.draws[..Count(iterations)])
  }

  /** The cand_key a restart inherits: the one the previous restart ended with (None before the first). */
  function CarriedKey(os: seq<Climb>): Option<string>
  {
    if os == [] then None else os[|os| - 1].candKey
  }

  /** The final variables of every restart in order; cand_key carries over from one restart to the next. */
  function Outcomes(c: string, iterations: int, snip: Option<string>, pos: Option<int>, ss: seq<Start>): (os: seq<Climb>)
    requires ss != [] ==> AllUpper(c) && |c| % 2 == 0
    requires forall m :: 0 <= m < |ss| ==> StartOk(ss[m], iterations)
    ensures |os| == |ss|
    ensures CarriedKey(os).Some? ==> KeyLetters(CarriedKey(os).value)
    decreases |ss|
  {
    if ss == [] then []
    else
      var front := Outcomes(c, iterations, snip, pos, ss[..|ss| - 1]);
      front + [Restart(c, iterations, snip, pos, CarriedKey(front), ss[|ss| - 1])]
  }

  /** The best_local each restart ends with. */
  function Bests(os: seq<Climb>): (bs: seq<Best>)
    ensures |bs| == |os| && forall m :: 0 <= m < |os| ==> bs[m] == os[m].bestLocal
  {
    seq(|os|, m requires 0 <= m < |os| => os[m].bestLocal)
  }

  /** best_overall before any restart. */
  const NO_RESULT: Best := Best("", -1.0, None, None)

  /** best_overall after the restarts whose best_local records are bs: replaced only by a strictly greater score. */
  function Overall(bs: seq<Best>): (b: Best)
    ensures b == NO_RESULT || b in bs
    decreases |bs|
  {
    if bs == [] then NO_RESULT
    else
      var b := Overall(bs[..|bs| - 1]);
      if bs[|bs| - 1].score > b.score then bs[|bs| - 1] else b
  }

  /** What the caller must supply: an upper-case ciphertext and enough valid draws, when a search runs. */
  predicate AttackInputs(c: string, iterations: int, restarts: int, starts: seq<Start>)
  {
    |c| % 2 == 0 && restarts > 0 ==>
      AllUpper(c) && restarts <= |starts| && forall m :: 0 <= m < restarts ==> StartOk(starts[m], iterations)
  }

  /** hillclimb_attack on the specification level. */
  function Attack(c: string, iterations: int, restarts: int, snip: Option<string>, pos: Option<int>,
                  starts: seq<Start>): Outcome
    requires AttackInputs(c, iterations, restarts, starts)
  {
    if |c| % 2 == 1 then OddLength
    else Found(Overall(Bests(Outcomes(c, iterations, snip, pos, starts[..Count(restarts)]))))
  }

  // ---------------------------------------------------------------------------
  // Properties of the search
  // ---------------------------------------------------------------------------

  /**
   * Under the true key the attack's evaluation is the cipher's decryption: a
   * DualCipher ciphertext is an even-length upper-case text, the keyword's square
   * is a key grid, and decoding with that grid and the keyword alphabet gives what
   * DualCipher's decrypt returns.
   */
  lemma TrueKeyDecodes(keyword: string, plain: string)
    ensures var c := CipherSpec.Encrypted(keyword, plain);
      AllUpper(c) && |c| % 2 == 0 && KeyGrid(CipherSpec.Square(keyword)) &&
      Playfair.AllInGrid(CipherSpec.Square(keyword), c) && IsAlph26(CipherSpec.KeywordAlphabet(keyword)) &&
      Decoded(c, CipherSpec.Square(keyword), CipherSpec.KeywordAlphabet(keyword)) == CipherSpec.Decrypted(keyword, c)
  {
    var g := CipherSpec.Square(keyword);
    var alph := CipherSpec.KeywordAlphabet(keyword);
    var key := CipherSpec.PlayfairKey(keyword);
    var stage1 := CipherSpec.KeywordEncrypted(keyword, plain);
    var prepared := CipherSpec.Prepare(stage1);
    var c := CipherSpec.Encrypted(keyword, plain);
    CipherSpec.PrepareProperties(stage1);
    CipherSpec.UpperOverSquare(keyword, prepared);
    assert c == Playfair.Encrypt(g, prepared);
    Playfair.EncryptOverSquare(g, prepared);
    Playfair.SquareLettersUpper(g, c);
    CipherSpec.PlayfairKeyIsKey25(keyword);
    CipherSpec.KeywordAlphabetIsAlph26(keyword);
    LettersArePermutations(alph, key);
    KeyGridOf(key);
    var d := Playfair.Decrypt(g, c);
    Playfair.DecryptOverSquare(g, c);
    Playfair.SquareLettersUpper(g, d);
    CipherSpec.NormalizeUpper(d);
    SubInvIsTranslate(alph, d);
  }

  /** Scores are never negative, so any restart beats the initial best_overall of -1. */
  lemma ScoreNonnegative(text: string, snip: Option<string>, pos: Option<int>)
    ensures Score(text, snip, pos, KNOWN_WEIGHT) >= 0.0
  {
    ScoreBounds(text, snip, pos, KNOWN_WEIGHT);
  }

  /**
   * A record the search can report: its plaintext is the decryption under its
   * alphabet and under some key grid, and its score is that plaintext's score.
   * The grid need not be the one built from the record's own key25.
   */
  ghost predicate Produced(c: string, snip: Option<string>, pos: Option<int>, b: Best)
    requires AllUpper(c) && |c| % 2 == 0
  {
    b.alph.Some? && b.key.Some? && AlphLetters(b.alph.value) && KeyLetters(b.key.value) &&
    b.score == Score(b.plain, snip, pos, KNOWN_WEIGHT) &&
    exists g :: KeyGrid(g) && b.plain == Decoded(c, g, b.alph.value)
  }

  /** The loop invariant of a restart: curr_score scores curr_grid with curr_alph, and best_local dominates it. */
  ghost predicate Consistent(c: string, snip: Option<string>, pos: Option<int>, s: Climb)
    requires AllUpper(c) && |c| % 2 == 0
  {
    Ok(s) && s.currScore == Score(Decoded(c, s.currGrid, s.currAlph), snip, pos, KNOWN_WEIGHT) &&
    s.currScore <= s.bestLocal.score && Produced(c, snip, pos, s.bestLocal)
  }

  lemma InitConsistent(c: string, snip: Option<string>, pos: Option<int>, candKey: Option<string>, st: Start)
    requires AllUpper(c) && |c| % 2 == 0 && AlphLetters(st.alph) && KeyLetters(st.key)
    requires candKey.Some? ==> KeyLetters(candKey.value)
    ensures Consistent(c, snip, pos, Init(c, snip, pos, candKey, st))
  {
    var t := Init(c, snip, pos, candKey, st);
    assert KeyGrid(t.currGrid) && t.bestLocal.plain == Decoded(c, t.currGrid, st.alph);
  }

  /** Every iteration keeps the invariant. */
  lemma StepConsistent(c: string, snip: Option<string>, pos: Option<int>, s: Climb, d: Draw)
    requires AllUpper(c) && |c| % 2 == 0 && DrawOk(d) && Consistent(c, snip, pos, s)
    ensures Consistent(c, snip, pos, Step(c, snip, pos, s, d))
  {
    var k := Propose(c, snip, pos, s, d);
    if Accepts(s.currScore, k.score, d) && k.score > s.bestLocal.score {
      assert KeyGrid(k.grid) && Step(c, snip, pos, s, d).bestLocal.plain == Decoded(c, k.grid, k.alph);
    }
  }

  /**
   * curr_* change only on acceptance (a better score or the 0.001 coin), and then
   * to the candidate's alphabet, grid and score; cand_key is kept either way.
   */
  lemma StepAcceptance(c: string, snip: Option<string>, pos: Option<int>, s: Climb, d: Draw)
    requires AllUpper(c) && |c| % 2 == 0 && Ok(s) && DrawOk(d)
    ensures var k := Propose(c, snip, pos, s, d);
      var t := Step(c, snip, pos, s, d);
      t.candKey == k.key &&
      (Accepts(s.currScore, k.score, d) ==> t.currAlph == k.alph && t.currGrid == k.grid && t.currScore == k.score) &&
      (!Accepts(s.currScore, k.score, d) ==>
        t.currAlph == s.currAlph && t.currKey == s.currKey && t.currGrid == s.currGrid &&
        t.currScore == s.currScore && t.bestLocal == s.bestLocal)
  {
  }

  /** best_local never decreases, and it changes only to an accepted candidate with a greater score. */
  lemma StepBestMonotone(c: string, snip: Option<string>, pos: Option<int>, s: Climb, d: Draw)
    requires AllUpper(c) && |c| % 2 == 0 && Ok(s) && DrawOk(d)
    ensures var t := Step(c, snip, pos, s, d);
      var k := Propose(c, snip, pos, s, d);
      s.bestLocal.score <= t.bestLocal.score &&
      (t.bestLocal != s.bestLocal ==>
        Accepts(s.currScore, k.score, d) && k.score > s.bestLocal.score && t.bestLocal.plain == k.plain &&
        t.bestLocal.score == k.score && t.bestLocal.alph == Some(k.alph) && t.bestLocal.key == Some(t.currKey))
  {
  }

  /**
   * The stale key of line 163: after a rejected key tweak, an accepted alphabet
   * tweak sets curr_key to the rejected key while curr_grid stays the old grid,
   * so curr_key no longer builds curr_grid. When the accepted candidate also
   * beats best_local, best_local records that stale key.
   */
  lemma StaleKeyAfterRejectedTweak(c: string, snip: Option<string>, pos: Option<int>, s: Climb, d1: Draw, d2: Draw)
    requires AllUpper(c) && |c| % 2 == 0 && Ok(s) && DrawOk(d1) && DrawOk(d2)
    requires s.currGrid == Playfair.GridOf(s.currKey)
    requires d1.branch >= 0.6 && !Accepts(s.currScore, Propose(c, snip, pos, s, d1).score, d1)
    requires var s1 := Step(c, snip, pos, s, d1);
      d2.branch < 0.6 && Accepts(s1.currScore, Propose(c, snip, pos, s1, d2).score, d2)
    ensures var t := Step(c, snip, pos, Step(c, snip, pos, s, d1), d2);
      t.currGrid == s.currGrid && t.currKey == Swap(s.currKey, d1.i, d1.j) &&
      t.currGrid != Playfair.GridOf(t.currKey)
    ensures var s1 := Step(c, snip, pos, s, d1);
      var t := Step(c, snip, pos, s1, d2);
      Propose(c, snip, pos, s1, d2).score > s1.bestLocal.score ==>
        t.bestLocal.key == Some(t.currKey) && t.currGrid != Playfair.GridOf(t.bestLocal.key.value)
  {
    var s1 := Step(c, snip, pos, s, d1);
    var t := Step(c, snip, pos, s1, d2);
    var rejected := Swap(s.currKey, d1.i, d1.j);
    assert s1.candKey == Some(rejected) && s1.currKey == s.currKey && s1.currGrid == s.currGrid;
    assert rejected[d1.i] == s.currKey[d1.j] != s.currKey[d1.i];
    if t.currGrid == Playfair.GridOf(t.currKey) {
      Playfair.GridOfInjective(s.currKey, rejected);
    }
  }

  lemma {:induction false} RunConsistent(c: string, snip: Option<string>, pos: Option<int>, s: Climb, ds: seq<Draw>)
    requires AllUpper(c) && |c| % 2 == 0 && Consistent(c, snip, pos, s)
    requires forall m :: 0 <= m < |ds| ==> DrawOk(ds[m])
    ensures Consistent(c, snip, pos, Run(c, snip, pos, s, ds))
    decreases |ds|
  {
    if ds != [] {
      var front := ds[..|ds| - 1];
      RunConsistent(c, snip, pos, s, front);
      StepConsistent(c, snip, pos, Run(c, snip, pos, s, front), ds[|ds| - 1]);
    }
  }

  /** Within a restart, best_local's score never falls below its score after the initial candidate. */
  lemma {:induction false} RunGrows(c: string, snip: Option<string>, pos: Option<int>, s: Climb, ds: seq<Draw>)
    requires AllUpper(c) && |c| % 2 == 0 && Ok(s)
    requires forall m :: 0 <= m < |ds| ==> DrawOk(ds[m])
    ensures s.bestLocal.score <= Run(c, snip, pos, s, ds).bestLocal.score
    decreases |ds|
  {
    if ds != [] {
      var front := ds[..|ds| - 1];
      RunGrows(c, snip, pos, s, front);
      StepBestMonotone(c, snip, pos, Run(c, snip, pos, s, front), ds[|ds| - 1]);
    }
  }

  /** A restart ends with a reportable best_local, at least as good as its initial candidate. */
  lemma RestartConsistent(c: string, iterations: int, snip: Option<string>, pos: Option<int>,
                          candKey: Option<string>, st: Start)
    requires AllUpper(c) && |c| % 2 == 0 && StartOk(st, iterations)
    requires candKey.Some? ==> KeyLetters(candKey.value)
    ensures Consistent(c, snip, pos, Restart(c, iterations, snip, pos, candKey, st))
    ensures Init(c, snip, pos, candKey, st).bestLocal.score <= Restart(c, iterations, snip, pos, candKey, st).bestLocal.score
  {
    var s := Init(c, snip, pos, candKey, st);
    var ds := st.draws[..Count(iterations)];
    InitConsistent(c, snip, pos, candKey, st);
    RunConsistent(c, snip, pos, s, ds);
    RunGrows(c, snip, pos, s, ds);
  }

  /** All best_local records of os are reportable, with non-negative scores. */
  ghost predicate AllReportable(c: string, snip: Option<string>, pos: Option<int>, os: seq<Climb>)
    requires AllUpper(c) && |c| % 2 == 0
  {
    forall m :: 0 <= m < |os| ==> Produced(c, snip, pos, os[m].bestLocal) && 0.0 <= os[m].bestLocal.score
  }

  lemma AllReportableSnoc(c: string, snip: Option<string>, pos: Option<int>, front: seq<Climb>, t: Climb)
    requires AllUpper(c) && |c| % 2 == 0 && AllReportable(c, snip, pos, front)
    requires Produced(c, snip, pos, t.bestLocal) && 0.0 <= t.bestLocal.score
    ensures AllReportable(c, snip, pos, front + [t])
  {
    var os := front + [t];
    forall m | 0 <= m < |os| ensures Produced(c, snip, pos, os[m].bestLocal) && 0.0 <= os[m].bestLocal.score {
      if m < |front| {
        assert os[m] == front[m];
      }
    }
  }

  /** Every restart's best_local is a reportable record with a non-negative score. */
  lemma {:induction false} OutcomesSound(c: string, iterations: int, snip: Option<string>, pos: Option<int>,
                                         ss: seq<Start>)
    requires AllUpper(c) && |c| % 2 == 0
    requires forall m :: 0 <= m < |ss| ==> StartOk(ss[m], iterations)
    ensures AllReportable(c, snip, pos, Outcomes(c, iterations, snip, pos, ss))
    decreases |ss|
  {
    if ss != [] {
      var n := |ss| - 1;
      var front := Outcomes(c, iterations, snip, pos, ss[..n]);
      var t := Restart(c, iterations, snip, pos, CarriedKey(front), ss[n]);
      assert Outcomes(c, iterations, snip, pos, ss) == front + [t];
      OutcomesSound(c, iterations, snip, pos, ss[..n]);
      RestartConsistent(c, iterations, snip, pos, CarriedKey(front), ss[n]);
      ScoreNonnegative(t.bestLocal.plain, snip, pos);
      AllReportableSnoc(c, snip, pos, front, t);
    }
  }

  /** best_overall is at least the initial record and at least every best_local. */
  lemma {:induction false} OverallDominates(bs: seq<Best>)
    ensures NO_RESULT.score <= Overall(bs).score
    ensures forall m :: 0 <= m < |bs| ==> bs[m].score <= Overall(bs).score
    decreases |bs|
  {
    if bs != [] {
      var n := |bs| - 1;
      OverallDominates(bs[..n]);
      forall m | 0 <= m < n ensures bs[m].score <= Overall(bs).score {
        assert bs[m] == bs[..n][m];
      }
    }
  }

  /**
   * best_overall is replaced only by a strictly greater score: it is the initial
   * record while no best_local beats -1, and otherwise the first best_local that
   * reaches the greatest score.
   */
  lemma {:induction false} OverallIsFirstMaximum(bs: seq<Best>)
    ensures var b := Overall(bs);
      (b == NO_RESULT && forall j :: 0 <= j < |bs| ==> bs[j].score <= NO_RESULT.score) ||
      exists m :: 0 <= m < |bs| && b == bs[m] && NO_RESULT.score < b.score &&
        (forall j :: 0 <= j < m ==> bs[j].score < b.score) &&
        (forall j :: 0 <= j < |bs| ==> bs[j].score <= b.score)
    decreases |bs|
  {
    if bs != [] {
      var n := |bs| - 1;
      var front := bs[..n];
      OverallIsFirstMaximum(front);
      OverallDominates(front);
      var b := Overall(bs);
      var last := bs[n];
      if last.score > Overall(front).score {
        assert b == bs[n];
        forall j | 0 <= j < n ensures bs[j].score < b.score {
          assert bs[j] == front[j];
        }
      } else if Overall(front) == NO_RESULT && forall j :: 0 <= j < n ==> front[j].score <= NO_RESULT.score {
        forall j | 0 <= j < |bs| ensures bs[j].score <= NO_RESULT.score {
          if j < n {
            assert bs[j] == front[j];
          }
        }
      } else {
        var m :| 0 <= m < n && Overall(front) == front[m] && NO_RESULT.score < front[m].score &&
          (forall j :: 0 <= j < m ==> front[j].score < front[m].score) &&
          (forall j :: 0 <= j < n ==> front[j].score <= front[m].score);
        assert b == bs[m];
        forall j | 0 <= j < |bs| ensures bs[j].score <= b.score && (j < m ==> bs[j].score < b.score) {
          if j < n {
            assert bs[j] == front[j];
          }
        }
      }
    }
  }

  /** bs[m] is the first of the records bs with the greatest score. */
  ghost predicate FirstMaximum(bs: seq<Best>, m: int)
  {
    0 <= m < |bs| && (forall j :: 0 <= j < m ==> bs[j].score < bs[m].score) &&
    forall j :: 0 <= j < |bs| ==> bs[j].score <= bs[m].score
  }

  /** Over records with non-negative scores, best_overall is the first of them with the greatest score. */
  lemma OverallIsFirstMaximumOf(bs: seq<Best>)
    requires bs != [] && forall m :: 0 <= m < |bs| ==> 0.0 <= bs[m].score
    ensures exists m :: FirstMaximum(bs, m) && Overall(bs) == bs[m]
  {
    OverallIsFirstMaximum(bs);
    assert 0.0 <= bs[0].score;
    var m :| 0 <= m < |bs| && Overall(bs) == bs[m] && NO_RESULT.score < bs[m].score &&
      (forall j :: 0 <= j < m ==> bs[j].score < bs[m].score) &&
      (forall j :: 0 <= j < |bs| ==> bs[j].score <= bs[m].score);
    assert FirstMaximum(bs, m);
  }

  /**
   * hillclimb_attack's result: an error exactly for odd length; with no restart
   * the initial record; otherwise a reportable record that is the first of the
   * restarts' best_local records with the greatest score.
   */
  lemma AttackResult(c: string, iterations: int, restarts: int, snip: Option<string>, pos: Option<int>,
                     starts: seq<Start>)
    requires AttackInputs(c, iterations, restarts, starts)
    ensures Attack(c, iterations, restarts, snip, pos, starts).OddLength? <==> |c| % 2 == 1
    ensures |c| % 2 == 0 && restarts <= 0 ==> Attack(c, iterations, restarts, snip, pos, starts) == Found(NO_RESULT)
    ensures |c| % 2 == 0 && restarts > 0 ==>
      var b := Attack(c, iterations, restarts, snip, pos, starts).best;
      Produced(c, snip, pos, b) && IsAlph26(b.alph.value) && IsKey25(b.key.value) &&
      exists m :: FirstMaximum(Bests(Outcomes(c, iterations, snip, pos, starts[..restarts])), m) &&
        b == Bests(Outcomes(c, iterations, snip, pos, starts[..restarts]))[m]
  {
    if |c| % 2 == 0 && restarts > 0 {
      var os := Outcomes(c, iterations, snip, pos, starts[..restarts]);
      var bs := Bests(os);
      OutcomesSound(c, iterations, snip, pos, starts[..restarts]);
      forall m | 0 <= m < |bs| ensures Produced(c, snip, pos, bs[m]) && 0.0 <= bs[m].score {
        assert bs[m] == os[m].bestLocal;
      }
      OverallIsFirstMaximumOf(bs);
      var b := Overall(bs);
      var m :| FirstMaximum(bs, m) && b == bs[m];
      assert Produced(c, snip, pos, bs[m]);
      assert Attack(c, iterations, restarts, snip, pos, starts) == Found(b);
      LettersArePermutations(b.alph.value, b.key.value);
    }
  }

  /** One more iteration of a restart. */
  lemma RunSnoc(c: string, snip: Option<string>, pos: Option<int>, s: Climb, ds: seq<Draw>, n: int)
    requires AllUpper(c) && |c| % 2 == 0 && Ok(s) && 0 <= n < |ds|
    requires forall m :: 0 <= m < |ds| ==> DrawOk(ds[m])
    ensures Run(c, snip, pos, s, ds[..n + 1]) == Step(c, snip, pos, Run(c, snip, pos, s, ds[..n]), ds[n])
  {
    assert ds[..n + 1][..n] == ds[..n];
  }

  /** One more restart, inheriting the cand_key the previous ones end with. */
  lemma OutcomesSnoc(c: string, iterations: int, snip: Option<string>, pos: Option<int>, ss: seq<Start>, n: int)
    requires AllUpper(c) && |c| % 2 == 0 && 0 <= n < |ss|
    requires forall m :: 0 <= m <= n ==> StartOk(ss[m], iterations)
    ensures var front := Outcomes(c, iterations, snip, pos, ss[..n]);
      Outcomes(c, iterations, snip, pos, ss[..n + 1]) ==
        front + [Restart(c, iterations, snip, pos, CarriedKey(front), ss[n])]
  {
    assert ss[..n + 1][..n] == ss[..n];
  }

  /** One more restart extends best_overall by the strict comparison. */
  lemma OverallSnoc(os: seq<Climb>, t: Climb)
    ensures Overall(Bests(os + [t])) ==
      if t.bestLocal.score > Overall(Bests(os)).score then t.bestLocal else Overall(Bests(os))
  {
    assert Bests(os + [t])[..|os|] == Bests(os);
  }

  // ---------------------------------------------------------------------------
  // The search as the program runs it
  // ---------------------------------------------------------------------------

  /** The evaluation lines of the search: Playfair decryption, inverse substitution, score. */
  method Evaluate(c: string, grid: Playfair.Grid, alph: string, snip: Option<string>, pos: Option<int>)
    returns (plain: string, score: real)
    requires AllUpper(c) && |c| % 2 == 0 && KeyGrid(grid) && |alph| <= |ALPHA|
    ensures plain == Decoded(c, grid, alph) && score == Score(plain, snip, pos, KNOWN_WEIGHT)
  {
    KeyGridCovers(grid, c);
    var stage1 := PlayfairDecrypt(c, grid);
    var invMap := BuildSubstitutionMap(alph);
    plain := ApplySubInv(stage1, invMap);
    score := DigraphScore(plain, snip, pos, KNOWN_WEIGHT);
  }

  /** One iteration of the inner loop: tweak, evaluate, accept or reject. */
  method Iterate(c: string, snip: Option<string>, pos: Option<int>, s: Climb, d: Draw) returns (t: Climb)
    requires AllUpper(c) && |c| % 2 == 0 && Ok(s) && DrawOk(d)
    ensures t == Step(c, snip, pos, s, d)
  {
    var candAlph, candGrid, candKey := s.currAlph, s.currGrid, s.candKey;
    if d.branch < 0.6 {
      candAlph := TweakAlph26(s.currAlph, d.i, d.j);
      assert candAlph == Swap(s.currAlph, d.i, d.j);
    } else {
      var key := TweakKey25(s.currKey, d.i, d.j);
      assert key == Swap(s.currKey, d.i, d.j);
      candKey := Some(key);
      candGrid := Playfair.GridOf(key);
    }
    ghost var k := Propose(c, snip, pos, s, d);
    assert candAlph == k.alph && candGrid == k.grid && candKey == k.key;
    var candPlain, candScore := Evaluate(c, candGrid, candAlph, snip, pos);
    if candScore > s.currScore || d.accept < 0.001 {
      var currKey := if candKey.Some? then candKey.value else s.currKey;
      var bestLocal := s.bestLocal;
      if candScore > bestLocal.score {
        bestLocal := Best(candPlain, candScore, Some(candAlph), Some(currKey));
      }
      t := Climb(candAlph, currKey, candGrid, candScore, candKey, bestLocal);
    } else {
      t := s.(candKey := candKey);
    }
  }

  /** One restart: draw and evaluate the initial candidate, then run the iterations. */
  method RunRestart(c: string, iterations: int, snip: Option<string>, pos: Option<int>, candKey: Option<string>,
                    st: Start) returns (t: Climb)
    requires AllUpper(c) && |c| % 2 == 0 && StartOk(st, iterations)
    requires candKey.Some? ==> KeyLetters(candKey.value)
    ensures t == Restart(c, iterations, snip, pos, candKey, st)
  {
    var currGrid := Playfair.GridOf(st.key);
    KeyGridOf(st.key);
    var candPlain, currScore := Evaluate(c, currGrid, st.alph, snip, pos);
    t := Climb(st.alph, st.key, currGrid, currScore, candKey, Best(candPlain, currScore, Some(st.alph), Some(st.key)));
    ghost var s0 := t;
    assert s0 == Init(c, snip, pos, candKey, st);
    var it := 0;
    while it < iterations
      invariant 0 <= it <= Count(iterations)
      invariant t == Run(c, snip, pos, s0, st.draws[..it])
    {
      RunSnoc(c, snip, pos, s0, st.draws, it);
      t := Iterate(c, snip, pos, t, st.draws[it]);
      it := it + 1;
    }
    assert it == Count(iterations);
  }

  /** The body of the restarts loop: one restart, then the strict comparison against best_overall. */
  method NextRestart(c: string, iterations: int, snip: Option<string>, pos: Option<int>, starts: seq<Start>, k: int,
                     candKey: Option<string>, bestOverall: Best, ghost os: seq<Climb>)
    returns (candKey': Option<string>, bestOverall': Best, ghost os': seq<Climb>)
    requires AllUpper(c) && |c| % 2 == 0 && 0 <= k < |starts|
    requires forall m :: 0 <= m <= k ==> StartOk(starts[m], iterations)
    requires os == Outcomes(c, iterations, snip, pos, starts[..k])
    requires candKey == CarriedKey(os) && bestOverall == Overall(Bests(os))
    ensures os' == Outcomes(c, iterations, snip, pos, starts[..k + 1])
    ensures candKey' == CarriedKey(os') && bestOverall' == Overall(Bests(os'))
  {
    var t := RunRestart(c, iterations, snip, pos, candKey, starts[k]);
    OutcomesSnoc(c, iterations, snip, pos, starts, k);
    OverallSnoc(os, t);
    bestOverall' := bestOverall;
    if t.bestLocal.score > bestOverall.score {
      bestOverall' := t.bestLocal;
    }
    candKey' := t.candKey;
    os' := os + [t];
  }

  /** hillclimb_attack: the ValueError for odd length, else the restarts and best_overall. */
  method HillclimbAttack(c: string, iterations: int, restarts: int, snip: Option<string>, pos: Option<int>,
                         starts: seq<Start>) returns (r: Outcome)
    requires AttackInputs(c, iterations, restarts, starts)
    ensures r == Attack(c, iterations, restarts, snip, pos, starts)
  {
    var bestOverall := NO_RESULT;
    if |c| % 2 == 1 {
      return OddLength;
    }
    var candKey: Option<string> := None;
    ghost var os: seq<Climb> := [];
    var k := 0;
    while k < restarts
      invariant 0 <= k <= Count(restarts)
      invariant os == Outcomes(c, iterations, snip, pos, starts[..k])
      invariant candKey == CarriedKey(os)
      invariant bestOverall == Overall(Bests(os))
    {
      candKey, bestOverall, os := NextRestart(c, iterations, snip, pos, starts, k, candKey, bestOverall, os);
      k := k + 1;
    }
    assert k == Count(restarts);
    return Found(bestOverall);
  }
}
