/** bleu.cc: n-grams packed into 64-bit keys by a rolling shift and mask, and
    their counts. Every shift, sum and mask of the source wraps as an int64_t. */
module Ngrams {
  import opened Words

  type Token = t: int | -0x8000 <= t < 0x8000

  // A window as one unbounded number, a digit of 16 bits per token; digits may be negative.
  function Pack(w: seq<Token>): int {
    if w == [] then 0 else Pack(w[..|w| - 1]) * 0x1_0000 + w[|w| - 1]
  }

  // What n 16-bit digits leave of a 64-bit word.
  function Modulus(n: nat): int {
    match n
    case 0 => 1
    case 1 => 0x1_0000
    case 2 => 0x1_0000_0000
    case 3 => 0x1_0000_0000_0000
    case _ => TWO_64
  }

  // The masked form of x: its residue, as a signed word when all 64 bits are in use.
  function Masked(x: int, n: nat): int {
    if n < 4 then x % Modulus(n) else Wrap64(x)
  }

  // The key of a window packed from scratch.
  function KeyOf(w: seq<Token>): int {
    Masked(Pack(w), |w|)
  }

  // All windows of n tokens, from left to right.
  function Windows(tokens: seq<Token>, n: nat): (ws: seq<seq<Token>>)
    ensures forall i :: 0 <= i < |ws| ==> |ws[i]| == n
  {
    if |tokens| < n then [] else seq(|tokens| - n + 1, i requires 0 <= i <= |tokens| - n => tokens[i..i + n])
  }

  function Keys(ws: seq<seq<Token>>): seq<int> {
    seq(|ws|, i requires 0 <= i < |ws| => KeyOf(ws[i]))
  }

  // ----- The mask

  function MaskOf(n: nat): int {
    if n == 0 then 0 else Wrap64(Wrap64(MaskOf(n - 1) * 0x1_0000) + 0xffff)
  }

  lemma {:induction false} MaskValue(n: nat)
    ensures MaskOf(n) == if n < 4 then Modulus(n) - 1 else -1
  {
    if n == 0 {
    } else if n < 4 {
      MaskValue(n - 1);
      FitsInWord(Modulus(n) - 0x1_0000);
      FitsInWord(Modulus(n) - 1);
    } else if n == 4 {
      MaskValue(3);
      WrapPlusMultiple(-0x1_0000, 1);
      FitsInWord(-0x1_0000);
      FitsInWord(-1);
    } else {
      MaskValue(n - 1);
      FitsInWord(-0x1_0000);
      FitsInWord(-1);
    }
  }

  lemma FitsInWord(x: int)
    requires IsInt64(x)
    ensures Wrap64(x) == x
  {
  }

  // How many times the modulus goes into 2^64.
  function Cofactor(n: nat): int {
    match n
    case 0 => TWO_64
    case 1 => 0x1_0000_0000_0000
    case 2 => 0x1_0000_0000
    case 3 => 0x1_0000
    case _ => 1
  }

  lemma PatternOfMask(n: nat)
    ensures MaskOf(n) % TWO_64 == Modulus(n) - 1
  {
    MaskValue(n);
    DivisionIsUnique(if n < 4 then Modulus(n) - 1 else -1, if n < 4 then 0 else -1, Modulus(n) - 1, TWO_64);
  }

  lemma AndPattern(x: nat, n: nat)
    ensures AndBits(x, Modulus(n) - 1, 64) == x % Modulus(n)
  {
    Pow2Values();
    AndLowMask(x, 16 * if n < 4 then n else 4, 64);
  }

  // Masking a word is taking its masked form.
  lemma AndMask(x: int, n: nat)
    requires IsInt64(x)
    ensures And64(x, MaskOf(n)) == Masked(x, n)
  {
    PatternOfMask(n);
    AndPattern(x % TWO_64, n);
    ResidueAsWord(x, n);
  }

  lemma ResidueAsWord(x: int, n: nat)
    requires IsInt64(x)
    ensures Wrap64((x % TWO_64) % Modulus(n)) == Masked(x, n)
  {
    if n < 4 {
      assert Cofactor(n) * Modulus(n) == TWO_64;
      ModOfMod(x, Cofactor(n), Modulus(n));
      FitsInWord(x % Modulus(n));
    } else {
      WrapPlusMultiple(x % TWO_64, x / TWO_64);
      assert (x % TWO_64) % TWO_64 == x % TWO_64;
    }
  }

  // Masked forms are residues: multiples of the modulus make no difference.
  lemma MaskedCongruent(x: int, k: int, n: nat)
    ensures Masked(x + k * Modulus(n), n) == Masked(x, n)
  {
    ModPlusMultiple(x, k, Modulus(n));
    WrapPlusMultiple(x, k);
  }

  // And they differ from the number itself by such a multiple.
  lemma MaskedIsCongruent(x: int, n: nat) returns (k: int)
    ensures Masked(x, n) == x + k * Modulus(n)
  {
    k := if n < 4 then -(x / Modulus(n)) else -((x + TWO_63) / TWO_64);
  }

  lemma ModulusStep(n: nat)
    ensures Modulus(n) * 0x1_0000 == Modulus(n + 1) * if n < 4 then 1 else 0x1_0000
  {
  }

  // ----- Keys

  // The oldest token of a full window is a multiple of what the masked word can hold.
  lemma {:induction false} OldestTokenLeaves(w: seq<Token>) returns (k: int)
    requires w != []
    ensures Pack(w) == Pack(w[1..]) + k * Modulus(|w| - 1)
  {
    if |w| == 1 {
      k := w[0];
      assert w[..0] == [];
    } else {
      var n := |w|;
      var u, t := w[..n - 1], w[n - 1];
      k := OldestTokenLeaves(u);
      assert w[1..][..n - 2] == u[1..];
      assert Pack(w) == Pack(w[1..]) + (k * Modulus(n - 2)) * 0x1_0000;
      var f := if n - 2 < 4 then 1 else 0x1_0000;
      ModulusStep(n - 2);
      assert (k * Modulus(n - 2)) * 0x1_0000 == k * (Modulus(n - 2) * 0x1_0000) == k * (Modulus(n - 1) * f) == (k * f) * Modulus(n - 1);
      k := k * f;
    }
  }

  // One turn of the source's loop: shift, add, mask.
  function Roll(v: int, t: Token, n: nat): int {
    And64(Wrap64(Wrap64(v * 0x1_0000) + t), MaskOf(n))
  }

  lemma WrapStep(v: int, t: int)
    ensures Wrap64(Wrap64(v * 0x1_0000) + t) == Wrap64(v * 0x1_0000 + t)
  {
    var x := v * 0x1_0000;
    var k := -((x + TWO_63) / TWO_64);
    assert Wrap64(x) == x + k * TWO_64;
    WrapPlusMultiple(x + t, k);
  }

  lemma MaskedOfWrap(x: int, n: nat)
    ensures Masked(Wrap64(x), n) == Masked(x, n)
  {
    var k := -((x + TWO_63) / TWO_64);
    assert Wrap64(x) == x + k * TWO_64;
    assert k * TWO_64 == (k * Cofactor(n)) * Modulus(n) by {
      assert Cofactor(n) * Modulus(n) == TWO_64;
    }
    MaskedCongruent(x, k * Cofactor(n), n);
  }

  lemma ShiftedSum(v: int, x: int, k: int, m: int, j: int, m': int, f: int)
    requires v == x + k * m + j * m' && m * 0x1_0000 == m' * f
    ensures v * 0x1_0000 == x * 0x1_0000 + (k * f + j * 0x1_0000) * m'
  {
    assert (k * m) * 0x1_0000 == k * (m * 0x1_0000) == k * (m' * f) == (k * f) * m';
    assert (j * m') * 0x1_0000 == (j * 0x1_0000) * m';
    assert (k * f) * m' + (j * 0x1_0000) * m' == (k * f + j * 0x1_0000) * m';
  }

  // The loop body masks the mathematical result of its shift and sum.
  lemma RollIsMasked(v: int, t: Token, n: nat)
    ensures Roll(v, t, n) == Masked(v * 0x1_0000 + t, n)
  {
    WrapStep(v, t);
    MaskedOfWrap(v * 0x1_0000 + t, n);
    AndMask(Wrap64(v * 0x1_0000 + t), n);
  }

  lemma NextWindow(w: seq<Token>, t: Token) returns (all: int)
    requires w != []
    ensures KeyOf(w) * 0x1_0000 + t == Pack(w[1..] + [t]) + all * Modulus(|w|)
  {
    var n, next := |w|, w[1..] + [t];
    assert next[..n - 1] == w[1..];
    var k := OldestTokenLeaves(w);
    var j := MaskedIsCongruent(Pack(w), n);
    ModulusStep(n - 1);
    var f := if n - 1 < 4 then 1 else 0x1_0000;
    ShiftedSum(KeyOf(w), Pack(w[1..]), k, Modulus(n - 1), j, Modulus(n), f);
    all := k * f + j * 0x1_0000;
  }

  // Rolling the key of a full window over one token gives the key of the next window.
  lemma RollingKey(w: seq<Token>, t: Token)
    requires w != []
    ensures Roll(KeyOf(w), t, |w|) == KeyOf(w[1..] + [t])
  {
    var all := NextWindow(w, t);
    MaskedCongruent(Pack(w[1..] + [t]), all, |w|);
    RollIsMasked(KeyOf(w), t, |w|);
  }

  // Equal masked forms differ by a multiple of the modulus.
  lemma EqualMasked(x: int, y: int, n: nat) returns (k: int)
    requires Masked(x, n) == Masked(y, n)
    ensures x == y + k * Modulus(n)
  {
    var i := MaskedIsCongruent(x, n);
    var j := MaskedIsCongruent(y, n);
    k := j - i;
    assert j * Modulus(n) - i * Modulus(n) == (j - i) * Modulus(n);
  }

  lemma LastDigitsAgree(x: int, s: Token, y: int, t: Token, k: int, m: int, m': int)
    requires m' == m * 0x1_0000 && x * 0x1_0000 + s == y * 0x1_0000 + t + k * m'
    ensures s == t && x == y + k * m
  {
    assert k * m' == (k * m) * 0x1_0000;
  }

  // Up to four tokens a key tells windows apart.
  lemma {:induction false} KeyInjective(w: seq<Token>, w': seq<Token>)
    requires |w| == |w'| <= 4 && KeyOf(w) == KeyOf(w')
    ensures w == w'
  {
    if w != [] {
      var n := |w| - 1;
      var u, u', s, t := w[..n], w'[..n], w[n], w'[n];
      var k := EqualMasked(Pack(w), Pack(w'), n + 1);
      ModulusStep(n);
      LastDigitsAgree(Pack(u), s, Pack(u'), t, k, Modulus(n), Modulus(n + 1));
      MaskedCongruent(Pack(u'), k, n);
      KeyInjective(u, u');
      assert w == u + [s] && w' == u' + [t];
    }
  }

  // Four is the limit: a key of five or more tokens ignores the first one.
  lemma KeyIgnoresFifthToken(w: seq<Token>, s: Token, t: Token)
    requires |w| >= 4
    ensures KeyOf([s] + w) == KeyOf([t] + w)
  {
    assert ([s] + w)[1..] == w && ([t] + w)[1..] == w;
    var j := OldestTokenLeaves([s] + w);
    var k := OldestTokenLeaves([t] + w);
    MaskedCongruent(Pack(w), j, |w| + 1);
    MaskedCongruent(Pack(w), k, |w| + 1);
  }

  // So it is the key of the last four.
  lemma {:induction false} KeyIsOfLastFour(w: seq<Token>)
    requires |w| >= 4
    ensures KeyOf(w) == KeyOf(w[|w| - 4..])
  {
    if |w| == 4 {
      assert w[0..] == w;
    } else {
      var k := OldestTokenLeaves(w);
      MaskedCongruent(Pack(w[1..]), k, |w|);
      KeyIsOfLastFour(w[1..]);
      assert w[1..][|w| - 5..] == w[|w| - 4..];
    }
  }

  lemma KeysTellWindowsApartIff(n: nat)
    ensures (forall w: seq<Token>, w': seq<Token> :: |w| == |w'| == n && KeyOf(w) == KeyOf(w') ==> w == w') <==> n <= 4
  {
    if n <= 4 {
      forall w: seq<Token>, w': seq<Token> | |w| == |w'| == n && KeyOf(w) == KeyOf(w') ensures w == w' {
        KeyInjective(w, w');
      }
    } else {
      var zeros := seq(n - 1, _ => 0 as Token);
      KeyIgnoresFifthToken(zeros, 1, 0);
      assert ([1] + zeros)[0] != ([0] + zeros)[0];
    }
  }

  // ----- The source's loops

  method MakeMask(n: nat) returns (mask: int)
    ensures mask == MaskOf(n)
  {
    mask := 0;
    for idx := 0 to n
      invariant mask == MaskOf(idx)
    {
      mask := Wrap64(Wrap64(mask * 0x1_0000) + 0xffff);
    }
  }

  // The first window is packed without a mask, as a wrapping word.
  lemma PackStep(u: seq<Token>, t: Token)
    ensures Wrap64(Wrap64(Wrap64(Pack(u)) * 0x1_0000) + t) == Wrap64(Pack(u + [t]))
  {
    assert (u + [t])[..|u|] == u;
    var x := Pack(u);
    var k := -((x + TWO_63) / TWO_64);
    assert Wrap64(x) == x + k * TWO_64;
    WrapStep(Wrap64(x), t);
    assert Wrap64(x) * 0x1_0000 + t == (x * 0x1_0000 + t) + (k * 0x1_0000) * TWO_64;
    WrapPlusMultiple(x * 0x1_0000 + t, k * 0x1_0000);
  }

  // The first loop: the key of the first window.
  method FirstKey(hypothesis: seq<Token>, n: nat, mask: int) returns (v: int)
    requires 1 <= n <= |hypothesis| && mask == MaskOf(n)
    ensures v == KeyOf(hypothesis[..n])
  {
    v := 0;
    for idx := 0 to n
      invariant v == Wrap64(Pack(hypothesis[..idx]))
    {
      PackStep(hypothesis[..idx], hypothesis[idx]);
      assert hypothesis[..idx + 1] == hypothesis[..idx] + [hypothesis[idx]];
      v := Wrap64(Wrap64(v * 0x1_0000) + hypothesis[idx]);
    }
    AndMask(v, n);
    MaskedOfWrap(Pack(hypothesis[..n]), n);
    v := And64(v, mask);
  }

  method Ngrams(hypothesis: seq<Token>, n: nat) returns (historys: seq<int>)
    requires n >= 1
    ensures historys == Keys(Windows(hypothesis, n))
  {
    hide KeyOf, MaskOf, And64, Wrap64;
    historys := [];
    if |hypothesis| < n {
      return;
    }
    var mask := MakeMask(n);
    var v := FirstKey(hypothesis, n, mask);
    historys := historys + [v];
    assert hypothesis[0..n] == hypothesis[..n];
    for idx := n to |hypothesis|
      invariant v == KeyOf(hypothesis[idx - n..idx])
      invariant |historys| == idx - n + 1
      invariant forall i :: 0 <= i < |historys| ==> historys[i] == KeyOf(hypothesis[i..i + n])
    {
      var w := hypothesis[idx - n..idx];
      RollingKey(w, hypothesis[idx]);
      assert w[1..] + [hypothesis[idx]] == hypothesis[idx + 1 - n..idx + 1];
      v := Wrap64(Wrap64(v * 0x1_0000) + hypothesis[idx]);
      v := And64(v, mask);
      historys := historys + [v];
    }
  }

  // Holds when count is the multiset as a map.
  ghost predicate Counts(count: map<int, int>, keys: multiset<int>) {
    && (forall k :: k in count <==> k in keys)
    && (forall k :: k in count ==> count[k] == keys[k])
  }

  method Counter(historys: seq<int>) returns (count: map<int, int>)
    ensures Counts(count, multiset(historys))
  {
    count := map[];
    for i := 0 to |historys|
      invariant Counts(count, multiset(historys[..i]))
    {
      assert historys[..i + 1] == historys[..i] + [historys[i]];
      var history := historys[i];
      if history !in count {
        count := count[history := 1];
      } else {
        count := count[history := count[history] + 1];
      }
    }
    assert historys[..|historys|] == historys;
  }

  // ----- The counts are those of the windows themselves

  lemma {:induction false} KeyMultiplicity(ws: seq<seq<Token>>, n: nat, w: seq<Token>)
    requires |w| == n <= 4 && forall i :: 0 <= i < |ws| ==> |ws[i]| == n
    ensures multiset(Keys(ws))[KeyOf(w)] == multiset(ws)[w]
  {
    if ws != [] {
      var u, last := ws[..|ws| - 1], ws[|ws| - 1];
      KeyMultiplicity(u, n, w);
      assert ws == u + [last];
      assert Keys(ws) == Keys(u) + [KeyOf(last)];
      if KeyOf(last) == KeyOf(w) {
        KeyInjective(last, w);
      }
    }
  }

  // counter(ngrams(tokens, n)) is the multiset of the n-grams of tokens.
  lemma CounterIsTrueMultiset(tokens: seq<Token>, n: nat, count: map<int, int>, w: seq<Token>)
    requires 1 <= n <= 4 && |w| == n
    requires Counts(count, multiset(Keys(Windows(tokens, n))))
    ensures (if KeyOf(w) in count then count[KeyOf(w)] else 0) == multiset(Windows(tokens, n))[w]
  {
    KeyMultiplicity(Windows(tokens, n), n, w);
  }
}
