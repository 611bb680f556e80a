/** bleu.cc: the modified n-gram precision of a hypothesis against several
    references, and its totals over a corpus.

    The reference definition is on multisets of n-grams: the hypothesis'
    n-grams, met with the largest count any reference has of each. */
module Precision {
  import opened Ngrams
  import opened Numbers

  type Sentence = seq<Token>

  // ----- The reference definition

  ghost function Grams(s: Sentence, n: nat): multiset<seq<Token>> {
    multiset(Windows(s, n))
  }

  // Of every element, the larger of the two multiplicities.
  ghost function Join<T>(a: multiset<T>, b: multiset<T>): multiset<T> {
    a + (b - a)
  }

  ghost function MaxGrams(references: seq<Sentence>, n: nat): multiset<seq<Token>> {
    if references == [] then multiset{}
    else Join(MaxGrams(references[..|references| - 1], n), Grams(references[|references| - 1], n))
  }

  // The n-grams of the hypothesis, each no more often than some reference has it.
  ghost function Clipped(references: seq<Sentence>, hypothesis: Sentence, n: nat): multiset<seq<Token>> {
    Grams(hypothesis, n) * MaxGrams(references, n)
  }

  // A key holds four tokens, so an order above four counts the last four tokens
  // of each window: the 4-grams of a sentence without its first n - 4 tokens.
  function Width(n: nat): nat { Min(n, 4) }

  function Seen(s: Sentence, n: nat): Sentence {
    if n <= 4 then s else if |s| < n - 4 then [] else s[n - 4..]
  }

  function SeenAll(references: seq<Sentence>, n: nat): (seen: seq<Sentence>)
    ensures |seen| == |references| && forall i :: 0 <= i < |seen| ==> seen[i] == Seen(references[i], n)
  {
    seq(|references|, i requires 0 <= i < |references| => Seen(references[i], n))
  }

  // The numerator of order n: up to order four it counts the clipped n-grams.
  ghost function Matched(references: seq<Sentence>, hypothesis: Sentence, n: nat): nat {
    |Clipped(SeenAll(references, n), Seen(hypothesis, n), Width(n))|
  }

  datatype Fraction = Fraction(numerator: int, denominator: int)

  // What modified_precision is to return.
  ghost predicate IsPrecision(p: Fraction, references: seq<Sentence>, hypothesis: Sentence, n: nat) {
    && p.numerator == Matched(references, hypothesis, n)
    && p.denominator == Max(1, |Windows(hypothesis, n)|)
  }

  // ----- The same on keys

  ghost function KeyGrams(s: Sentence, n: nat): multiset<int> {
    multiset(Keys(Windows(s, n)))
  }

  ghost function MaxKeyGrams(references: seq<Sentence>, n: nat): multiset<int> {
    if references == [] then multiset{}
    else Join(MaxKeyGrams(references[..|references| - 1], n), KeyGrams(references[|references| - 1], n))
  }

  // b counts the keys of the n-grams that a counts.
  ghost predicate KeyedBy(a: multiset<seq<Token>>, b: multiset<int>, n: nat) {
    && (forall w :: w in a ==> |w| == n)
    && (forall w: seq<Token> {:trigger KeyOf(w)} :: |w| == n ==> b[KeyOf(w)] == a[w])
    && (forall k :: k in b ==> exists w: seq<Token> :: |w| == n && KeyOf(w) == k)
  }

  lemma GramsKeyed(s: Sentence, n: nat)
    requires n <= 4
    ensures KeyedBy(Grams(s, n), KeyGrams(s, n), n)
  {
    var ws := Windows(s, n);
    forall w: seq<Token> | |w| == n ensures KeyGrams(s, n)[KeyOf(w)] == Grams(s, n)[w] {
      KeyMultiplicity(ws, n, w);
    }
    forall k | k in KeyGrams(s, n) ensures exists w: seq<Token> :: |w| == n && KeyOf(w) == k {
      assert k in Keys(ws);
      var i :| 0 <= i < |ws| && Keys(ws)[i] == k;
      assert |ws[i]| == n && KeyOf(ws[i]) == k;
    }
  }

  lemma {:induction false} MaxGramsKeyed(references: seq<Sentence>, n: nat)
    requires n <= 4
    ensures KeyedBy(MaxGrams(references, n), MaxKeyGrams(references, n), n)
  {
    if references != [] {
      hide KeyedBy, Grams, KeyGrams, Join;
      var init, last := references[..|references| - 1], references[|references| - 1];
      MaxGramsKeyed(init, n);
      GramsKeyed(last, n);
      KeyedJoin(MaxGrams(init, n), MaxKeyGrams(init, n), Grams(last, n), KeyGrams(last, n), n);
    } else {
      hide Grams, KeyGrams;
      NothingKeyed(n);
    }
  }

  lemma NothingKeyed(n: nat)
    ensures KeyedBy(multiset{}, multiset{}, n)
  {
  }

  lemma KeyedJoin(a: multiset<seq<Token>>, b: multiset<int>, c: multiset<seq<Token>>, d: multiset<int>, n: nat)
    requires KeyedBy(a, b, n) && KeyedBy(c, d, n)
    ensures KeyedBy(Join(a, c), Join(b, d), n)
  {
    hide KeyOf;
  }

  lemma KeyedRemove(a: multiset<seq<Token>>, b: multiset<int>, n: nat, w: seq<Token>)
    requires n <= 4 && KeyedBy(a, b, n) && w in a
    ensures KeyOf(w) in b && KeyedBy(a - multiset{w}, b - multiset{KeyOf(w)}, n)
  {
    hide KeyOf;
    assert b[KeyOf(w)] == a[w];
    forall v: seq<Token> | |v| == n ensures (b - multiset{KeyOf(w)})[KeyOf(v)] == (a - multiset{w})[v] {
      assert b[KeyOf(v)] == a[v];
      if KeyOf(v) == KeyOf(w) {
        KeyInjective(v, w);
      }
    }
  }

  lemma {:induction false} KeyedSize(a: multiset<seq<Token>>, b: multiset<int>, n: nat)
    requires n <= 4 && KeyedBy(a, b, n)
    ensures |a| == |b|
    decreases |a|
  {
    if w :| w in a {
      KeyedRemove(a, b, n, w);
      KeyedSize(a - multiset{w}, b - multiset{KeyOf(w)}, n);
    } else {
      assert a == multiset{};
      assert forall w: seq<Token> {:trigger KeyOf(w)} :: |w| == n ==> b[KeyOf(w)] == 0;
      assert forall k :: b[k] == 0;
      assert b == multiset{};
    }
  }

  lemma ClippedKeyed(references: seq<Sentence>, hypothesis: Sentence, n: nat)
    requires n <= 4
    ensures |KeyGrams(hypothesis, n) * MaxKeyGrams(references, n)| == |Clipped(references, hypothesis, n)|
  {
    GramsKeyed(hypothesis, n);
    MaxGramsKeyed(references, n);
    KeyedSize(Clipped(references, hypothesis, n), KeyGrams(hypothesis, n) * MaxKeyGrams(references, n), n);
  }

  lemma KeysSeen(s: Sentence, n: nat)
    requires n >= 1
    ensures |Windows(Seen(s, n), Width(n))| == |Windows(s, n)|
    ensures Keys(Windows(Seen(s, n), Width(n))) == Keys(Windows(s, n))
  {
    if n > 4 && |s| >= n {
      hide KeyOf;
      var all, seen := Windows(s, n), Windows(s[n - 4..], 4);
      forall i | 0 <= i < |all| ensures KeyOf(seen[i]) == KeyOf(all[i]) {
        KeyIsOfLastFour(all[i]);
        assert all[i][n - 4..] == seen[i];
      }
    }
  }

  lemma {:induction false} MaxKeyGramsSeen(references: seq<Sentence>, n: nat)
    requires n >= 1
    ensures MaxKeyGrams(SeenAll(references, n), Width(n)) == MaxKeyGrams(references, n)
  {
    hide Seen, Join, Width, Windows, Keys;
    if references != [] {
      var m := |references| - 1;
      assert SeenAll(references, n)[..m] == SeenAll(references[..m], n);
      MaxKeyGramsSeen(references[..m], n);
      KeysSeen(references[m], n);
    }
  }

  // The counts of modified_precision, at any order.
  lemma MatchedKeyed(references: seq<Sentence>, hypothesis: Sentence, n: nat)
    requires n >= 1
    ensures |KeyGrams(hypothesis, n) * MaxKeyGrams(references, n)| == Matched(references, hypothesis, n)
    ensures |KeyGrams(hypothesis, n)| == |Windows(hypothesis, n)|
  {
    hide Seen, SeenAll, Windows, Keys, MaxKeyGrams, Clipped;
    MaxKeyGramsSeen(references, n);
    KeysSeen(hypothesis, n);
    ClippedKeyed(SeenAll(references, n), Seen(hypothesis, n), Width(n));
    KeyCount(Windows(hypothesis, n));
  }

  lemma KeyCount(ws: seq<seq<Token>>)
    ensures |multiset(Keys(ws))| == |ws|
  {
    assert |multiset(Keys(ws))| == |Keys(ws)|;
  }

  // ----- modified_precision

  function Get(count: map<int, int>, key: int): int {
    if key in count then count[key] else 0
  }

  lemma SomeElement(s: set<int>)
    ensures s == {} || exists x :: x in s
  {
    if forall x :: x !in s {
      assert s == {};
    }
  }

  // One reference's pass over the hypothesis' n-grams.
  method RaiseMaxCounts(counts: map<int, int>, maxCounts: map<int, int>, referenceCounts: map<int, int>) returns (raised: map<int, int>)
    ensures forall k :: k in counts ==> k in raised && raised[k] == Max(Get(maxCounts, k), Get(referenceCounts, k))
  {
    raised := maxCounts;
    var left := counts.Keys;
    while left != {}
      invariant left <= counts.Keys
      invariant forall k :: k in counts && k in left ==> Get(raised, k) == Get(maxCounts, k)
      invariant forall k :: k in counts && k !in left ==> k in raised && raised[k] == Max(Get(maxCounts, k), Get(referenceCounts, k))
      decreases left
    {
      SomeElement(left);
      var ngram :| ngram in left;
      left := left - {ngram};
      raised := raised[ngram := Max(Get(raised, ngram), Get(referenceCounts, ngram))];
    }
  }

  // Summing the values of a map that counts a multiset.
  method SumCounts(counts: map<int, int>, ghost keys: multiset<int>) returns (sum: int)
    requires forall k :: k in keys ==> k in counts
    requires forall k :: k in counts ==> counts[k] == keys[k]
    ensures sum == |keys|
  {
    sum := 0;
    var left := counts.Keys;
    ghost var summed := multiset{};
    while left != {}
      invariant left <= counts.Keys
      invariant sum == |summed|
      invariant forall k :: summed[k] == if k in counts && k !in left then keys[k] else 0
      decreases left
    {
      SomeElement(left);
      var ngram :| ngram in left;
      left := left - {ngram};
      summed := summed[ngram := keys[ngram]];
      sum := sum + counts[ngram];
    }
    forall k ensures summed[k] == keys[k] {
      assert k in keys ==> k in counts;
    }
    assert summed == keys;
  }

  method ClipCounts(counts: map<int, int>, maxCounts: map<int, int>) returns (clipped: map<int, int>)
    ensures clipped.Keys == counts.Keys
    ensures forall k :: k in counts ==> clipped[k] == Min(counts[k], Get(maxCounts, k))
  {
    clipped := map k | k in counts :: Min(counts[k], Get(maxCounts, k));
  }

  // The loop over the references.
  method MaxCounts(counts: map<int, int>, references: seq<Sentence>, n: nat) returns (maxCounts: map<int, int>)
    requires n >= 1
    ensures forall k :: k in counts ==> Get(maxCounts, k) == MaxKeyGrams(references, n)[k]
  {
    hide MaxKeyGrams;
    maxCounts := map[];
    NoReference(n);
    for i := 0 to |references|
      invariant forall k :: k in counts ==> Get(maxCounts, k) == MaxKeyGrams(references[..i], n)[k]
    {
      var historys := Ngrams.Ngrams(references[i], n);
      var referenceCounts := Counter(historys);
      maxCounts := RaiseMaxCounts(counts, maxCounts, referenceCounts);
      forall k | k in counts
        ensures MaxKeyGrams(references[..i + 1], n)[k] == Max(MaxKeyGrams(references[..i], n)[k], KeyGrams(references[i], n)[k])
      {
        MaxKeyGramsStep(references, i, n, k);
      }
    }
    assert references[..|references|] == references;
  }

  lemma NoReference(n: nat)
    ensures MaxKeyGrams([], n) == multiset{}
  {
  }

  lemma MaxKeyGramsStep(references: seq<Sentence>, i: nat, n: nat, k: int)
    requires i < |references|
    ensures MaxKeyGrams(references[..i + 1], n)[k] == Max(MaxKeyGrams(references[..i], n)[k], KeyGrams(references[i], n)[k])
  {
    hide KeyGrams;
    assert references[..i + 1][..i] == references[..i];
  }

  method ModifiedPrecision(references: seq<Sentence>, hypothesis: Sentence, n: nat) returns (p: Fraction)
    requires n >= 1
    ensures IsPrecision(p, references, hypothesis, n)
  {
    hide Matched, Windows, Keys;
    var historys := Ngrams.Ngrams(hypothesis, n);
    var counts := Counter(historys);
    var maxCounts := MaxCounts(counts, references, n);
    var clipped := ClipCounts(counts, maxCounts);
    var numerator := SumCounts(clipped, KeyGrams(hypothesis, n) * MaxKeyGrams(references, n));
    var denominator := SumCounts(counts, KeyGrams(hypothesis, n));
    MatchedKeyed(references, hypothesis, n);
    p := Fraction(numerator, Max(1, denominator));
  }

  // ----- What the precision promises

  // 0 <= numerator <= denominator.
  lemma NumeratorBounded(references: seq<Sentence>, hypothesis: Sentence, n: nat)
    ensures Clipped(references, hypothesis, n) <= Grams(hypothesis, n)
    ensures |Clipped(references, hypothesis, n)| <= |Windows(hypothesis, n)|
  {
    SubmultisetSize(Clipped(references, hypothesis, n), Grams(hypothesis, n));
  }

  lemma SubmultisetSize<T>(a: multiset<T>, b: multiset<T>)
    requires a <= b
    ensures |a| <= |b|
  {
    assert b == a + (b - a);
  }

  // MaxGrams really is the largest count: an upper bound that some reference attains.
  lemma MaxGramsIsMaximum(references: seq<Sentence>, n: nat, w: seq<Token>)
    ensures forall i :: 0 <= i < |references| ==> Grams(references[i], n)[w] <= MaxGrams(references, n)[w]
    ensures w in MaxGrams(references, n) ==>
              exists i :: 0 <= i < |references| && Grams(references[i], n)[w] == MaxGrams(references, n)[w]
  {
    forall i | 0 <= i < |references| ensures Grams(references[i], n)[w] <= MaxGrams(references, n)[w] {
      MaxGramsIsBound(references, n, w, i);
    }
    if w in MaxGrams(references, n) {
      var i := MaxGramsIsAttained(references, n, w);
    }
  }

  // The same of the numerator, at any order.
  lemma MatchedLaws(references: seq<Sentence>, more: seq<Sentence>, hypothesis: Sentence, n: nat)
    requires n >= 1
    ensures Matched(references, hypothesis, n) <= |Windows(hypothesis, n)|
    ensures (forall r :: r in references ==> r in more) ==>
              Matched(references, hypothesis, n) <= Matched(more, hypothesis, n)
    ensures hypothesis in references ==> Matched(references, hypothesis, n) == |Windows(hypothesis, n)|
  {
    hide Clipped, Windows, Seen;
    KeysSeen(hypothesis, n);
    NumeratorBounded(SeenAll(references, n), Seen(hypothesis, n), Width(n));
    if forall r :: r in references ==> r in more {
      SeenAmongMore(references, more, n);
      MonotoneInReferences(SeenAll(references, n), SeenAll(more, n), Seen(hypothesis, n), Width(n));
    }
    if hypothesis in references {
      var i :| 0 <= i < |references| && references[i] == hypothesis;
      assert SeenAll(references, n)[i] == Seen(hypothesis, n);
      FullMatch(SeenAll(references, n), Seen(hypothesis, n), Width(n));
    }
  }

  lemma SeenAmongMore(references: seq<Sentence>, more: seq<Sentence>, n: nat)
    requires forall r :: r in references ==> r in more
    ensures forall r :: r in SeenAll(references, n) ==> r in SeenAll(more, n)
  {
    forall r | r in SeenAll(references, n) ensures r in SeenAll(more, n) {
      var i :| 0 <= i < |references| && SeenAll(references, n)[i] == r;
      assert references[i] in more;
      var j :| 0 <= j < |more| && more[j] == references[i];
      assert SeenAll(more, n)[j] == r;
    }
  }

  lemma MaxGramsLast(references: seq<Sentence>, n: nat, w: seq<Token>)
    requires references != []
    ensures MaxGrams(references, n)[w] ==
            Max(MaxGrams(references[..|references| - 1], n)[w], Grams(references[|references| - 1], n)[w])
  {
  }

  lemma {:induction false} MaxGramsIsBound(references: seq<Sentence>, n: nat, w: seq<Token>, i: nat)
    requires i < |references|
    ensures Grams(references[i], n)[w] <= MaxGrams(references, n)[w]
  {
    MaxGramsLast(references, n, w);
    if i < |references| - 1 {
      MaxGramsIsBound(references[..|references| - 1], n, w, i);
    }
  }

  lemma {:induction false} MaxGramsIsAttained(references: seq<Sentence>, n: nat, w: seq<Token>) returns (i: nat)
    requires w in MaxGrams(references, n)
    ensures i < |references| && Grams(references[i], n)[w] == MaxGrams(references, n)[w]
  {
    var m := |references| - 1;
    MaxGramsLast(references, n, w);
    if Grams(references[m], n)[w] == MaxGrams(references, n)[w] {
      i := m;
    } else {
      i := MaxGramsIsAttained(references[..m], n, w);
    }
  }

  // More references never lower the numerator.
  lemma MonotoneInReferences(references: seq<Sentence>, more: seq<Sentence>, hypothesis: Sentence, n: nat)
    requires forall r :: r in references ==> r in more
    ensures Clipped(references, hypothesis, n) <= Clipped(more, hypothesis, n)
    ensures |Clipped(references, hypothesis, n)| <= |Clipped(more, hypothesis, n)|
  {
    forall w ensures MaxGrams(references, n)[w] <= MaxGrams(more, n)[w] {
      MaxGramsIsMaximum(references, n, w);
      MaxGramsIsMaximum(more, n, w);
      if w in MaxGrams(references, n) {
        var i :| 0 <= i < |references| && Grams(references[i], n)[w] == MaxGrams(references, n)[w];
        assert references[i] in more;
        var j :| 0 <= j < |more| && more[j] == references[i];
        assert Grams(more[j], n)[w] <= MaxGrams(more, n)[w];
      }
    }
    SubmultisetSize(Clipped(references, hypothesis, n), Clipped(more, hypothesis, n));
  }

  // A hypothesis that is one of the references matches completely.
  lemma FullMatch(references: seq<Sentence>, hypothesis: Sentence, n: nat)
    requires hypothesis in references
    ensures |Clipped(references, hypothesis, n)| == |Windows(hypothesis, n)|
  {
    var i :| 0 <= i < |references| && references[i] == hypothesis;
    forall w ensures Grams(hypothesis, n)[w] <= MaxGrams(references, n)[w] {
      MaxGramsIsMaximum(references, n, w);
    }
    assert Clipped(references, hypothesis, n) == Grams(hypothesis, n);
  }

  // ----- From order n to order n + 1

  ghost function Shorten<T>(ws: seq<seq<T>>): (shorter: seq<seq<T>>)
    requires forall i :: 0 <= i < |ws| ==> ws[i] != []
    ensures |shorter| == |ws|
  {
    seq(|ws|, i requires 0 <= i < |ws| => ws[i][..|ws[i]| - 1])
  }

  lemma RemoveFromBoth<T>(a: multiset<T>, b: multiset<T>, e: T)
    requires a + multiset{e} <= b + multiset{e}
    ensures a <= b
  {
    forall x ensures a[x] <= b[x] {
      assert (a + multiset{e})[x] <= (b + multiset{e})[x];
    }
  }

  lemma ShortenSplit<T>(s: seq<seq<T>>, e: seq<T>, t: seq<seq<T>>)
    requires e != [] && (forall i :: 0 <= i < |s| ==> s[i] != []) && (forall i :: 0 <= i < |t| ==> t[i] != [])
    ensures forall i :: 0 <= i < |s + [e] + t| ==> (s + [e] + t)[i] != []
    ensures multiset(Shorten(s + [e] + t)) == multiset(Shorten(s + t)) + multiset{e[..|e| - 1]}
  {
    assert Shorten(s + [e] + t) == Shorten(s) + [e[..|e| - 1]] + Shorten(t);
    assert Shorten(s + t) == Shorten(s) + Shorten(t);
  }

  // Shortening the elements of a smaller multiset gives a smaller multiset.
  lemma {:induction false} ShortenMonotone<T>(a: seq<seq<T>>, b: seq<seq<T>>)
    requires forall i :: 0 <= i < |a| ==> a[i] != []
    requires forall i :: 0 <= i < |b| ==> b[i] != []
    requires multiset(a) <= multiset(b)
    ensures multiset(Shorten(a)) <= multiset(Shorten(b))
  {
    if a != [] {
      hide Shorten;
      var a', e := a[..|a| - 1], a[|a| - 1];
      assert a == a' + [e];
      assert e in multiset(b);
      var k :| 0 <= k < |b| && b[k] == e;
      var p, q := b[..k], b[k + 1..];
      TakeOut(b, k);
      WithoutOne(a', p + q, e, b);
      NoneEmpty(p, e, q);
      ShortenMonotone(a', p + q);
      ShortenBoth(a', e, p, q);
    }
  }

  lemma NoneEmpty<T>(p: seq<seq<T>>, e: seq<T>, q: seq<seq<T>>)
    requires forall i :: 0 <= i < |p + [e] + q| ==> (p + [e] + q)[i] != []
    ensures forall i :: 0 <= i < |p| ==> p[i] != []
    ensures forall i :: 0 <= i < |q| ==> q[i] != []
    ensures forall i :: 0 <= i < |p + q| ==> (p + q)[i] != []
  {
    forall i | 0 <= i < |p| ensures p[i] != [] {
      assert p[i] == (p + [e] + q)[i];
    }
    forall i | 0 <= i < |q| ensures q[i] != [] {
      assert q[i] == (p + [e] + q)[|p| + 1 + i];
    }
  }

  lemma ShortenBoth<T>(a: seq<seq<T>>, e: seq<T>, p: seq<seq<T>>, q: seq<seq<T>>)
    requires e != [] && (forall i :: 0 <= i < |a| ==> a[i] != [])
    requires (forall i :: 0 <= i < |p| ==> p[i] != []) && (forall i :: 0 <= i < |q| ==> q[i] != [])
    requires multiset(Shorten(a)) <= multiset(Shorten(p + q))
    ensures forall i :: 0 <= i < |a + [e]| ==> (a + [e])[i] != []
    ensures forall i :: 0 <= i < |p + [e] + q| ==> (p + [e] + q)[i] != []
    ensures multiset(Shorten(a + [e])) <= multiset(Shorten(p + [e] + q))
  {
    hide Shorten;
    ShortenSplit(a, e, []);
    ShortenSplit(p, e, q);
    assert a + [e] + [] == a + [e] && a + [] == a;
  }

  lemma TakeOut<T>(b: seq<T>, k: nat)
    requires k < |b|
    ensures b == b[..k] + [b[k]] + b[k + 1..]
    ensures multiset(b) == multiset(b[..k] + b[k + 1..]) + multiset{b[k]}
  {
    assert b == b[..k] + [b[k]] + b[k + 1..];
  }

  lemma WithoutOne<T>(a': seq<T>, b': seq<T>, e: T, b: seq<T>)
    requires multiset(a' + [e]) <= multiset(b) && multiset(b) == multiset(b') + multiset{e}
    ensures multiset(a') <= multiset(b')
  {
    assert multiset(a' + [e]) == multiset(a') + multiset{e};
    RemoveFromBoth(multiset(a'), multiset(b'), e);
  }

  lemma ShortenWindows(s: Sentence, n: nat)
    ensures multiset(Shorten(Windows(s, n + 1))) <= Grams(s, n)
  {
    var ws := Windows(s, n + 1);
    if ws != [] {
      var all := Windows(s, n);
      forall i | 0 <= i < |ws| ensures Shorten(ws)[i] == all[i] {
        assert s[i..i + n + 1][..n] == s[i..i + n];
      }
      assert Shorten(ws) == all[..|ws|];
      assert all == all[..|ws|] + all[|ws|..];
    }
  }

  lemma {:induction false} AsSequence<T>(m: multiset<T>) returns (s: seq<T>)
    ensures multiset(s) == m
    decreases |m|
  {
    if x :| x in m {
      s := AsSequence(m - multiset{x});
      s := s + [x];
    } else {
      s := [];
    }
  }

  lemma GramsNotEmpty(c: seq<seq<Token>>, s: Sentence, n: nat)
    requires n > 0 && multiset(c) <= Grams(s, n)
    ensures forall i :: 0 <= i < |c| ==> c[i] != []
  {
    forall i | 0 <= i < |c| ensures c[i] != [] {
      assert c[i] in multiset(c) && c[i] in Windows(s, n);
    }
  }

  // Whatever n + 1 tokens two sentences share, they share the first n of them.
  lemma CommonGramsShorten(a: Sentence, b: Sentence, n: nat)
    ensures |Grams(a, n + 1) * Grams(b, n + 1)| <= |Grams(a, n) * Grams(b, n)|
  {
    hide Shorten, Windows;
    var common := Grams(a, n + 1) * Grams(b, n + 1);
    var c := AsSequence(common);
    GramsNotEmpty(c, a, n + 1);
    assert common <= Grams(a, n + 1) && common <= Grams(b, n + 1);
    ShortenMonotone(c, Windows(a, n + 1));
    ShortenMonotone(c, Windows(b, n + 1));
    ShortenWindows(a, n);
    ShortenWindows(b, n);
    SubmultisetSize(multiset(Shorten(c)), Grams(a, n) * Grams(b, n));
    assert |multiset(Shorten(c))| == |Shorten(c)|;
  }

  // With one reference, a higher order never matches more n-grams.
  lemma OneReferenceNeverIncreases(reference: Sentence, hypothesis: Sentence, n: nat)
    ensures |Clipped([reference], hypothesis, n + 1)| <= |Clipped([reference], hypothesis, n)|
  {
    OneReference(reference, n);
    OneReference(reference, n + 1);
    CommonGramsShorten(hypothesis, reference, n);
  }

  lemma OneReference(reference: Sentence, n: nat)
    ensures MaxGrams([reference], n) == Grams(reference, n)
  {
    assert [reference][..0] == [];
    assert MaxGrams([], n) == multiset{};
  }

  // Two references are enough for the opposite: each bigram of this hypothesis
  // is in one of them, but neither has any token twice.
  const FORTH: Sentence := [0, 1, 2]
  const BACK: Sentence := [2, 1, 0]
  const THERE_AND_BACK: Sentence := [0, 1, 2, 1, 0]

  ghost predicate BothWays(references: seq<Sentence>) {
    && FORTH in references && BACK in references
    && forall r :: r in references ==> r == FORTH || r == BACK
  }

  lemma TwoReferencesIncrease(references: seq<Sentence>)
    requires BothWays(references)
    ensures |Clipped(references, THERE_AND_BACK, 1)| <= 3
    ensures |Clipped(references, THERE_AND_BACK, 2)| == 4
  {
    ThreeTokensMatch(references);
    FourBigramsMatch(references);
  }

  lemma {:induction false} DistinctCountOnce<T>(s: seq<T>, x: T)
    requires forall i, j :: 0 <= i < j < |s| ==> s[i] != s[j]
    ensures multiset(s)[x] <= 1
  {
    if s != [] {
      var t, e := s[..|s| - 1], s[|s| - 1];
      assert s == t + [e];
      DistinctCountOnce(t, x);
      assert e !in t;
    }
  }

  lemma ThreeTokensMatch(references: seq<Sentence>)
    requires BothWays(references)
    ensures |Clipped(references, THERE_AND_BACK, 1)| <= 3
  {
    hide MaxGrams, Grams;
    var a, b, c: seq<Token> := [0], [1], [2];
    var clipped := Clipped(references, THERE_AND_BACK, 1);
    forall w ensures clipped[w] <= multiset{a, b, c}[w] {
      if w in clipped {
        assert w in MaxGrams(references, 1);
        var i := MaxGramsIsAttained(references, 1, w);
        assert references[i] in references;
        OneOfThreeTokens(references[i], w);
      }
    }
    SubmultisetSize(clipped, multiset{a, b, c});
  }

  lemma OneOfThreeTokens(s: Sentence, w: seq<Token>)
    requires (s == FORTH || s == BACK) && w in Grams(s, 1)
    ensures w in multiset{[0], [1], [2]} && Grams(s, 1)[w] <= 1
  {
    var ws := Windows(s, 1);
    assert |ws| == 3 && ws[0][0] != ws[1][0] && ws[0][0] != ws[2][0] && ws[1][0] != ws[2][0];
    DistinctCountOnce(ws, w);
    var k :| 0 <= k < 3 && ws[k] == w;
    assert w == [w[0]];
  }

  lemma FourBigramsMatch(references: seq<Sentence>)
    requires BothWays(references)
    ensures |Clipped(references, THERE_AND_BACK, 2)| == 4
  {
    var ws := Windows(THERE_AND_BACK, 2);
    FourBigrams();
    forall w ensures Grams(THERE_AND_BACK, 2)[w] <= MaxGrams(references, 2)[w] {
      DistinctCountOnce(ws, w);
      if w in ws {
        var r := ReferenceWith(w);
        var i :| 0 <= i < |references| && references[i] == r;
        MaxGramsIsBound(references, 2, w, i);
      }
    }
    assert Clipped(references, THERE_AND_BACK, 2) == Grams(THERE_AND_BACK, 2);
  }

  lemma FourBigrams()
    ensures Windows(THERE_AND_BACK, 2) == [[0, 1], [1, 2], [2, 1], [1, 0]]
    ensures forall i, j :: 0 <= i < j < 4 ==> Windows(THERE_AND_BACK, 2)[i] != Windows(THERE_AND_BACK, 2)[j]
  {
    var ws := Windows(THERE_AND_BACK, 2);
    assert |ws| == 4 && ws[0] == [0, 1] && ws[1] == [1, 2] && ws[2] == [2, 1] && ws[3] == [1, 0];
    assert ws[0][0] != ws[1][0] && ws[0][0] != ws[2][0] && ws[0][0] != ws[3][0];
    assert ws[1][1] != ws[2][1] && ws[1][1] != ws[3][1] && ws[2][0] != ws[3][0];
  }

  lemma ReferenceWith(w: seq<Token>) returns (r: Sentence)
    requires w in Windows(THERE_AND_BACK, 2)
    ensures (r == FORTH || r == BACK) && Grams(r, 2)[w] >= 1
  {
    FourBigrams();
    var k :| 0 <= k < 4 && Windows(THERE_AND_BACK, 2)[k] == w;
    r := if k < 2 then FORTH else BACK;
    var ws := Windows(r, 2);
    assert |ws| == 2 && ws[k % 2] == w;
    assert w in multiset(ws);
  }

  // With r references a higher order never matches more n-grams.
  ghost predicate NeverIncreases(r: nat) {
    forall references: seq<Sentence>, hypothesis: Sentence, n: nat :: |references| == r ==>
      Matched(references, hypothesis, n + 1) <= Matched(references, hypothesis, n)
  }

  lemma NeverIncreasesIff(r: nat)
    ensures NeverIncreases(r) <==> r <= 1
  {
    hide Matched;
    if r <= 1 {
      forall references: seq<Sentence>, hypothesis: Sentence, n: nat | |references| == r
        ensures Matched(references, hypothesis, n + 1) <= Matched(references, hypothesis, n)
      {
        AtMostOneReference(references, hypothesis, n);
      }
    } else {
      var references := ManyReferences(r);
      assert Matched(references, THERE_AND_BACK, 1 + 1) > Matched(references, THERE_AND_BACK, 1);
    }
  }

  lemma ManyReferences(r: nat) returns (references: seq<Sentence>)
    requires r >= 2
    ensures |references| == r
    ensures Matched(references, THERE_AND_BACK, 2) == 4 && Matched(references, THERE_AND_BACK, 1) <= 3
  {
    hide Clipped;
    references := [BACK] + seq(r - 1, _ => FORTH);
    assert references[0] == BACK && references[1] == FORTH;
    TwoReferencesIncrease(references);
    assert SeenAll(references, 1) == references == SeenAll(references, 2);
  }

  lemma AtMostOneReference(references: seq<Sentence>, hypothesis: Sentence, n: nat)
    requires |references| <= 1
    ensures Matched(references, hypothesis, n + 1) <= Matched(references, hypothesis, n)
  {
    hide Clipped;
    if n < 4 {
      assert SeenAll(references, n) == references == SeenAll(references, n + 1);
      FewReferences(references, hypothesis, n);
    } else {
      HigherOrdersDecrease(references, hypothesis, n);
    }
  }

  lemma FewReferences(references: seq<Sentence>, hypothesis: Sentence, n: nat)
    requires |references| <= 1
    ensures |Clipped(references, hypothesis, n + 1)| <= |Clipped(references, hypothesis, n)|
  {
    if references == [] {
      NoReferenceNoGram(hypothesis, n + 1);
    } else {
      hide Clipped;
      assert references == [references[0]];
      OneReferenceNeverIncreases(references[0], hypothesis, n);
    }
  }

  lemma NoReferenceNoGram(hypothesis: Sentence, n: nat)
    ensures Clipped([], hypothesis, n) == multiset{}
  {
  }

  // From order four on the numerator never increases, whatever the references.
  lemma HigherOrdersDecrease(references: seq<Sentence>, hypothesis: Sentence, n: nat)
    requires n >= 4
    ensures Matched(references, hypothesis, n + 1) <= Matched(references, hypothesis, n)
  {
    hide Seen, Grams;
    forall s ensures Grams(Seen(s, n + 1), 4) <= Grams(Seen(s, n), 4) {
      OneTokenLess(s, n);
    }
    var less, more := SeenAll(references, n + 1), SeenAll(references, n);
    forall w ensures MaxGrams(less, 4)[w] <= MaxGrams(more, 4)[w] {
      SmallerGrams(less, more, 4, w);
    }
    SubmultisetSize(Clipped(less, Seen(hypothesis, n + 1), 4), Clipped(more, Seen(hypothesis, n), 4));
  }

  lemma OneTokenLess(s: Sentence, n: nat)
    requires n >= 4
    ensures Grams(Seen(s, n + 1), 4) <= Grams(Seen(s, n), 4)
  {
    var longer, shorter := Seen(s, n), Seen(s, n + 1);
    if longer != [] {
      assert shorter == longer[1..];
      var all, fewer := Windows(longer, 4), Windows(shorter, 4);
      if |longer| > 4 {
        forall i | 0 <= i < |fewer| ensures fewer[i] == all[i + 1] {
          assert longer[1..][i..i + 4] == longer[i + 1..i + 5];
        }
        assert fewer == all[1..];
        assert all == [all[0]] + fewer;
      }
    }
  }

  lemma {:induction false} SmallerGrams(less: seq<Sentence>, more: seq<Sentence>, n: nat, w: seq<Token>)
    requires |less| == |more| && forall i :: 0 <= i < |less| ==> Grams(less[i], n) <= Grams(more[i], n)
    ensures MaxGrams(less, n)[w] <= MaxGrams(more, n)[w]
  {
    hide Grams;
    if less != [] {
      var m := |less| - 1;
      MaxGramsLast(less, n, w);
      MaxGramsLast(more, n, w);
      SmallerGrams(less[..m], more[..m], n, w);
    }
  }

  // A sentence without a matching token has no matching n-gram of any order.
  lemma NoTokenNoGram(references: seq<Sentence>, hypothesis: Sentence, n: nat)
    requires n >= 1 && |Clipped(references, hypothesis, 1)| == 0
    ensures |Clipped(references, hypothesis, n)| == 0
  {
    if w :| w in Clipped(references, hypothesis, n) {
      FirstTokenMatches(references, hypothesis, n, w);
    }
  }

  lemma NoTokenNoMatch(references: seq<Sentence>, hypothesis: Sentence, n: nat)
    requires n >= 1 && Matched(references, hypothesis, 1) == 0
    ensures Matched(references, hypothesis, n) == 0
  {
    var seen, s := SeenAll(references, n), Seen(hypothesis, n);
    assert SeenAll(references, 1) == references;
    hide Clipped, Seen;
    if w :| w in Clipped(seen, s, Width(n)) {
      SeenTokenMatches(references, hypothesis, n, w);
    }
  }

  lemma SeenTokenMatches(references: seq<Sentence>, hypothesis: Sentence, n: nat, w: seq<Token>)
    requires n >= 1 && w in Clipped(SeenAll(references, n), Seen(hypothesis, n), Width(n))
    ensures w != [] && w[..1] in Clipped(references, hypothesis, 1)
  {
    hide Grams, MaxGrams, Seen;
    var seen := SeenAll(references, n);
    var i := MaxGramsIsAttained(seen, Width(n), w);
    FirstTokenOfGram(Seen(hypothesis, n), Width(n), w);
    FirstTokenOfGram(Seen(references[i], n), Width(n), w);
    TokenWasThere(hypothesis, n, w[..1]);
    TokenWasThere(references[i], n, w[..1]);
    MaxGramsIsBound(references, 1, w[..1], i);
  }

  lemma TokenWasThere(s: Sentence, n: nat, w: seq<Token>)
    requires w in Grams(Seen(s, n), 1)
    ensures w in Grams(s, 1)
  {
    var seen := Seen(s, n);
    assert w in Windows(seen, 1);
    var i :| 0 <= i < |Windows(seen, 1)| && Windows(seen, 1)[i] == w;
    var j := |s| - |seen| + i;
    assert seen[i..i + 1] == [seen[i]] && s[j..j + 1] == [s[j]] && seen[i] == s[j];
    assert Windows(s, 1)[j] == w;
  }

  lemma FirstTokenMatches(references: seq<Sentence>, hypothesis: Sentence, n: nat, w: seq<Token>)
    requires n >= 1 && w in Clipped(references, hypothesis, n)
    ensures w != [] && w[..1] in Clipped(references, hypothesis, 1)
  {
    hide Grams, MaxGrams;
    var i := MaxGramsIsAttained(references, n, w);
    FirstTokenOfGram(hypothesis, n, w);
    FirstTokenOfGram(references[i], n, w);
    MaxGramsIsBound(references, 1, w[..1], i);
  }

  lemma FirstTokenOfGram(s: Sentence, n: nat, w: seq<Token>)
    requires n >= 1 && w in Grams(s, n)
    ensures |w| == n && w[..1] in Grams(s, 1)
  {
    assert w in Windows(s, n);
    var i :| 0 <= i < |Windows(s, n)| && Windows(s, n)[i] == w;
    assert Windows(s, 1)[i] == w[..1];
  }

  // ----- The totals of bleu

  ghost function TotalMatched(corpus: seq<seq<Sentence>>, hypotheses: seq<Sentence>, n: nat): nat
    requires |corpus| == |hypotheses|
  {
    if corpus == [] then 0
    else
      var m := |corpus| - 1;
      TotalMatched(corpus[..m], hypotheses[..m], n) + Matched(corpus[m], hypotheses[m], n)
  }

  ghost function TotalGrams(hypotheses: seq<Sentence>, n: nat): nat {
    if hypotheses == [] then 0
    else
      var m := |hypotheses| - 1;
      TotalGrams(hypotheses[..m], n) + Max(1, |Windows(hypotheses[m], n)|)
  }

  // The inner loop, over the orders.
  method AddSentence(references: seq<Sentence>, hypothesis: Sentence, orders: nat, numerators0: map<int, int>, denominators0: map<int, int>)
    returns (numerators: map<int, int>, denominators: map<int, int>)
    ensures forall n :: 1 <= n <= orders ==>
              Get(numerators, n) == Get(numerators0, n) + Matched(references, hypothesis, n)
    ensures forall n :: 1 <= n <= orders ==>
              Get(denominators, n) == Get(denominators0, n) + Max(1, |Windows(hypothesis, n)|)
  {
    hide Matched, Windows;
    numerators, denominators := numerators0, denominators0;
    for ii := 0 to orders
      invariant forall n :: 1 <= n <= orders ==>
        Get(numerators, n) == Get(numerators0, n) + if n <= ii then Matched(references, hypothesis, n) else 0
      invariant forall n :: 1 <= n <= orders ==>
        Get(denominators, n) == Get(denominators0, n) + if n <= ii then Max(1, |Windows(hypothesis, n)|) else 0
    {
      var n := ii + 1;
      var p := ModifiedPrecision(references, hypothesis, n);
      numerators := numerators[n := Get(numerators, n) + p.numerator];
      denominators := denominators[n := Get(denominators, n) + p.denominator];
    }
  }

  // The two nested loops; not ok where the lists differ in length.
  method Totals(corpus: seq<seq<Sentence>>, hypotheses: seq<Sentence>, orders: nat)
    returns (ok: bool, numerators: map<int, int>, denominators: map<int, int>)
    ensures ok == (|corpus| == |hypotheses|)
    ensures ok ==> forall n :: 1 <= n <= orders ==>
              Get(numerators, n) == TotalMatched(corpus, hypotheses, n) && Get(denominators, n) == TotalGrams(hypotheses, n)
  {
    hide Matched, Windows;
    numerators, denominators := map[], map[];
    if |corpus| != |hypotheses| {
      return false, numerators, denominators;
    }
    for idx := 0 to |corpus|
      invariant forall n :: 1 <= n <= orders ==> Get(numerators, n) == TotalMatched(corpus[..idx], hypotheses[..idx], n)
      invariant forall n :: 1 <= n <= orders ==> Get(denominators, n) == TotalGrams(hypotheses[..idx], n)
    {
      numerators, denominators := AddSentence(corpus[idx], hypotheses[idx], orders, numerators, denominators);
      assert corpus[..idx + 1][..idx] == corpus[..idx] && hypotheses[..idx + 1][..idx] == hypotheses[..idx];
    }
    assert corpus[..|corpus|] == corpus && hypotheses[..|corpus|] == hypotheses;
    ok := true;
  }

  // When no token matches in the whole corpus, no n-gram does: returning 0
  // as soon as the first total is 0 loses nothing.
  lemma {:induction false} ZeroFirstOrderMeansZero(corpus: seq<seq<Sentence>>, hypotheses: seq<Sentence>, n: nat)
    requires |corpus| == |hypotheses| && n >= 1 && TotalMatched(corpus, hypotheses, 1) == 0
    ensures TotalMatched(corpus, hypotheses, n) == 0
  {
    if corpus != [] {
      var m := |corpus| - 1;
      NoTokenNoMatch(corpus[m], hypotheses[m], n);
      ZeroFirstOrderMeansZero(corpus[..m], hypotheses[..m], n);
    }
  }
}
