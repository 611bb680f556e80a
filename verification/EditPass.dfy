/** edit_pass.cc: the edit script that turns a prediction (word2) into the
    ground truth (word1), found by filling a distance table and a table of
    scripts together.

    `Dist` and `Script` are the two tables as functions of the prefixes;
    `EditPass` fills the tables in place and is proved to return `Script`.
    About `Script` we prove that replaying it on word2 yields word1, that every
    entry is one single-element edit, and that no sequence of such edits,
    made anywhere and in any order, is shorter. */
module EditPass {
  import opened Numbers
  import opened Options

  // One entry of the returned vector. left == -1 removes word2[right],
  // left == -2 inserts word1[right], otherwise word2[right] becomes word1[left].
  datatype Op = Op(left: int, right: int, pos: int)

  function Last<T>(s: seq<T>): T
    requires s != []
  {
    s[|s| - 1]
  }

  function Init<T>(s: seq<T>): seq<T>
    requires s != []
  {
    s[..|s| - 1]
  }

  // ----- The distance table and the script table

  function Dist(w1: seq<int>, w2: seq<int>): nat
    decreases |w1| + |w2|
  {
    if w1 == [] then |w2|
    else if w2 == [] then |w1|
    else
      var d1 := Dist(Init(w1), w2) + 1;
      var d2 := Dist(w1, Init(w2)) + 1;
      var d3 := Dist(Init(w1), Init(w2)) + if Last(w1) == Last(w2) then 0 else 1;
      Min(d1, Min(d2, d3))
  }

  // The tie-break order is that of the source: insert, remove, replace or keep.
  function Script(w1: seq<int>, w2: seq<int>): seq<Op>
    decreases |w1| + |w2|
  {
    if w1 == [] && w2 == [] then []
    else if w1 == [] then Script(w1, Init(w2)) + [Op(-1, |w2| - 1, 0)]
    else if w2 == [] then Script(Init(w1), w2) + [Op(-2, |w1| - 1, |w1| - 1)]
    else if Dist(Init(w1), w2) + 1 == Dist(w1, w2) then
      Script(Init(w1), w2) + [Op(-2, |w1| - 1, |w2| - 1)]
    else if Dist(w1, Init(w2)) + 1 == Dist(w1, w2) then
      Script(w1, Init(w2)) + [Op(-1, |w2| - 1, |w2| - 1)]
    else if Last(w1) == Last(w2) then
      Script(Init(w1), Init(w2))
    else
      Script(Init(w1), Init(w2)) + [Op(|w1| - 1, |w2| - 1, |w2| - 1)]
  }

  method EditPass(word1: seq<int>, word2: seq<int>) returns (script: seq<Op>)
    ensures script == Script(word1, word2)
  {
    var n1, n2 := |word1|, |word2|;
    var disMap := new nat[n1 + 1, n2 + 1];
    var pass := new seq<Op>[n1 + 1, n2 + 1];
    FillBorders(disMap, pass, word1, word2);
    for i := 1 to n1 + 1
      invariant forall x :: 0 <= x <= n1 ==> IsCell(disMap[x, 0], pass[x, 0], word1[..x], word2[..0])
      invariant forall x, y :: 0 <= x < i && 0 <= y <= n2 ==> IsCell(disMap[x, y], pass[x, y], word1[..x], word2[..y])
    {
      FillRow(disMap, pass, word1, word2, i);
    }
    assert IsCell(disMap[n1, n2], pass[n1, n2], word1[..n1], word2[..n2]);
    assert word1[..n1] == word1 && word2[..n2] == word2;
    script := pass[n1, n2];
  }

  // The first two loops: row 0 and column 0.
  method FillBorders(disMap: array2<nat>, pass: array2<seq<Op>>, word1: seq<int>, word2: seq<int>)
    requires disMap.Length0 == pass.Length0 == |word1| + 1
    requires disMap.Length1 == pass.Length1 == |word2| + 1
    modifies disMap, pass
    ensures forall y :: 0 <= y <= |word2| ==> IsCell(disMap[0, y], pass[0, y], word1[..0], word2[..y])
    ensures forall x :: 0 <= x <= |word1| ==> IsCell(disMap[x, 0], pass[x, 0], word1[..x], word2[..0])
  {
    disMap[0, 0] := 0;
    pass[0, 0] := [];
    for j := 1 to |word2| + 1
      invariant forall y :: 0 <= y < j ==> IsCell(disMap[0, y], pass[0, y], word1[..0], word2[..y])
    {
      assert Init(word2[..j]) == word2[..j - 1];
      disMap[0, j] := j;
      pass[0, j] := pass[0, j - 1] + [Op(-1, j - 1, 0)];
    }
    for i := 1 to |word1| + 1
      invariant forall y :: 0 <= y <= |word2| ==> IsCell(disMap[0, y], pass[0, y], word1[..0], word2[..y])
      invariant forall x :: 0 <= x < i ==> IsCell(disMap[x, 0], pass[x, 0], word1[..x], word2[..0])
    {
      assert Init(word1[..i]) == word1[..i - 1];
      disMap[i, 0] := i;
      pass[i, 0] := pass[i - 1, 0] + [Op(-2, i - 1, i - 1)];
    }
  }

  // The inner loop.
  method FillRow(disMap: array2<nat>, pass: array2<seq<Op>>, word1: seq<int>, word2: seq<int>, i: nat)
    requires disMap.Length0 == pass.Length0 == |word1| + 1
    requires disMap.Length1 == pass.Length1 == |word2| + 1
    requires 1 <= i <= |word1|
    requires forall y :: 0 <= y <= |word2| ==> IsCell(disMap[i - 1, y], pass[i - 1, y], word1[..i - 1], word2[..y])
    requires IsCell(disMap[i, 0], pass[i, 0], word1[..i], word2[..0])
    modifies disMap, pass
    ensures forall y :: 0 <= y <= |word2| ==> IsCell(disMap[i, y], pass[i, y], word1[..i], word2[..y])
    ensures forall x, y :: 0 <= x <= |word1| && 0 <= y <= |word2| && x != i ==>
              disMap[x, y] == old(disMap[x, y]) && pass[x, y] == old(pass[x, y])
  {
    for j := 1 to |word2| + 1
      invariant forall y :: 0 <= y < j ==> IsCell(disMap[i, y], pass[i, y], word1[..i], word2[..y])
      invariant forall x, y :: 0 <= x <= |word1| && 0 <= y <= |word2| && x != i ==>
                  disMap[x, y] == old(disMap[x, y]) && pass[x, y] == old(pass[x, y])
    {
      FillCell(disMap, pass, word1, word2, i, j);
    }
  }

  // The body of the inner loop.
  method FillCell(disMap: array2<nat>, pass: array2<seq<Op>>, word1: seq<int>, word2: seq<int>, i: nat, j: nat)
    requires disMap.Length0 == pass.Length0 == |word1| + 1
    requires disMap.Length1 == pass.Length1 == |word2| + 1
    requires 1 <= i <= |word1| && 1 <= j <= |word2|
    requires IsCell(disMap[i - 1, j], pass[i - 1, j], word1[..i - 1], word2[..j])
    requires IsCell(disMap[i, j - 1], pass[i, j - 1], word1[..i], word2[..j - 1])
    requires IsCell(disMap[i - 1, j - 1], pass[i - 1, j - 1], word1[..i - 1], word2[..j - 1])
    modifies disMap, pass
    ensures IsCell(disMap[i, j], pass[i, j], word1[..i], word2[..j])
    ensures forall x, y :: 0 <= x <= |word1| && 0 <= y <= |word2| && (x != i || y != j) ==>
              disMap[x, y] == old(disMap[x, y]) && pass[x, y] == old(pass[x, y])
  {
    assert Init(word1[..i]) == word1[..i - 1] && Init(word2[..j]) == word2[..j - 1];
    var dis1 := disMap[i - 1, j] + 1;
    var dis2 := disMap[i, j - 1] + 1;
    var dis3 := if word1[i - 1] == word2[j - 1] then disMap[i - 1, j - 1] else disMap[i - 1, j - 1] + 1;
    disMap[i, j] := Min(dis1, Min(dis2, dis3));
    if dis1 == disMap[i, j] {
      pass[i, j] := pass[i - 1, j] + [Op(-2, i - 1, j - 1)];
    } else if dis2 == disMap[i, j] {
      pass[i, j] := pass[i, j - 1] + [Op(-1, j - 1, j - 1)];
    } else if dis3 == disMap[i, j] {
      pass[i, j] := pass[i - 1, j - 1];
      if word1[i - 1] != word2[j - 1] {
        pass[i, j] := pass[i, j] + [Op(i - 1, j - 1, j - 1)];
      }
    }
  }

  // What a pair of table cells holds for two prefixes.
  ghost predicate IsCell(d: nat, script: seq<Op>, w1: seq<int>, w2: seq<int>) {
    d == Dist(w1, w2) && script == Script(w1, w2)
  }

  // ----- Edits of a sequence: the reference against which scripts are judged

  datatype Edit = Insert(at: nat, x: int) | Remove(at: nat) | Replace(at: nat, x: int)

  ghost predicate Applicable(e: Edit, s: seq<int>) {
    if e.Insert? then e.at <= |s| else e.at < |s|
  }

  ghost function Apply(e: Edit, s: seq<int>): seq<int>
    requires Applicable(e, s)
  {
    match e
    case Insert(k, x) => s[..k] + [x] + s[k..]
    case Remove(k) => s[..k] + s[k + 1..]
    case Replace(k, x) => s[..k] + [x] + s[k + 1..]
  }

  // edits, made one after the other, turn s into t.
  ghost predicate Turns(edits: seq<Edit>, s: seq<int>, t: seq<int>) {
    if edits == [] then s == t
    else Applicable(edits[0], s) && Turns(edits[1..], Apply(edits[0], s), t)
  }

  // ----- Replaying a script, left to right, over word2

  // out is what has been produced so far, word2[cur..] is still to be copied.
  datatype Tape = Tape(out: seq<int>, cur: nat)

  // None when the entry does not fit: it points before the cursor or past a word.
  ghost function ReplayOp(t: Tape, op: Op, w1: seq<int>, w2: seq<int>): Option<Tape> {
    if op.left == -1 then
      if t.cur <= op.right < |w2| then Some(Tape(t.out + w2[t.cur..op.right], op.right + 1)) else None
    else if op.left == -2 then
      var n := op.right - |t.out|;
      if 0 <= n && t.cur + n <= |w2| && 0 <= op.right < |w1|
      then Some(Tape(t.out + w2[t.cur..t.cur + n] + [w1[op.right]], t.cur + n)) else None
    else
      if t.cur <= op.right < |w2| && 0 <= op.left < |w1|
      then Some(Tape(t.out + w2[t.cur..op.right] + [w1[op.left]], op.right + 1)) else None
  }

  ghost function ReplayOps(script: seq<Op>, w1: seq<int>, w2: seq<int>): Option<Tape> {
    if script == [] then Some(Tape([], 0))
    else
      var t := ReplayOps(Init(script), w1, w2);
      if t.None? then None else ReplayOp(t.value, Last(script), w1, w2)
  }

  // The whole replay: after the last entry the rest of word2 is copied.
  ghost function Replay(script: seq<Op>, w1: seq<int>, w2: seq<int>): Option<seq<int>> {
    var t := ReplayOps(script, w1, w2);
    if t.None? || t.value.cur > |w2| then None else Some(t.value.out + w2[t.value.cur..])
  }

  // ----- Replaying the returned script yields word1

  // The script of two prefixes, replayed over the longer words, stops inside
  // the prefix of w2, and copying the rest of that prefix completes that of w1.
  ghost predicate ReplaysPrefix(script: seq<Op>, w1: seq<int>, w2: seq<int>, i: nat, j: nat)
    requires i <= |w1| && j <= |w2|
  {
    var t := ReplayOps(script, w1, w2);
    t.Some? && t.value.cur <= j && t.value.out + w2[t.value.cur..j] == w1[..i]
  }

  lemma ReplayPush(script: seq<Op>, op: Op, w1: seq<int>, w2: seq<int>, i: nat, j: nat, i': nat, j': nat)
    requires i <= i' <= |w1| && j <= j' <= |w2|
    requires ReplaysPrefix(script, w1, w2, i, j)
    requires
      || (op.left == -1 && op.right == j && i' == i && j' == j + 1)
      || (op.left == -2 && op.right == i && i' == i + 1 && j' == j)
      || (op.left == i && op.right == j && i' == i + 1 && j' == j + 1)
    ensures ReplaysPrefix(script + [op], w1, w2, i', j')
  {
    assert Init(script + [op]) == script;
    var t := ReplayOps(script, w1, w2).value;
    assert |t.out| + (j - t.cur) == |w1[..i]| == i;
    assert w1[..i + if i' == i then 0 else 1] == if i' == i then w1[..i] else w1[..i] + [w1[i]];
  }

  lemma ReplayKeep(script: seq<Op>, w1: seq<int>, w2: seq<int>, i: nat, j: nat)
    requires i < |w1| && j < |w2| && w1[i] == w2[j]
    requires ReplaysPrefix(script, w1, w2, i, j)
    ensures ReplaysPrefix(script, w1, w2, i + 1, j + 1)
  {
    var t := ReplayOps(script, w1, w2).value;
    assert w2[t.cur..j + 1] == w2[t.cur..j] + [w2[j]];
    Associative(t.out, w2[t.cur..j], [w2[j]]);
    assert w1[..i + 1] == w1[..i] + [w1[i]];
  }

  lemma Associative<T>(a: seq<T>, b: seq<T>, c: seq<T>)
    ensures a + (b + c) == (a + b) + c
  {
  }

  lemma {:induction false} ScriptReplaysPrefix(a: seq<int>, b: seq<int>, w1: seq<int>, w2: seq<int>)
    requires a <= w1 && b <= w2
    ensures ReplaysPrefix(Script(a, b), w1, w2, |a|, |b|)
    decreases |a| + |b|
  {
    if a == [] && b == [] {
      assert Script(a, b) == [];
    } else if a != [] && (b == [] || Dist(Init(a), b) + 1 == Dist(a, b)) {
      ScriptReplaysPrefix(Init(a), b, w1, w2);
      var pos := if b == [] then |a| - 1 else |b| - 1;
      ReplayPush(Script(Init(a), b), Op(-2, |a| - 1, pos), w1, w2, |a| - 1, |b|, |a|, |b|);
    } else if a == [] || Dist(a, Init(b)) + 1 == Dist(a, b) {
      ScriptReplaysPrefix(a, Init(b), w1, w2);
      var pos := if a == [] then 0 else |b| - 1;
      ReplayPush(Script(a, Init(b)), Op(-1, |b| - 1, pos), w1, w2, |a|, |b| - 1, |a|, |b|);
    } else {
      ScriptReplaysPrefix(Init(a), Init(b), w1, w2);
      if Last(a) == Last(b) {
        ReplayKeep(Script(Init(a), Init(b)), w1, w2, |a| - 1, |b| - 1);
      } else {
        ReplayPush(Script(Init(a), Init(b)), Op(|a| - 1, |b| - 1, |b| - 1), w1, w2, |a| - 1, |b| - 1, |a|, |b|);
      }
    }
  }

  lemma ReplayYieldsWord1(word1: seq<int>, word2: seq<int>)
    ensures Replay(Script(word1, word2), word1, word2) == Some(word1)
  {
    ScriptReplaysPrefix(word1, word2, word1, word2);
    assert word1[..|word1|] == word1 && word2[..|word2|] == word2;
    var t := ReplayOps(Script(word1, word2), word1, word2).value;
    assert word2[t.cur..|word2|] == word2[t.cur..];
  }

  // ----- Where an entry says that it is

  // The position of an entry, for a replay that has come to t: the element of
  // word2 that it removes or replaces, or the last one before the element it
  // inserts. Before any of word1, or of word2, it is 0, or the index in word1.
  ghost predicate IsPlaced(op: Op, t: Tape) {
    var i, j := |t.out| + op.right - t.cur, t.cur + op.right - |t.out|;
    op.pos ==
      if op.left == -1 then (if i == 0 then 0 else op.right)
      else if op.left == -2 then (if j == 0 then op.right else j - 1)
      else op.right
  }

  ghost predicate AllPlaced(script: seq<Op>, w1: seq<int>, w2: seq<int>) {
    forall k :: 0 <= k < |script| ==>
      ReplayOps(script[..k], w1, w2).Some? && IsPlaced(script[k], ReplayOps(script[..k], w1, w2).value)
  }

  lemma PlacedPush(script: seq<Op>, op: Op, w1: seq<int>, w2: seq<int>)
    requires AllPlaced(script, w1, w2) && ReplayOps(script, w1, w2).Some?
    requires IsPlaced(op, ReplayOps(script, w1, w2).value)
    ensures AllPlaced(script + [op], w1, w2)
  {
    var more := script + [op];
    assert more[..|script|] == script;
    forall k | 0 <= k < |script|
      ensures ReplayOps(more[..k], w1, w2).Some? && IsPlaced(more[k], ReplayOps(more[..k], w1, w2).value)
    {
      assert more[..k] == script[..k] && more[k] == script[k];
    }
    hide ReplayOps, IsPlaced;
  }

  lemma {:induction false} PrefixIsPlaced(a: seq<int>, b: seq<int>, w1: seq<int>, w2: seq<int>)
    requires a <= w1 && b <= w2
    ensures AllPlaced(Script(a, b), w1, w2)
    decreases |a| + |b|
  {
    hide ReplayOps, AllPlaced, Dist;
    if a == [] && b == [] {
      NothingPlaced(w1, w2);
    } else if a != [] && (b == [] || Dist(Init(a), b) + 1 == Dist(a, b)) {
      PrefixIsPlaced(Init(a), b, w1, w2);
      ScriptReplaysPrefix(Init(a), b, w1, w2);
      PlaceOf(Script(Init(a), b), w1, w2, |a| - 1, |b|);
      PlacedPush(Script(Init(a), b), Op(-2, |a| - 1, if b == [] then |a| - 1 else |b| - 1), w1, w2);
    } else if a == [] || Dist(a, Init(b)) + 1 == Dist(a, b) {
      PrefixIsPlaced(a, Init(b), w1, w2);
      ScriptReplaysPrefix(a, Init(b), w1, w2);
      PlaceOf(Script(a, Init(b)), w1, w2, |a|, |b| - 1);
      PlacedPush(Script(a, Init(b)), Op(-1, |b| - 1, if a == [] then 0 else |b| - 1), w1, w2);
    } else {
      PrefixIsPlaced(Init(a), Init(b), w1, w2);
      if Last(a) != Last(b) {
        ScriptReplaysPrefix(Init(a), Init(b), w1, w2);
        PlaceOf(Script(Init(a), Init(b)), w1, w2, |a| - 1, |b| - 1);
        PlacedPush(Script(Init(a), Init(b)), Op(|a| - 1, |b| - 1, |b| - 1), w1, w2);
      }
    }
  }

  lemma NothingPlaced(w1: seq<int>, w2: seq<int>)
    ensures AllPlaced([], w1, w2)
  {
  }

  // A replay that has completed i elements of word1 has read j of word2.
  lemma PlaceOf(script: seq<Op>, w1: seq<int>, w2: seq<int>, i: nat, j: nat)
    requires i <= |w1| && j <= |w2| && ReplaysPrefix(script, w1, w2, i, j)
    ensures ReplayOps(script, w1, w2).Some?
    ensures var t := ReplayOps(script, w1, w2).value; |t.out| + j - t.cur == i
  {
    var t := ReplayOps(script, w1, w2).value;
    assert |t.out + w2[t.cur..j]| == |w1[..i]|;
  }

  lemma ScriptIsPlaced(word1: seq<int>, word2: seq<int>)
    ensures AllPlaced(Script(word1, word2), word1, word2)
  {
    PrefixIsPlaced(word1, word2, word1, word2);
  }

  // ----- Every entry is one edit, so the script is an edit sequence of its length

  // What the replay would give if it stopped here and copied the rest of w2.
  ghost function Whole(t: Tape, w2: seq<int>): seq<int>
    requires t.cur <= |w2|
  {
    t.out + w2[t.cur..]
  }

  ghost function EditOf(t: Tape, op: Op, w1: seq<int>, w2: seq<int>): Edit
    requires ReplayOp(t, op, w1, w2).Some?
  {
    if op.left == -1 then Remove(|t.out| + op.right - t.cur)
    else if op.left == -2 then Insert(op.right, w1[op.right])
    else Replace(|t.out| + op.right - t.cur, w1[op.left])
  }

  lemma OneEntryIsOneEdit(t: Tape, op: Op, w1: seq<int>, w2: seq<int>)
    requires t.cur <= |w2| && ReplayOp(t, op, w1, w2).Some?
    ensures var t' := ReplayOp(t, op, w1, w2).value;
      && t'.cur <= |w2|
      && Applicable(EditOf(t, op, w1, w2), Whole(t, w2))
      && Apply(EditOf(t, op, w1, w2), Whole(t, w2)) == Whole(t', w2)
  {
    hide Whole, Apply, Applicable;
    if op.left == -1 {
      RemoveIsRemove(t, op.right - t.cur, w2);
    } else if op.left == -2 {
      InsertIsInsert(t, op.right - |t.out|, w1[op.right], w2);
    } else {
      ReplaceIsReplace(t, op.right - t.cur, w1[op.left], w2);
    }
  }

  lemma RemoveIsRemove(t: Tape, n: nat, w2: seq<int>)
    requires t.cur + n < |w2|
    ensures var e := Remove(|t.out| + n);
      Applicable(e, Whole(t, w2)) && Apply(e, Whole(t, w2)) == Whole(Tape(t.out + w2[t.cur..t.cur + n], t.cur + n + 1), w2)
  {
    CopyThenEdit(t, n, w2);
    var s, k := Whole(t, w2), |t.out| + n;
    hide Whole;
    WholeIs(Tape(t.out + w2[t.cur..t.cur + n], t.cur + n + 1), w2);
    assert s[..k] + s[k + 1..] == (t.out + w2[t.cur..t.cur + n]) + w2[t.cur + n + 1..];
  }

  lemma WholeIs(t: Tape, w2: seq<int>)
    requires t.cur <= |w2|
    ensures Whole(t, w2) == t.out + w2[t.cur..]
  {
  }

  lemma InsertIsInsert(t: Tape, n: nat, x: int, w2: seq<int>)
    requires t.cur + n <= |w2|
    ensures var e := Insert(|t.out| + n, x);
      Applicable(e, Whole(t, w2)) && Apply(e, Whole(t, w2)) == Whole(Tape(t.out + w2[t.cur..t.cur + n] + [x], t.cur + n), w2)
  {
    CopyThenEdit(t, n, w2);
  }

  lemma ReplaceIsReplace(t: Tape, n: nat, x: int, w2: seq<int>)
    requires t.cur + n < |w2|
    ensures var e := Replace(|t.out| + n, x);
      Applicable(e, Whole(t, w2)) && Apply(e, Whole(t, w2)) == Whole(Tape(t.out + w2[t.cur..t.cur + n] + [x], t.cur + n + 1), w2)
  {
    CopyThenEdit(t, n, w2);
  }

  // After n more elements were copied the rest of word2 follows.
  lemma CopyThenEdit(t: Tape, n: nat, w2: seq<int>)
    requires t.cur + n <= |w2|
    ensures |Whole(t, w2)| == |t.out| + |w2| - t.cur
    ensures Whole(t, w2)[..|t.out| + n] == t.out + w2[t.cur..t.cur + n]
    ensures Whole(t, w2)[|t.out| + n..] == w2[t.cur + n..]
    ensures t.cur + n < |w2| ==> Whole(t, w2)[|t.out| + n + 1..] == w2[t.cur + n + 1..]
  {
  }

  lemma {:induction false} TurnsAppend(edits: seq<Edit>, e: Edit, s: seq<int>, t: seq<int>)
    requires Turns(edits, s, t) && Applicable(e, t)
    ensures Turns(edits + [e], s, Apply(e, t))
  {
    if edits == [] {
    } else {
      assert (edits + [e])[1..] == edits[1..] + [e];
      TurnsAppend(edits[1..], e, Apply(edits[0], s), t);
    }
  }

  lemma {:induction false} ScriptAsEdits(script: seq<Op>, w1: seq<int>, w2: seq<int>) returns (edits: seq<Edit>)
    requires ReplayOps(script, w1, w2).Some?
    ensures |edits| == |script|
    ensures var t := ReplayOps(script, w1, w2).value; t.cur <= |w2| && Turns(edits, w2, Whole(t, w2))
  {
    if script == [] {
      edits := [];
      assert Whole(Tape([], 0), w2) == w2;
    } else {
      var t := ReplayOps(Init(script), w1, w2).value;
      edits := ScriptAsEdits(Init(script), w1, w2);
      OneEntryIsOneEdit(t, Last(script), w1, w2);
      TurnsAppend(edits, EditOf(t, Last(script), w1, w2), w2, Whole(t, w2));
      edits := edits + [EditOf(t, Last(script), w1, w2)];
    }
  }

  // ----- Optimality: no edit sequence is shorter

  lemma {:induction false} ScriptLength(w1: seq<int>, w2: seq<int>)
    ensures |Script(w1, w2)| == Dist(w1, w2)
    decreases |w1| + |w2|
  {
    if w1 != [] {
      ScriptLength(Init(w1), w2);
    }
    if w2 != [] {
      ScriptLength(w1, Init(w2));
    }
    if w1 != [] && w2 != [] {
      ScriptLength(Init(w1), Init(w2));
    }
  }

  lemma {:induction false} DistToSelf(w: seq<int>)
    ensures Dist(w, w) == 0
  {
    if w != [] {
      DistToSelf(Init(w));
    }
  }

  // x is no more than one edit further from any w than y is.
  ghost predicate Near(x: seq<int>, y: seq<int>) {
    forall w: seq<int> :: Dist(w, x) <= Dist(w, y) + 1
  }

  lemma {:induction false} DistDropLast(w: seq<int>, x: seq<int>, e: int)
    ensures Dist(w, x) <= Dist(w, x + [e]) + 1
  {
    assert Init(x + [e]) == x;
    if w != [] {
      DistDropLast(Init(w), x, e);
    }
  }

  lemma {:induction false} DistAddLast(w: seq<int>, x: seq<int>, e: int)
    ensures Dist(w, x + [e]) <= Dist(w, x) + 1
  {
    assert Init(x + [e]) == x;
  }

  lemma {:induction false} DistLast(w: seq<int>, x: seq<int>, c: int, d: int)
    ensures Dist(w, x + [c]) <= Dist(w, x + [d]) + 1
  {
    assert Init(x + [c]) == x && Init(x + [d]) == x;
    if w != [] {
      DistLast(Init(w), x, c, d);
    }
  }

  lemma {:induction false} DistSameLast(w: seq<int>, x: seq<int>, y: seq<int>, e: int)
    requires Near(x, y)
    ensures Dist(w, x + [e]) <= Dist(w, y + [e]) + 1
  {
    assert Init(x + [e]) == x && Init(y + [e]) == y;
    assert Dist(w, x) <= Dist(w, y) + 1;
    if w != [] {
      DistSameLast(Init(w), x, y, e);
      assert Dist(Init(w), x) <= Dist(Init(w), y) + 1;
    } else {
      assert Dist([], x) <= Dist([], y) + 1;
    }
  }

  lemma {:induction false} NearSuffix(x: seq<int>, y: seq<int>, suffix: seq<int>)
    requires Near(x, y)
    ensures Near(x + suffix, y + suffix)
  {
    if suffix == [] {
      assert x + suffix == x && y + suffix == y;
    } else {
      var s, e := Init(suffix), Last(suffix);
      NearSuffix(x, y, s);
      assert x + suffix == (x + s) + [e] && y + suffix == (y + s) + [e];
      forall w ensures Dist(w, x + suffix) <= Dist(w, y + suffix) + 1 {
        DistSameLast(w, x + s, y + s, e);
      }
    }
  }

  lemma EditIsNear(e: Edit, s: seq<int>)
    requires Applicable(e, s)
    ensures Near(s, Apply(e, s))
  {
    var p, k := s[..e.at], e.at;
    match e
    case Insert(_, x) =>
      forall w ensures Dist(w, p) <= Dist(w, p + [x]) + 1 { DistDropLast(w, p, x); }
      NearSuffix(p, p + [x], s[k..]);
      assert s == p + s[k..];
    case Remove(_) =>
      forall w ensures Dist(w, p + [s[k]]) <= Dist(w, p) + 1 { DistAddLast(w, p, s[k]); }
      NearSuffix(p + [s[k]], p, s[k + 1..]);
      assert s == p + [s[k]] + s[k + 1..];
    case Replace(_, x) =>
      forall w ensures Dist(w, p + [s[k]]) <= Dist(w, p + [x]) + 1 { DistLast(w, p, s[k], x); }
      NearSuffix(p + [s[k]], p + [x], s[k + 1..]);
      assert s == p + [s[k]] + s[k + 1..];
  }

  lemma {:induction false} EditsReachDist(edits: seq<Edit>, s: seq<int>, t: seq<int>)
    requires Turns(edits, s, t)
    ensures Dist(t, s) <= |edits|
  {
    if edits == [] {
      DistToSelf(s);
    } else {
      EditIsNear(edits[0], s);
      EditsReachDist(edits[1..], Apply(edits[0], s), t);
    }
  }

  // The returned script is a shortest way to turn word2 into word1.
  lemma ScriptIsShortest(word1: seq<int>, word2: seq<int>)
    ensures exists edits :: |edits| == |Script(word1, word2)| && Turns(edits, word2, word1)
    ensures forall edits :: Turns(edits, word2, word1) ==> |Script(word1, word2)| <= |edits|
  {
    ReplayYieldsWord1(word1, word2);
    var edits := ScriptAsEdits(Script(word1, word2), word1, word2);
    assert Turns(edits, word2, word1);
    ScriptLength(word1, word2);
    forall edits | Turns(edits, word2, word1) ensures |Script(word1, word2)| <= |edits| {
      EditsReachDist(edits, word2, word1);
    }
  }

  lemma {:induction false} DistBound(w1: seq<int>, w2: seq<int>)
    ensures Dist(w1, w2) <= Max(|w1|, |w2|)
    decreases |w1| + |w2|
  {
    if w1 != [] && w2 != [] {
      DistBound(Init(w1), Init(w2));
    }
  }

  // ----- the_edit_pass: the script flattened into the caller's buffer

  function Flat(script: seq<Op>): (r: seq<int>)
    ensures |r| == 3 * |script|
  {
    if script == [] then [] else Flat(Init(script)) + [Last(script).left, Last(script).right, Last(script).pos]
  }

  // The buffer has to hold the script, which is never more than three ints per
  // element of the longer word. Both words are copied first, so it may be one of them.
  method TheEditPass(reference: array<int>, hypothesis: array<int>, result: array<int>) returns (size: nat)
    requires result.Length >= 3 * Dist(reference[..], hypothesis[..])
    modifies result
    ensures size == 3 * Dist(old(reference[..]), old(hypothesis[..])) <= 3 * Max(reference.Length, hypothesis.Length)
    ensures result[..size] == Flat(Script(old(reference[..]), old(hypothesis[..])))
    ensures result[size..] == old(result[size..])
  {
    hide Script, Dist, Flat;
    var pass := EditPass(reference[..], hypothesis[..]);
    ScriptLength(reference[..], hypothesis[..]);
    DistBound(reference[..], hypothesis[..]);
    size := 0;
    NothingFlat();
    for k := 0 to |pass|
      invariant size == 3 * k && 3 * |pass| <= result.Length
      invariant result[..size] == Flat(pass[..k])
      invariant result[size..] == old(result[..])[size..]
    {
      FlatAppend(pass[..k], pass[k]);
      assert pass[..k] + [pass[k]] == pass[..k + 1];
      StoreOp(result, size, pass[k]);
      size := size + 3;
    }
    assert pass[..|pass|] == pass;
  }

  // Three ints into the buffer.
  method StoreOp(result: array<int>, size: nat, op: Op)
    requires size + 3 <= result.Length
    modifies result
    ensures result[..size + 3] == old(result[..size]) + [op.left, op.right, op.pos]
    ensures result[size + 3..] == old(result[size + 3..])
  {
    result[size], result[size + 1], result[size + 2] := op.left, op.right, op.pos;
  }

  lemma NothingFlat()
    ensures Flat([]) == []
  {
  }

  lemma FlatAppend(script: seq<Op>, op: Op)
    ensures Flat(script + [op]) == Flat(script) + [op.left, op.right, op.pos]
  {
    assert Init(script + [op]) == script;
  }

  lemma {:induction false} FlatRoundTrip(script: seq<Op>, k: nat)
    requires k < |script|
    ensures Flat(script)[3 * k..3 * k + 3] == [script[k].left, script[k].right, script[k].pos]
  {
    if k < |script| - 1 {
      FlatRoundTrip(Init(script), k);
      assert Flat(script)[3 * k..3 * k + 3] == Flat(Init(script))[3 * k..3 * k + 3];
    }
  }
}
