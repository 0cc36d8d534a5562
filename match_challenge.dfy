/**
 * The match challenge (components/challenges/MatchChallenge.tsx): the
 * player links each left item to a right item, submits the links as label
 * pairs, and the component restores its links from the best attempt.
 */
module Match {
  import opened Types
  import opened Sequences

  // ---------------------------------------------------------------------
  // Pure view of the payload and of an assignment map
  // ---------------------------------------------------------------------

  /** The left labels, in the payload's order. */
  function Lefts(pairs: seq<MatchPair>): (r: seq<string>)
    ensures |r| == |pairs| && forall i :: 0 <= i < |pairs| ==> r[i] == pairs[i].left
  {
    seq(|pairs|, i requires 0 <= i < |pairs| => pairs[i].left)
  }

  /** `rightItems`: the right labels, in the payload's order (not shuffled). */
  function RightItems(pairs: seq<MatchPair>): (r: seq<string>)
    ensures |r| == |pairs| && forall i :: 0 <= i < |pairs| ==> r[i] == pairs[i].right
  {
    seq(|pairs|, i requires 0 <= i < |pairs| => pairs[i].right)
  }

  /** Every key and every value is an index of a pair. */
  ghost predicate InRange(m: map<int, int>, n: nat) {
    forall k :: k in m ==> 0 <= k < n && 0 <= m[k] < n
  }

  /** No right index is linked to two left indices. */
  ghost predicate Injective(m: map<int, int>) {
    forall k1, k2 :: k1 in m && k2 in m && k1 != k2 ==> m[k1] != m[k2]
  }

  /** The indices 0 .. n-1. */
  ghost function Indices(n: nat): (s: set<int>)
    ensures forall i :: i in s <==> 0 <= i < n
  {
    if n == 0 then {} else Indices(n - 1) + {n - 1}
  }

  /** `isRightAssigned`: `Object.values(assignments).includes(rightIndex)`. */
  predicate IsRightAssigned(m: map<int, int>, rightIndex: int) {
    rightIndex in m.Values
  }

  /** `allAssigned`: `Object.keys(assignments).length === payload.pairs.length`. */
  predicate AllAssigned(m: map<int, int>, n: nat) {
    |m.Keys| == n
  }

  /**
   * `isMatchCorrect(l, r)`: `rightItems[r] === payload.pairs[l]?.right`.
   * Out-of-range reads are `undefined`, so two out-of-range indices compare
   * equal and one out-of-range index never matches a label.
   */
  function IsMatchCorrect(pairs: seq<MatchPair>, leftIndex: int, rightIndex: int): (ok: bool)
    ensures 0 <= leftIndex < |pairs| && 0 <= rightIndex < |pairs| ==>
              (ok <==> pairs[rightIndex].right == pairs[leftIndex].right)
    ensures (0 <= leftIndex < |pairs|) != (0 <= rightIndex < |pairs|) ==> !ok
    ensures !(0 <= leftIndex < |pairs|) && !(0 <= rightIndex < |pairs|) ==> ok
  {
    var expected := match At(pairs, leftIndex)
      case Some(p) => Some(p.right)
      case None => None;
    At(RightItems(pairs), rightIndex) == expected
  }

  /** Since `rightItems` keeps the payload's order, linking i to i is always correct. */
  lemma MatchCorrectDiagonal(pairs: seq<MatchPair>, i: int)
    requires 0 <= i < |pairs|
    ensures IsMatchCorrect(pairs, i, i)
  {
  }

  /** With distinct right labels, only the link i to i is correct. */
  lemma MatchCorrectOnlyDiagonal(pairs: seq<MatchPair>, l: int, r: int)
    requires Distinct(RightItems(pairs))
    requires 0 <= l < |pairs| && 0 <= r < |pairs|
    ensures IsMatchCorrect(pairs, l, r) <==> l == r
  {
  }

  // ---------------------------------------------------------------------
  // Counting: "all assigned" and the permutation it yields
  // ---------------------------------------------------------------------

  lemma {:induction false} IndicesCard(n: nat)
    ensures |Indices(n)| == n
  {
    if n > 0 {
      IndicesCard(n - 1);
    }
  }

  /**
   * A set of indices below n has at most n elements, and exactly n only
   * when it holds all of them.
   */
  lemma {:induction false} SubsetOfIndices(a: set<int>, n: nat)
    requires a <= Indices(n)
    ensures |a| <= n
    ensures |a| == n ==> a == Indices(n)
  {
    if n == 0 {
      assert a == {};
    } else {
      var a' := a - {n - 1};
      SubsetOfIndices(a', n - 1);
      if n - 1 in a {
        assert a == a' + {n - 1};
      } else {
        assert a == a';
      }
    }
  }

  /** The right indices a map links to. */
  ghost function Image(m: map<int, int>): set<int> {
    set k | k in m :: m[k]
  }

  /** An injective map whose keys lie below n has as many targets as keys. */
  lemma {:induction false} InjectiveImageCard(m: map<int, int>, n: nat)
    requires Injective(m) && m.Keys <= Indices(n)
    ensures |Image(m)| == |m.Keys|
  {
    if n == 0 {
      assert m.Keys == {};
      assert Image(m) == {};
    } else if n - 1 in m {
      var rest := m - {n - 1};
      RemoveKey(m, n - 1);
      InjectiveImageCard(rest, n - 1);
      ImageRemove(m, n - 1);
      assert |Image(m)| == |Image(rest)| + 1;
      assert |m.Keys| == |rest.Keys| + 1;
    } else {
      InjectiveImageCard(m, n - 1);
    }
  }

  /** Removing a present key leaves an injective map with one key fewer. */
  lemma RemoveKey(m: map<int, int>, k: int)
    requires Injective(m) && k in m
    ensures Injective(m - {k})
    ensures forall k' :: k' in m - {k} <==> k' in m && k' != k
    ensures m.Keys == (m - {k}).Keys + {k} && k !in (m - {k}).Keys
  {
  }

  /** Removing a key of an injective map removes exactly its target. */
  lemma ImageRemove(m: map<int, int>, k: int)
    requires Injective(m) && k in m
    ensures Image(m) == Image(m - {k}) + {m[k]}
    ensures m[k] !in Image(m - {k})
  {
    var rest := m - {k};
    forall v | v in Image(m) ensures v in Image(rest) + {m[k]} {
      var k' :| k' in m && m[k'] == v;
      if k' != k { assert rest[k'] == v; }
    }
    forall v | v in Image(rest) ensures v in Image(m) {
      var k' :| k' in rest && rest[k'] == v;
      assert m[k'] == v;
    }
  }

  /**
   * Counted keys within range: the map has n keys exactly when every left
   * index 0 .. n-1 is linked.
   */
  lemma AllAssignedIff(m: map<int, int>, n: nat)
    requires InRange(m, n)
    ensures AllAssigned(m, n) <==> forall i :: 0 <= i < n ==> i in m
  {
    IndicesCard(n);
    assert m.Keys <= Indices(n);
    SubsetOfIndices(m.Keys, n);
    if forall i :: 0 <= i < n ==> i in m {
      assert m.Keys == Indices(n);
    }
  }

  /**
   * An injective, fully assigned map within range links the left indices
   * one-to-one onto the right indices: every left index is linked and every
   * right index is used, so it is a permutation of 0 .. n-1.
   */
  lemma AssignedIsPermutation(m: map<int, int>, n: nat)
    requires InRange(m, n) && Injective(m) && AllAssigned(m, n)
    ensures forall i :: 0 <= i < n ==> i in m
    ensures forall j :: 0 <= j < n ==> IsRightAssigned(m, j)
  {
    AllAssignedIff(m, n);
    ImageIsIndices(m, n);
    forall j | 0 <= j < n ensures IsRightAssigned(m, j) {
      assert j in Image(m);
      var k :| k in m && m[k] == j;
      assert m[k] in m.Values;
    }
  }

  lemma ImageIsIndices(m: map<int, int>, n: nat)
    requires InRange(m, n) && Injective(m) && AllAssigned(m, n)
    ensures Image(m) == Indices(n)
  {
    IndicesCard(n);
    assert m.Keys <= Indices(n);
    InjectiveImageCard(m, n);
    assert Image(m) <= Indices(n);
    SubsetOfIndices(Image(m), n);
  }

  /** A new link to a right index no left uses keeps the map injective. */
  lemma AssignKeepsInjective(m: map<int, int>, l: int, r: int)
    requires Injective(m) && !IsRightAssigned(m, r)
    ensures Injective(m[l := r])
  {
    var m' := m[l := r];
    forall k1, k2 | k1 in m' && k2 in m' && k1 != k2 ensures m'[k1] != m'[k2] {
      if k1 != l && k2 != l {
      } else if k1 == l {
        assert m[k2] in m.Values;
      } else {
        assert m[k1] in m.Values;
      }
    }
  }

  // ---------------------------------------------------------------------
  // Submission: the label pairs sent by handleSubmit
  // ---------------------------------------------------------------------

  /**
   * `payload.pairs.map((pair, index) => ({ left: pair.left,
   * right: rightItems[assignments[index]] }))`, for a fully assigned map.
   */
  function Submission(pairs: seq<MatchPair>, m: map<int, int>): (sent: seq<MatchPair>)
    requires InRange(m, |pairs|) && AllAssigned(m, |pairs|)
    ensures |sent| == |pairs|
    ensures forall i :: 0 <= i < |pairs| ==>
              i in m && sent[i].left == pairs[i].left && sent[i].right == pairs[m[i]].right
  {
    AllAssignedIff(m, |pairs|);
    seq(|pairs|, i requires 0 <= i < |pairs| => MatchPair(pairs[i].left, RightItems(pairs)[m[i]]))
  }

  // ---------------------------------------------------------------------
  // Restore: the assignments rebuilt from a best attempt's pairs
  // ---------------------------------------------------------------------

  /** The left index `findIndex` returns for an attempt pair (or -1). */
  function LeftIndexOf(pairs: seq<MatchPair>, p: MatchPair): int {
    IndexOf(Lefts(pairs), p.left)
  }

  /** The right index `rightItems.indexOf` returns for an attempt pair (or -1). */
  function RightIndexOf(pairs: seq<MatchPair>, p: MatchPair): int {
    IndexOf(RightItems(pairs), p.right)
  }

  /** Both labels of the attempt pair were found in the payload. */
  predicate Resolves(pairs: seq<MatchPair>, p: MatchPair) {
    LeftIndexOf(pairs, p) >= 0 && RightIndexOf(pairs, p) >= 0
  }

  /** One `forEach` step: link the pair's indices when both labels are found. */
  function RestoreStep(pairs: seq<MatchPair>, acc: map<int, int>, p: MatchPair): map<int, int> {
    if Resolves(pairs, p) then acc[LeftIndexOf(pairs, p) := RightIndexOf(pairs, p)] else acc
  }

  /**
   * The map the restore effect's `forEach` has built after the first k
   * attempt pairs: each pair whose labels are both found sets its left
   * index to its right index (later pairs overwrite earlier ones); other
   * pairs are skipped.
   */
  function RestoredPrefix(pairs: seq<MatchPair>, attempt: seq<MatchPair>, k: nat): (m: map<int, int>)
    requires k <= |attempt|
    ensures InRange(m, |pairs|)
  {
    if k == 0 then map[]
    else RestoreStep(pairs, RestoredPrefix(pairs, attempt, k - 1), attempt[k - 1])
  }

  /** `nextAssignments` once the `forEach` has visited every attempt pair. */
  function Restored(pairs: seq<MatchPair>, attempt: seq<MatchPair>): (m: map<int, int>)
    ensures InRange(m, |pairs|)
  {
    RestoredPrefix(pairs, attempt, |attempt|)
  }

  /** Every attempt pair whose labels are both found has its left index linked. */
  lemma {:induction false} RestoredKeys(pairs: seq<MatchPair>, attempt: seq<MatchPair>, k: nat, j: int)
    requires k <= |attempt| && 0 <= j < k && Resolves(pairs, attempt[j])
    ensures LeftIndexOf(pairs, attempt[j]) in RestoredPrefix(pairs, attempt, k)
  {
    if j < k - 1 {
      RestoredKeys(pairs, attempt, k - 1, j);
    }
  }

  /**
   * Every restored link comes from an attempt pair whose labels are both
   * found: its left label names the key and its right label the value. It is
   * the last such pair: every later pair that resolves names another key,
   * since a later pair with the same left label overwrites the link.
   */
  lemma {:induction false} RestoredSource(pairs: seq<MatchPair>, attempt: seq<MatchPair>, k: nat, key: int)
    returns (j: int)
    requires k <= |attempt| && key in RestoredPrefix(pairs, attempt, k)
    ensures 0 <= j < k && Resolves(pairs, attempt[j])
    ensures LeftIndexOf(pairs, attempt[j]) == key
    ensures RestoredPrefix(pairs, attempt, k)[key] == RightIndexOf(pairs, attempt[j])
    ensures forall i :: j < i < k && Resolves(pairs, attempt[i]) ==> LeftIndexOf(pairs, attempt[i]) != key
  {
    var p := attempt[k - 1];
    var acc := RestoredPrefix(pairs, attempt, k - 1);
    assert RestoredPrefix(pairs, attempt, k) == RestoreStep(pairs, acc, p);
    if Resolves(pairs, p) && key == LeftIndexOf(pairs, p) {
      j := k - 1;
    } else {
      assert key in acc && RestoredPrefix(pairs, attempt, k)[key] == acc[key];
      j := RestoredSource(pairs, attempt, k - 1, key);
    }
  }

  /**
   * Restore keeps what the attempt resolves: a left index is linked iff some
   * attempt pair whose labels are both found names it, and the link points
   * at the right index of the last such pair (later pairs overwrite earlier
   * ones).
   */
  lemma RestoredEntries(pairs: seq<MatchPair>, attempt: seq<MatchPair>, key: int)
    ensures key in Restored(pairs, attempt) <==>
              exists j :: 0 <= j < |attempt| && Resolves(pairs, attempt[j]) && LeftIndexOf(pairs, attempt[j]) == key
    ensures key in Restored(pairs, attempt) ==>
              exists j :: 0 <= j < |attempt| && Resolves(pairs, attempt[j]) && LeftIndexOf(pairs, attempt[j]) == key
                && Restored(pairs, attempt)[key] == RightIndexOf(pairs, attempt[j])
                && forall i :: j < i < |attempt| && Resolves(pairs, attempt[i]) ==> LeftIndexOf(pairs, attempt[i]) != key
  {
    if key in Restored(pairs, attempt) {
      var j := RestoredSource(pairs, attempt, |attempt|, key);
    }
    if exists j :: 0 <= j < |attempt| && Resolves(pairs, attempt[j]) && LeftIndexOf(pairs, attempt[j]) == key {
      var j :| 0 <= j < |attempt| && Resolves(pairs, attempt[j]) && LeftIndexOf(pairs, attempt[j]) == key;
      RestoredKeys(pairs, attempt, |attempt|, j);
    }
  }

  /**
   * A later pair with the same left label overwrites an earlier one: with two
   * pairs sharing the left label "a", the attempt that repeats them keeps
   * only the second link.
   */
  lemma RestoreOverwrites()
    ensures Restored([MatchPair("a", "x"), MatchPair("a", "y")], [MatchPair("a", "x"), MatchPair("a", "y")]) == map[0 := 1]
  {
    var pairs := [MatchPair("a", "x"), MatchPair("a", "y")];
    assert Lefts(pairs) == ["a", "a"];
    assert RightItems(pairs) == ["x", "y"];
    assert LeftIndexOf(pairs, pairs[0]) == 0 && RightIndexOf(pairs, pairs[0]) == 0;
    assert LeftIndexOf(pairs, pairs[1]) == 0 && RightIndexOf(pairs, pairs[1]) == 1;
    assert RestoredPrefix(pairs, pairs, 1) == map[0 := 0];
  }

  /**
   * Two pairs sharing the right label "x": restoring from the pairs
   * themselves links both left indices to right index 0, the first "x".
   */
  lemma RestoreCanBreakInjectivity()
    ensures Restored([MatchPair("a", "x"), MatchPair("b", "x")], [MatchPair("a", "x"), MatchPair("b", "x")]) == map[0 := 0, 1 := 0]
    ensures !Injective(map[0 := 0, 1 := 0])
  {
    var pairs := [MatchPair("a", "x"), MatchPair("b", "x")];
    assert Lefts(pairs) == ["a", "b"];
    assert RightItems(pairs) == ["x", "x"];
    assert LeftIndexOf(pairs, pairs[0]) == 0 && RightIndexOf(pairs, pairs[0]) == 0;
    assert LeftIndexOf(pairs, pairs[1]) == 1 && RightIndexOf(pairs, pairs[1]) == 0;
    assert RestoredPrefix(pairs, pairs, 1) == map[0 := 0];
    var m := map[0 := 0, 1 := 0];
    assert 0 in m && 1 in m && m[0] == m[1];
  }

  /**
   * When the attempt names no right label twice, the restored map is
   * injective. (An attempt that repeats a right label can restore a map that
   * uses one right item for two lefts, which no sequence of presses can
   * produce; see `RestoreCanBreakInjectivity`.)
   */
  lemma RestoredInjective(pairs: seq<MatchPair>, attempt: seq<MatchPair>)
    requires Distinct(RightItems(attempt))
    ensures Injective(Restored(pairs, attempt))
  {
    var m := Restored(pairs, attempt);
    forall k1, k2 | k1 in m && k2 in m && k1 != k2 ensures m[k1] != m[k2] {
      var j1 := RestoredSource(pairs, attempt, |attempt|, k1);
      var j2 := RestoredSource(pairs, attempt, |attempt|, k2);
      assert j1 != j2;
      var rights := RightItems(attempt);
      if j1 < j2 { assert rights[j1] != rights[j2]; } else { assert rights[j2] != rights[j1]; }
    }
  }

  /**
   * Round trip: with pairwise distinct left labels and pairwise distinct
   * right labels, restoring from the pairs a submission sent rebuilds the
   * very assignments that were submitted.
   */
  lemma RoundTrip(pairs: seq<MatchPair>, m: map<int, int>)
    requires Distinct(Lefts(pairs)) && Distinct(RightItems(pairs))
    requires InRange(m, |pairs|) && AllAssigned(m, |pairs|)
    ensures Restored(pairs, Submission(pairs, m)) == m
  {
    var sent := Submission(pairs, m);
    SentResolves(pairs, m, sent);
    RestoredDiagonal(pairs, sent);
    AssignedKeys(m, |pairs|);
    SameMap(pairs, sent, Restored(pairs, sent), m);
  }

  /** The j-th attempt pair resolves, and to left index j, for every j. */
  predicate SelfIndexed(pairs: seq<MatchPair>, attempt: seq<MatchPair>) {
    forall j :: 0 <= j < |attempt| ==> Resolves(pairs, attempt[j]) && LeftIndexOf(pairs, attempt[j]) == j
  }

  /** The map links each j to the right index of the j-th attempt pair. */
  predicate LinksRights(pairs: seq<MatchPair>, m: map<int, int>, attempt: seq<MatchPair>) {
    forall j :: 0 <= j < |attempt| ==> j in m && m[j] == RightIndexOf(pairs, attempt[j])
  }

  /** A fully assigned map within range has exactly the keys 0 .. n-1. */
  lemma AssignedKeys(m: map<int, int>, n: nat)
    requires InRange(m, n) && AllAssigned(m, n)
    ensures m.Keys == Indices(n)
  {
    IndicesCard(n);
    assert m.Keys <= Indices(n);
    SubsetOfIndices(m.Keys, n);
  }

  /** Two maps on the keys 0 .. n-1 that both link j to the j-th pair's right index are equal. */
  lemma SameMap(pairs: seq<MatchPair>, attempt: seq<MatchPair>, r: map<int, int>, m: map<int, int>)
    requires r.Keys == Indices(|attempt|) && m.Keys == Indices(|attempt|)
    requires LinksRights(pairs, r, attempt) && LinksRights(pairs, m, attempt)
    ensures r == m
  {
  }

  /** Every sent pair resolves to its own left index and to its linked right index. */
  lemma SentResolves(pairs: seq<MatchPair>, m: map<int, int>, sent: seq<MatchPair>)
    requires Distinct(Lefts(pairs)) && Distinct(RightItems(pairs))
    requires InRange(m, |pairs|) && AllAssigned(m, |pairs|)
    requires sent == Submission(pairs, m)
    ensures |sent| == |pairs|
    ensures SelfIndexed(pairs, sent) && LinksRights(pairs, m, sent)
  {
    forall j | 0 <= j < |sent|
      ensures Resolves(pairs, sent[j]) && LeftIndexOf(pairs, sent[j]) == j
      ensures j in m && m[j] == RightIndexOf(pairs, sent[j])
    {
      SentLeftIndex(pairs, m, sent, j);
    }
  }

  /**
   * When each attempt pair resolves to its own position as left index, the
   * restored map links exactly the positions, each to its pair's right index.
   */
  lemma RestoredDiagonal(pairs: seq<MatchPair>, attempt: seq<MatchPair>)
    requires SelfIndexed(pairs, attempt)
    ensures Restored(pairs, attempt).Keys == Indices(|attempt|)
    ensures LinksRights(pairs, Restored(pairs, attempt), attempt)
  {
    var r := Restored(pairs, attempt);
    forall key | key in r ensures 0 <= key < |attempt| {
      var j := RestoredSource(pairs, attempt, |attempt|, key);
    }
    forall i | 0 <= i < |attempt| ensures i in r && r[i] == RightIndexOf(pairs, attempt[i]) {
      DiagonalRestored(pairs, attempt, |attempt|, i);
    }
  }

  /** The j-th sent pair resolves to left index j and right index m[j]. */
  lemma SentLeftIndex(pairs: seq<MatchPair>, m: map<int, int>, sent: seq<MatchPair>, j: int)
    requires Distinct(Lefts(pairs)) && Distinct(RightItems(pairs))
    requires InRange(m, |pairs|) && AllAssigned(m, |pairs|)
    requires sent == Submission(pairs, m)
    requires 0 <= j < |sent|
    ensures j in m && Resolves(pairs, sent[j])
    ensures LeftIndexOf(pairs, sent[j]) == j && RightIndexOf(pairs, sent[j]) == m[j]
  {
    assert j in m;
    IndexOfDistinct(Lefts(pairs), j);
    IndexOfDistinct(RightItems(pairs), m[j]);
  }

  /**
   * When the j-th attempt pair resolves to left index j for every j < k,
   * the first k pairs link each i < k to the i-th pair's right index.
   */
  lemma {:induction false} DiagonalRestored(pairs: seq<MatchPair>, attempt: seq<MatchPair>, k: nat, i: int)
    requires k <= |attempt| && 0 <= i < k
    requires forall j :: 0 <= j < k ==> Resolves(pairs, attempt[j]) && LeftIndexOf(pairs, attempt[j]) == j
    ensures i in RestoredPrefix(pairs, attempt, k)
    ensures RestoredPrefix(pairs, attempt, k)[i] == RightIndexOf(pairs, attempt[i])
  {
    assert Resolves(pairs, attempt[k - 1]) && LeftIndexOf(pairs, attempt[k - 1]) == k - 1;
    PrefixStep(pairs, attempt, k);
    if i < k - 1 {
      DiagonalRestored(pairs, attempt, k - 1, i);
    }
  }

  /** A resolving k-th pair links its left index to its right index on top of the first k-1. */
  lemma PrefixStep(pairs: seq<MatchPair>, attempt: seq<MatchPair>, k: nat)
    requires 0 < k <= |attempt| && Resolves(pairs, attempt[k - 1])
    ensures RestoredPrefix(pairs, attempt, k) ==
              RestoredPrefix(pairs, attempt, k - 1)[LeftIndexOf(pairs, attempt[k - 1]) := RightIndexOf(pairs, attempt[k - 1])]
  {
  }

  // ---------------------------------------------------------------------
  // Row highlights
  // ---------------------------------------------------------------------

  /** Left item i is drawn correct: result shown, i linked, and the link is correct. */
  predicate LeftIsCorrect(pairs: seq<MatchPair>, m: map<int, int>, result: Option<bool>, i: int) {
    result.Some? && i in m && IsMatchCorrect(pairs, i, m[i])
  }

  predicate LeftIsWrong(pairs: seq<MatchPair>, m: map<int, int>, result: Option<bool>, i: int) {
    result.Some? && i in m && !IsMatchCorrect(pairs, i, m[i])
  }

  /**
   * `Object.keys(assignments).find(key => assignments[key] === j)`, or -1:
   * integer keys are enumerated in ascending order, so this is the least
   * left index linked to j, searched from `from` upwards below n.
   */
  function AssignedLeft(m: map<int, int>, j: int, from: nat, n: nat): (k: int)
    ensures k == -1 || (from <= k < n && k in m && m[k] == j)
    ensures k == -1 <==> forall i :: from <= i < n ==> !(i in m && m[i] == j)
    ensures k >= 0 ==> forall i :: from <= i < k ==> !(i in m && m[i] == j)
    decreases n - from
  {
    if from >= n then -1
    else if from in m && m[from] == j then from
    else AssignedLeft(m, j, from + 1, n)
  }

  predicate RightIsCorrect(pairs: seq<MatchPair>, m: map<int, int>, result: Option<bool>, j: int) {
    var k := AssignedLeft(m, j, 0, |pairs|);
    result.Some? && k >= 0 && IsMatchCorrect(pairs, k, j)
  }

  predicate RightIsWrong(pairs: seq<MatchPair>, m: map<int, int>, result: Option<bool>, j: int) {
    var k := AssignedLeft(m, j, 0, |pairs|);
    result.Some? && k >= 0 && !IsMatchCorrect(pairs, k, j)
  }

  /**
   * Both ends of a link carry the same colour when the map is injective,
   * right and wrong never coincide, and nothing is coloured while the
   * result is unknown.
   */
  lemma LinkColoursAgree(pairs: seq<MatchPair>, m: map<int, int>, result: Option<bool>, i: int)
    requires InRange(m, |pairs|) && Injective(m) && i in m
    ensures AssignedLeft(m, m[i], 0, |pairs|) == i
    ensures LeftIsCorrect(pairs, m, result, i) == RightIsCorrect(pairs, m, result, m[i])
    ensures LeftIsWrong(pairs, m, result, i) == RightIsWrong(pairs, m, result, m[i])
    ensures !(LeftIsCorrect(pairs, m, result, i) && LeftIsWrong(pairs, m, result, i))
    ensures result.None? ==> !LeftIsCorrect(pairs, m, result, i) && !LeftIsWrong(pairs, m, result, i)
  {
    var k := AssignedLeft(m, m[i], 0, |pairs|);
    assert k != -1;
  }

  // ---------------------------------------------------------------------
  // The restore loop
  // ---------------------------------------------------------------------

  /** The `forEach` over the best attempt's pairs that fills `nextAssignments`. */
  method RestoredAssignments(pairs: seq<MatchPair>, attempt: seq<MatchPair>) returns (next: map<int, int>)
    ensures next == Restored(pairs, attempt)
  {
    var rightItems := RightItems(pairs);
    next := map[];
    var i := 0;
    while i < |attempt|
      invariant 0 <= i <= |attempt|
      invariant next == RestoredPrefix(pairs, attempt, i)
    {
      var pair := attempt[i];
      var leftIndex := IndexOf(Lefts(pairs), pair.left);
      var rightIndex := IndexOf(rightItems, pair.right);
      if leftIndex >= 0 && rightIndex >= 0 {
        next := next[leftIndex := rightIndex];
      }
      i := i + 1;
    }
  }
}

/**
 * The component's state as its `useState` hooks hold it. `pairs` is the
 * payload the component was rendered with; each event handler is a method.
 */
module MatchState {
  import opened Types
  import opened Sequences
  import opened Match

  class MatchChallenge {
    const pairs: seq<MatchPair>
    var selectedLeft: Option<int>
    var assignments: map<int, int>
    var result: Option<bool>
    var submitting: bool
    var error: bool

    /**
     * Presses only come from rendered rows, so every index the state holds
     * names a pair.
     */
    ghost predicate Valid()
      reads this
    {
      InRange(assignments, |pairs|) &&
      (selectedLeft.Some? ==> 0 <= selectedLeft.value < |pairs|)
    }

    /** The initial hook values. */
    constructor (payload: MatchPayload)
      ensures pairs == payload.pairs
      ensures selectedLeft == None && assignments == map[] && result == None
      ensures !submitting && !error
      ensures Valid() && Injective(assignments)
    {
      pairs := payload.pairs;
      selectedLeft := None;
      assignments := map[];
      result := None;
      submitting := false;
      error := false;
    }

    /** `handleLeftPress`: select a left item and clear the feedback. */
    method LeftPress(index: int)
      requires Valid() && 0 <= index < |pairs|
      modifies this
      ensures Valid()
      ensures selectedLeft == Some(index) && result == None && !error
      ensures assignments == old(assignments) && submitting == old(submitting)
    {
      selectedLeft := Some(index);
      result := None;
      error := false;
    }

    /**
     * `handleRightPress`: link the selected left item to a right item no
     * left item uses yet. Without a selection, or for a right item already
     * in use, nothing at all changes.
     */
    method RightPress(rightIndex: int)
      requires Valid() && 0 <= rightIndex < |pairs|
      modifies this
      ensures Valid()
      ensures old(selectedLeft).None? || IsRightAssigned(old(assignments), rightIndex) ==> unchanged(this)
      ensures old(selectedLeft).Some? && !IsRightAssigned(old(assignments), rightIndex) ==>
                && assignments == old(assignments)[old(selectedLeft).value := rightIndex]
                && selectedLeft == None && result == None && !error
                && submitting == old(submitting)
      ensures Injective(old(assignments)) ==> Injective(assignments)
    {
      if selectedLeft.None? {
        return;
      }
      var alreadyAssigned := rightIndex in assignments.Values;
      if alreadyAssigned {
        return;
      }
      if Injective(assignments) {
        AssignKeepsInjective(assignments, selectedLeft.value, rightIndex);
      }
      assignments := assignments[selectedLeft.value := rightIndex];
      selectedLeft := None;
      result := None;
      error := false;
    }

    /**
     * The first half of `handleSubmit`: unless some left item is
     * unlinked or a submission is in flight, mark the submission as in
     * flight and return the pairs sent to the server.
     */
    method BeginSubmit() returns (sent: Option<seq<MatchPair>>)
      requires Valid()
      modifies this
      ensures Valid()
      ensures !AllAssigned(old(assignments), |pairs|) || old(submitting) ==> sent == None && unchanged(this)
      ensures AllAssigned(old(assignments), |pairs|) && !old(submitting) ==>
                && assignments == old(assignments)
                && sent == Some(Submission(pairs, assignments))
                && submitting && !error
                && selectedLeft == old(selectedLeft) && result == old(result)
    {
      if !AllAssigned(assignments, |pairs|) || submitting {
        return None;
      }
      submitting := true;
      error := false;
      sent := Some(Submission(pairs, assignments));
    }

    /** The server answered: show its verdict and end the submission. */
    method SubmitSucceeded(serverResult: bool)
      requires Valid() && submitting
      modifies this
      ensures Valid()
      ensures result == Some(serverResult) && !submitting
      ensures selectedLeft == old(selectedLeft) && assignments == old(assignments) && error == old(error)
    {
      result := Some(serverResult);
      submitting := false;
    }

    /** The call failed: show the error, no verdict, and end the submission. */
    method SubmitFailed()
      requires Valid() && submitting
      modifies this
      ensures Valid()
      ensures error && result == None && !submitting
      ensures selectedLeft == old(selectedLeft) && assignments == old(assignments)
    {
      error := true;
      result := None;
      submitting := false;
    }

    /**
     * The best-attempt effect: rebuild the links and the verdict from an
     * attempt that carries pairs, and clear them otherwise. The selection
     * is dropped either way; `submitting` and `error` are left alone.
     */
    method Restore(bestAttempt: Option<ChallengeAttemptSummary>)
      modifies this
      ensures Valid()
      ensures selectedLeft == None && submitting == old(submitting) && error == old(error)
      ensures bestAttempt.None? || !bestAttempt.value.answers.MatchAttemptAnswer? ==>
                assignments == map[] && result == None
      ensures bestAttempt.Some? && bestAttempt.value.answers.MatchAttemptAnswer? ==>
                && assignments == Restored(pairs, bestAttempt.value.answers.pairs)
                && result == Some(bestAttempt.value.result)
    {
      if bestAttempt.None? || !bestAttempt.value.answers.MatchAttemptAnswer? {
        assignments := map[];
        result := None;
        selectedLeft := None;
        return;
      }
      var next := RestoredAssignments(pairs, bestAttempt.value.answers.pairs);
      assignments := next;
      result := Some(bestAttempt.value.result);
      selectedLeft := None;
    }
  }

  /**
   * A full submission followed by the restore effect on the attempt the
   * server stored from it: with distinct labels, the player sees the same
   * links again, now with the server's verdict.
   */
  method SubmitThenRestore(c: MatchChallenge, serverResult: bool, score: int, createdAt: string)
    requires c.Valid() && AllAssigned(c.assignments, |c.pairs|) && !c.submitting
    requires Distinct(Lefts(c.pairs)) && Distinct(RightItems(c.pairs))
    modifies c
    ensures c.Valid()
    ensures c.assignments == old(c.assignments)
    ensures c.result == Some(serverResult) && c.selectedLeft == None && !c.submitting && !c.error
  {
    var sent := c.BeginSubmit();
    c.SubmitSucceeded(serverResult);
    var attempt := ChallengeAttemptSummary(MatchAttemptAnswer(sent.value), serverResult, score, createdAt);
    c.Restore(Some(attempt));
    RoundTrip(c.pairs, old(c.assignments));
  }
}
