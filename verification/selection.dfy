/**
 * Picking the exercises of a new workout (src/App.tsx, `startNewWorkout`):
 * file the catalog into buckets by first category, take an even share of a
 * shuffled copy of each bucket, top up with shuffled leftovers to 40, and
 * shuffle the whole selection. Each shuffle is `Permutations.Shuffle` with its own
 * draws, so the model covers every permutation the source may produce.
 */
module Selection {
  import opened Types
  import opened WorkoutStore
  import opened Permutations

  /** The number of exercises a new workout aims for. */
  const WorkoutSize: nat := 40

  /** The bucket key: the first category, and the key "undefined" when there is none. */
  function FirstCategory(e: Exercise): (k: string)
    ensures |e.categories| > 0 ==> k == e.categories[0]
    ensures k in e.categories || (|e.categories| == 0 && k == "undefined")
  {
    if |e.categories| == 0 then "undefined" else e.categories[0]
  }

  /** The exercises of `xs` whose bucket key is `c`, in their order in `xs`. */
  function OfCategory(xs: seq<Exercise>, c: string): (r: seq<Exercise>)
    decreases |xs|
  {
    if |xs| == 0 then []
    else OfCategory(xs[..|xs| - 1], c) + (if FirstCategory(xs[|xs| - 1]) == c then [xs[|xs| - 1]] else [])
  }

  /** The key filter keeps no exercise more often than `xs` has it. */
  lemma {:induction false} OfCategorySub(xs: seq<Exercise>, c: string)
    ensures multiset(OfCategory(xs, c)) <= multiset(xs)
    decreases |xs|
  {
    if |xs| > 0 {
      var init := xs[..|xs| - 1];
      assert xs == init + [xs[|xs| - 1]];
      OfCategorySub(init, c);
    }
  }

  /** An exercise is kept by the key filter exactly when it is in `xs` and has that key. */
  lemma {:induction false} OfCategoryMembers(xs: seq<Exercise>, c: string, e: Exercise)
    ensures e in OfCategory(xs, c) <==> e in xs && FirstCategory(e) == c
    decreases |xs|
  {
    if |xs| > 0 {
      var init := xs[..|xs| - 1];
      assert xs == init + [xs[|xs| - 1]];
      OfCategoryMembers(init, c, e);
    }
  }

  /** Bucket keys in order of first appearance, and the bucket of each key. */
  datatype Buckets = Buckets(keys: seq<string>, groups: map<string, seq<Exercise>>)

  /** The bucket of `c`, empty when `c` has none. */
  function Group(b: Buckets, c: string): (g: seq<Exercise>) {
    if c in b.groups then b.groups[c] else []
  }

  /** One step of the `reduce`: append `e` to its bucket, opening the bucket if needed. */
  function File(b: Buckets, e: Exercise): (r: Buckets)
    ensures Group(r, FirstCategory(e)) == Group(b, FirstCategory(e)) + [e]
    ensures forall c :: c != FirstCategory(e) ==> Group(r, c) == Group(b, c)
    ensures r.keys == if FirstCategory(e) in b.groups then b.keys else b.keys + [FirstCategory(e)]
  {
    var c := FirstCategory(e);
    if c in b.groups then Buckets(b.keys, b.groups[c := b.groups[c] + [e]])
    else Buckets(b.keys + [c], b.groups[c := [e]])
  }

  /** No key is opened twice. */
  predicate KeysDistinct(keys: seq<string>) {
    forall i, j :: 0 <= i < j < |keys| ==> keys[i] != keys[j]
  }

  /** The key list and the bucket map name the same keys. */
  ghost predicate KeysMatch(b: Buckets) {
    forall c :: c in b.groups <==> c in b.keys
  }

  /** Each bucket is non-empty and holds, in order, exactly the exercises of `xs` with its key. */
  ghost predicate GroupsExact(xs: seq<Exercise>, b: Buckets) {
    forall c :: c in b.groups ==> b.groups[c] == OfCategory(xs, c) && |b.groups[c]| > 0
  }

  /** Every exercise of `xs` has a bucket for its key. */
  ghost predicate Covered(xs: seq<Exercise>, b: Buckets) {
    forall e :: e in xs ==> FirstCategory(e) in b.groups
  }

  /** `b` files exactly the exercises of `xs`. */
  ghost predicate FilesExactly(xs: seq<Exercise>, b: Buckets) {
    KeysDistinct(b.keys) && KeysMatch(b) && GroupsExact(xs, b) && Covered(xs, b)
  }

  /** No exercises, no buckets. */
  lemma NoBuckets()
    ensures FilesExactly([], Buckets([], map[]))
  {
  }

  /** Filing keeps the keys distinct and in step with the map. */
  lemma FileKeys(b: Buckets, e: Exercise)
    requires KeysDistinct(b.keys) && KeysMatch(b)
    ensures KeysDistinct(File(b, e).keys) && KeysMatch(File(b, e))
  {
  }

  /** The bucket of one key after filing the last exercise of `xs`. */
  lemma FileGroupAt(xs: seq<Exercise>, b: Buckets, k: string)
    requires |xs| > 0
    requires GroupsExact(xs[..|xs| - 1], b) && Covered(xs[..|xs| - 1], b)
    requires k in File(b, xs[|xs| - 1]).groups
    ensures File(b, xs[|xs| - 1]).groups[k] == OfCategory(xs, k)
    ensures |File(b, xs[|xs| - 1]).groups[k]| > 0
  {
    var init := xs[..|xs| - 1];
    var e := xs[|xs| - 1];
    var c := FirstCategory(e);
    assert OfCategory(xs, k) == OfCategory(init, k) + (if c == k then [e] else []);
    if k == c && c !in b.groups {
      OfCategoryNone(init, c);
    }
  }

  /** Filing the last exercise of `xs` into exact buckets of the others gives exact buckets of `xs`. */
  lemma FileGroups(xs: seq<Exercise>, b: Buckets)
    requires |xs| > 0
    requires GroupsExact(xs[..|xs| - 1], b) && Covered(xs[..|xs| - 1], b)
    ensures GroupsExact(xs, File(b, xs[|xs| - 1]))
  {
    forall k | k in File(b, xs[|xs| - 1]).groups
      ensures File(b, xs[|xs| - 1]).groups[k] == OfCategory(xs, k)
      ensures |File(b, xs[|xs| - 1]).groups[k]| > 0
    {
      FileGroupAt(xs, b, k);
    }
  }

  /** Filing the last exercise of `xs` covers all of `xs`. */
  lemma FileCovers(xs: seq<Exercise>, b: Buckets)
    requires |xs| > 0 && Covered(xs[..|xs| - 1], b)
    ensures Covered(xs, File(b, xs[|xs| - 1]))
  {
    var init := xs[..|xs| - 1];
    assert xs == init + [xs[|xs| - 1]];
    forall x | x in xs
      ensures FirstCategory(x) in File(b, xs[|xs| - 1]).groups
    {
      if x != xs[|xs| - 1] {
        assert x in init;
      }
    }
  }

  /** File every exercise of `xs` in order (the `reduce`). */
  function Bucketize(xs: seq<Exercise>): (b: Buckets)
    ensures FilesExactly(xs, b)
    decreases |xs|
  {
    if |xs| == 0 then
      NoBuckets();
      Buckets([], map[])
    else
      var b0 := Bucketize(xs[..|xs| - 1]);
      FileKeys(b0, xs[|xs| - 1]);
      FileGroups(xs, b0);
      FileCovers(xs, b0);
      File(b0, xs[|xs| - 1])
  }

  /** Every catalog exercise lies in the bucket of its key and in no other. */
  lemma ExactlyOneBucket(xs: seq<Exercise>, e: Exercise, c: string)
    requires e in xs
    ensures var b := Bucketize(xs);
            c in b.keys && e in Group(b, c) <==> c == FirstCategory(e)
  {
    var b := Bucketize(xs);
    OfCategoryMembers(xs, c, e);
    if c == FirstCategory(e) {
      assert c in b.groups;
    }
  }

  /** `Math.floor(40 / #categories)`; with no categories no bucket uses it. */
  function Quota(categories: nat): (q: nat)
    ensures categories > 0 ==> q * categories <= WorkoutSize < (q + 1) * categories
  {
    if categories == 0 then WorkoutSize else WorkoutSize / categories
  }

  /** The draws of the `i`-th shuffle in a list of them; none when the list is short. */
  function DrawsAt(draws: seq<seq<nat>>, i: nat): seq<nat> {
    if i < |draws| then draws[i] else []
  }

  /** The share of the `i`-th category: the first `q` of a shuffled copy of its bucket. */
  function Share(b: Buckets, q: nat, draws: seq<seq<nat>>, i: nat): (r: seq<Exercise>)
    requires i < |b.keys|
    ensures |r| <= q
    ensures |r| == Min(q, |Group(b, b.keys[i])|)
    ensures multiset(r) <= multiset(Group(b, b.keys[i]))
  {
    Take(Shuffle(Group(b, b.keys[i]), DrawsAt(draws, i)), q)
  }

  /** Every category's share, in key order. */
  function Shares(b: Buckets, q: nat, draws: seq<seq<nat>>): (r: seq<seq<Exercise>>)
    ensures |r| == |b.keys|
    ensures forall i :: 0 <= i < |r| ==> r[i] == Share(b, q, draws, i)
  {
    seq(|b.keys|, i requires 0 <= i < |b.keys| => Share(b, q, draws, i))
  }

  /** The pieces joined end to end, in order (the `forEach` pushing each share). */
  function Concat(pieces: seq<seq<Exercise>>): (r: seq<Exercise>)
    ensures forall i, e :: 0 <= i < |pieces| && e in pieces[i] ==> e in r
    ensures forall e :: e in r ==> exists i :: 0 <= i < |pieces| && e in pieces[i]
    decreases |pieces|
  {
    if |pieces| == 0 then [] else Concat(pieces[..|pieces| - 1]) + pieces[|pieces| - 1]
  }

  /** `n` pieces of at most `q` each join into at most `n * q` exercises. */
  lemma {:induction false} ConcatLength(pieces: seq<seq<Exercise>>, q: nat)
    requires forall i :: 0 <= i < |pieces| ==> |pieces[i]| <= q
    ensures |Concat(pieces)| <= |pieces| * q
    decreases |pieces|
  {
    if |pieces| > 0 {
      var m := |pieces| - 1;
      ConcatLength(pieces[..m], q);
      assert m * q + q == |pieces| * q;
    }
  }

  /** The balanced part of the selection: every category's share. */
  function Balanced(catalog: seq<Exercise>, draws: seq<seq<nat>>): (r: seq<Exercise>)
    ensures |r| <= WorkoutSize
  {
    var b := Bucketize(catalog);
    var q := Quota(|b.keys|);
    var pieces := Shares(b, q, draws);
    ConcatLength(pieces, q);
    Concat(pieces)
  }

  /** The exercises of `xs` that are not in `sel` (`filter(ex => !sel.includes(ex))`). */
  function NotIn(xs: seq<Exercise>, sel: seq<Exercise>): (r: seq<Exercise>)
    ensures forall e :: e in r <==> e in xs && e !in sel
    ensures forall e :: multiset(r)[e] == if e in sel then 0 else multiset(xs)[e]
    decreases |xs|
  {
    if |xs| == 0 then []
    else
      var init := xs[..|xs| - 1];
      var last := xs[|xs| - 1];
      assert xs == init + [last];
      NotIn(init, sel) + (if last in sel then [] else [last])
  }

  /** The top-up: when fewer than 40 were taken, that many more shuffled leftovers, or all of them. */
  function Fill(catalog: seq<Exercise>, selected: seq<Exercise>, draws: seq<nat>): (r: seq<Exercise>)
    ensures |selected| < WorkoutSize ==> |r| == Min(WorkoutSize - |selected|, |NotIn(catalog, selected)|)
    ensures |selected| >= WorkoutSize ==> r == []
    ensures multiset(r) <= multiset(NotIn(catalog, selected))
  {
    var remaining := WorkoutSize - |selected|;
    if remaining > 0 then Take(Shuffle(NotIn(catalog, selected), draws), remaining) else []
  }

  /** The top-up takes only catalog exercises not already selected, and no more than the free slots. */
  lemma FillDrawsLeftovers(catalog: seq<Exercise>, selected: seq<Exercise>, draws: seq<nat>)
    ensures forall e :: e in Fill(catalog, selected, draws) ==> e in catalog && e !in selected
    ensures |Fill(catalog, selected, draws)| <= if |selected| < WorkoutSize then WorkoutSize - |selected| else 0
  {
    var fill := Fill(catalog, selected, draws);
    forall e | e in fill
      ensures e in catalog && e !in selected
    {
      assert e in multiset(fill);
      assert e in multiset(NotIn(catalog, selected));
    }
  }

  /** The smaller of two numbers. */
  function Min(a: int, b: int): (m: int)
    ensures m <= a && m <= b && (m == a || m == b)
  {
    if a < b then a else b
  }

  /** The draws of every shuffle in one selection. */
  datatype SelectionDraws = SelectionDraws(perCategory: seq<seq<nat>>, fill: seq<nat>, final: seq<nat>)

  /**
   * The selection before the final shuffle: the balanced part and then the
   * top-up. It draws only from the catalog and never exceeds 40; for a catalog
   * without repeated entries it repeats nothing and has `min(40, |catalog|)` entries.
   */
  function Candidates(catalog: seq<Exercise>, d: SelectionDraws): (r: seq<Exercise>)
    ensures |r| <= WorkoutSize
    ensures forall e :: e in r ==> e in catalog
    ensures Distinct(catalog) ==> Distinct(r) && |r| == Min(WorkoutSize, |catalog|)
  {
    var selected := Balanced(catalog, d.perCategory);
    SelectionFacts(catalog, d.perCategory, d.fill);
    selected + Fill(catalog, selected, d.fill)
  }

  /** The exercise list of a new workout: the candidates in shuffled order. */
  function SelectExercises(catalog: seq<Exercise>, d: SelectionDraws): (r: seq<Exercise>)
    ensures multiset(r) == multiset(Candidates(catalog, d))
    ensures |r| <= WorkoutSize
    ensures forall e :: e in r ==> e in catalog
    ensures Distinct(catalog) ==> Distinct(r) && |r| == Min(WorkoutSize, |catalog|)
  {
    var all := Candidates(catalog, d);
    var r := Shuffle(all, d.final);
    assert forall e :: e in r ==> e in all by {
      forall e | e in r ensures e in all {
        assert e in multiset(r);
      }
    }
    r
  }

  /** The "Start New Workout" button: start a workout on a fresh selection. */
  function StartNewWorkout(catalog: seq<Exercise>, d: SelectionDraws): (r: WorkoutState)
    ensures r.isActive && r.isGettingReady && r.currentExercise == 0
    ensures forall e :: e in r.exercises ==> e in catalog
    ensures Distinct(catalog) ==> |r.exercises| == Min(WorkoutSize, |catalog|)
  {
    StartWorkout(SelectExercises(catalog, d))
  }

  // ---------------------------------------------------------------------------
  // Proofs about the selection.
  // ---------------------------------------------------------------------------

  /** Filtering by key distributes over concatenation. */
  lemma {:induction false} OfCategoryConcat(xs: seq<Exercise>, ys: seq<Exercise>, c: string)
    ensures OfCategory(xs + ys, c) == OfCategory(xs, c) + OfCategory(ys, c)
    decreases |ys|
  {
    if |ys| == 0 {
      assert xs + ys == xs;
    } else {
      var init := ys[..|ys| - 1];
      assert (xs + ys)[..|xs + ys| - 1] == xs + init;
      assert (xs + ys)[|xs + ys| - 1] == ys[|ys| - 1];
      OfCategoryConcat(xs, init, c);
    }
  }

  /** Filtering a list by the key all its exercises share keeps the whole list. */
  lemma {:induction false} OfCategoryAll(xs: seq<Exercise>, c: string)
    requires forall e :: e in xs ==> FirstCategory(e) == c
    ensures OfCategory(xs, c) == xs
    decreases |xs|
  {
    if |xs| > 0 {
      var init := xs[..|xs| - 1];
      assert xs == init + [xs[|xs| - 1]];
      OfCategoryAll(init, c);
    }
  }

  /** Filtering by a key no exercise has keeps nothing. */
  lemma OfCategoryNone(xs: seq<Exercise>, c: string)
    requires forall e :: e in xs ==> FirstCategory(e) != c
    ensures OfCategory(xs, c) == []
  {
    var r := OfCategory(xs, c);
    if |r| > 0 {
      OfCategoryMembers(xs, c, r[0]);
    }
  }

  /** `g` draws on the catalog and holds only exercises of key `k`. */
  ghost predicate GroupFrom(catalog: seq<Exercise>, k: string, g: seq<Exercise>) {
    multiset(g) <= multiset(catalog) && forall e :: e in g ==> FirstCategory(e) == k
  }

  /** The buckets have distinct keys, and each bucket draws on the catalog and holds only its key. */
  ghost predicate BucketsFrom(catalog: seq<Exercise>, b: Buckets) {
    KeysDistinct(b.keys) && forall i :: 0 <= i < |b.keys| ==> GroupFrom(catalog, b.keys[i], Group(b, b.keys[i]))
  }

  lemma BucketizeFrom(catalog: seq<Exercise>)
    ensures BucketsFrom(catalog, Bucketize(catalog))
  {
    var b := Bucketize(catalog);
    forall i | 0 <= i < |b.keys|
      ensures GroupFrom(catalog, b.keys[i], Group(b, b.keys[i]))
    {
      var k := b.keys[i];
      assert k in b.groups;
      OfCategorySub(catalog, k);
      forall e | e in Group(b, k)
        ensures FirstCategory(e) == k
      {
        OfCategoryMembers(catalog, k, e);
      }
    }
  }

  /** A share draws on the catalog and holds only exercises of its key; it repeats nothing when the catalog does not. */
  lemma ShareFacts(catalog: seq<Exercise>, b: Buckets, q: nat, draws: seq<seq<nat>>, i: nat)
    requires BucketsFrom(catalog, b) && i < |b.keys|
    ensures GroupFrom(catalog, b.keys[i], Share(b, q, draws, i))
    ensures Distinct(catalog) ==> Distinct(Share(b, q, draws, i))
  {
    var k := b.keys[i];
    var g := Group(b, k);
    var s := Share(b, q, draws, i);
    assert GroupFrom(catalog, k, g);
    assert multiset(s) <= multiset(catalog) by {
      assert multiset(s) <= multiset(g);
      assert multiset(g) <= multiset(catalog);
    }
    forall e | e in s
      ensures FirstCategory(e) == k
    {
      assert e in multiset(s);
      assert e in multiset(g);
    }
    if Distinct(catalog) {
      DistinctSub(s, catalog);
    }
  }

  /** Each piece draws on the catalog and holds only the exercises of its own key, which no other piece has. */
  ghost predicate PiecesFrom(catalog: seq<Exercise>, keys: seq<string>, pieces: seq<seq<Exercise>>) {
    && |pieces| == |keys|
    && KeysDistinct(keys)
    && forall i :: 0 <= i < |pieces| ==> GroupFrom(catalog, keys[i], pieces[i])
  }

  /** The shares of distinct buckets are such pieces; they repeat nothing when the catalog does not. */
  lemma SharesFrom(catalog: seq<Exercise>, b: Buckets, q: nat, draws: seq<seq<nat>>)
    requires BucketsFrom(catalog, b)
    ensures PiecesFrom(catalog, b.keys, Shares(b, q, draws))
    ensures Distinct(catalog) ==> forall i :: 0 <= i < |b.keys| ==> Distinct(Shares(b, q, draws)[i])
  {
    var pieces := Shares(b, q, draws);
    forall i | 0 <= i < |b.keys|
      ensures GroupFrom(catalog, b.keys[i], pieces[i])
      ensures Distinct(catalog) ==> Distinct(pieces[i])
    {
      ShareFacts(catalog, b, q, draws, i);
    }
  }

  /** No share is longer than the quota. */
  lemma SharesBounded(b: Buckets, q: nat, draws: seq<seq<nat>>)
    ensures forall i :: 0 <= i < |Shares(b, q, draws)| ==> |Shares(b, q, draws)[i]| <= q
  {
  }

  /** Dropping the last piece and its key keeps the pieces well-formed. */
  lemma PiecesPrefix(catalog: seq<Exercise>, keys: seq<string>, pieces: seq<seq<Exercise>>)
    requires PiecesFrom(catalog, keys, pieces) && |pieces| > 0
    ensures PiecesFrom(catalog, keys[..|keys| - 1], pieces[..|pieces| - 1])
    ensures keys[|keys| - 1] !in keys[..|keys| - 1]
  {
  }

  /** The joined pieces draw on the catalog and hold only exercises of the pieces' keys. */
  lemma {:induction false} ConcatFrom(catalog: seq<Exercise>, keys: seq<string>, pieces: seq<seq<Exercise>>)
    requires PiecesFrom(catalog, keys, pieces)
    ensures multiset(Concat(pieces)) <= multiset(catalog)
    ensures forall e :: e in Concat(pieces) ==> FirstCategory(e) in keys
    decreases |pieces|
  {
    if |pieces| > 0 {
      var m := |pieces| - 1;
      var p := Concat(pieces[..m]);
      var s := pieces[m];
      PiecesPrefix(catalog, keys, pieces);
      ConcatFrom(catalog, keys[..m], pieces[..m]);
      assert forall e :: e in p ==> FirstCategory(e) != keys[m];
      SharesPiece(catalog, p, s, keys[m]);
      forall e | e in p + s
        ensures FirstCategory(e) in keys
      {
        if e in p {
          assert FirstCategory(e) in keys[..m];
        }
      }
    }
  }

  /** Joining pieces that each repeat nothing repeats nothing. */
  lemma {:induction false} ConcatDistinct(catalog: seq<Exercise>, keys: seq<string>, pieces: seq<seq<Exercise>>)
    requires PiecesFrom(catalog, keys, pieces)
    requires forall i :: 0 <= i < |pieces| ==> Distinct(pieces[i])
    ensures Distinct(Concat(pieces))
    decreases |pieces|
  {
    if |pieces| > 0 {
      var m := |pieces| - 1;
      var p := Concat(pieces[..m]);
      var s := pieces[m];
      PiecesPrefix(catalog, keys, pieces);
      ConcatDistinct(catalog, keys[..m], pieces[..m]);
      ConcatFrom(catalog, keys[..m], pieces[..m]);
      assert forall e :: e in p ==> FirstCategory(e) != keys[m];
      SharesPiece(catalog, p, s, keys[m]);
    }
  }

  /** The joined pieces hold no more exercises of one key than the longest piece. */
  lemma ConcatQuota(catalog: seq<Exercise>, keys: seq<string>, pieces: seq<seq<Exercise>>, q: nat, c: string)
    requires PiecesFrom(catalog, keys, pieces)
    requires forall i :: 0 <= i < |pieces| ==> |pieces[i]| <= q
    ensures |OfCategory(Concat(pieces), c)| <= q
  {
    if c in keys {
      var i :| 0 <= i < |keys| && keys[i] == c;
      ConcatOfKey(catalog, keys, pieces, i);
    } else {
      forall e | e in Concat(pieces)
        ensures FirstCategory(e) != c
      {
        var i :| 0 <= i < |pieces| && e in pieces[i];
        assert FirstCategory(e) == keys[i];
      }
      OfCategoryNone(Concat(pieces), c);
    }
  }


  /** Appending one category's share to the shares of other categories. */
  lemma SharesPiece(catalog: seq<Exercise>, p: seq<Exercise>, s: seq<Exercise>, k: string)
    requires multiset(p) <= multiset(catalog) && GroupFrom(catalog, k, s)
    requires forall e :: e in p ==> FirstCategory(e) != k
    ensures multiset(p + s) <= multiset(catalog)
    ensures Distinct(p) && Distinct(s) ==> Distinct(p + s)
  {
    forall x
      ensures multiset(p + s)[x] <= multiset(catalog)[x]
    {
      assert multiset(p + s)[x] == multiset(p)[x] + multiset(s)[x];
      if x in p {
        assert x !in s;
      }
    }
    if Distinct(p) && Distinct(s) {
      DistinctConcat(p, s);
    }
  }

  /** With a distinct catalog, the leftovers are the catalog without the distinct selection. */
  lemma LeftoverCount(catalog: seq<Exercise>, sel: seq<Exercise>)
    requires Distinct(catalog) && Distinct(sel)
    requires multiset(sel) <= multiset(catalog)
    ensures |NotIn(catalog, sel)| + |sel| == |catalog|
    ensures Distinct(NotIn(catalog, sel))
  {
    var rest := NotIn(catalog, sel);
    forall e
      ensures multiset(catalog)[e] == (multiset(rest) + multiset(sel))[e]
    {
      if e in sel {
        assert e in multiset(sel);
      }
    }
    assert multiset(catalog) == multiset(rest) + multiset(sel);
    DistinctSub(rest, catalog);
  }

  /** The balanced part draws on the catalog, stays within 40, and repeats nothing when the catalog does not. */
  lemma BalancedFacts(catalog: seq<Exercise>, draws: seq<seq<nat>>)
    ensures multiset(Balanced(catalog, draws)) <= multiset(catalog)
    ensures Distinct(catalog) ==> Distinct(Balanced(catalog, draws))
  {
    var b := Bucketize(catalog);
    var pieces := Shares(b, Quota(|b.keys|), draws);
    BucketizeFrom(catalog);
    SharesFrom(catalog, b, Quota(|b.keys|), draws);
    ConcatFrom(catalog, b.keys, pieces);
    if Distinct(catalog) {
      ConcatDistinct(catalog, b.keys, pieces);
    }
  }

  /** Topping up a selection drawn from the catalog keeps it drawn from the catalog, within 40, and repeat-free. */
  lemma TopUpFacts(catalog: seq<Exercise>, sel: seq<Exercise>, fillDraws: seq<nat>)
    requires multiset(sel) <= multiset(catalog) && |sel| <= WorkoutSize
    requires Distinct(catalog) ==> Distinct(sel)
    ensures var all := sel + Fill(catalog, sel, fillDraws);
            && |all| <= WorkoutSize
            && (forall e :: e in all ==> e in catalog)
            && (Distinct(catalog) ==> Distinct(all) && |all| == Min(WorkoutSize, |catalog|))
  {
    var fill := Fill(catalog, sel, fillDraws);
    JoinFacts(catalog, sel, fill);
  }

  /** The join of a selection and a top-up drawn from the leftovers. */
  lemma JoinFacts(catalog: seq<Exercise>, sel: seq<Exercise>, fill: seq<Exercise>)
    requires multiset(sel) <= multiset(catalog) && |sel| <= WorkoutSize
    requires Distinct(catalog) ==> Distinct(sel)
    requires multiset(fill) <= multiset(NotIn(catalog, sel))
    requires |fill| == Min(WorkoutSize - |sel|, |NotIn(catalog, sel)|)
    ensures var all := sel + fill;
            && |all| <= WorkoutSize
            && (forall e :: e in all ==> e in catalog)
            && (Distinct(catalog) ==> Distinct(all) && |all| == Min(WorkoutSize, |catalog|))
  {
    var rest := NotIn(catalog, sel);
    forall e | e in fill
      ensures e in catalog && e !in sel
    {
      assert e in multiset(fill);
      assert e in multiset(rest);
    }
    forall e | e in sel
      ensures e in catalog
    {
      assert e in multiset(sel);
    }
    if Distinct(catalog) {
      LeftoverCount(catalog, sel);
      DistinctSub(fill, rest);
      DistinctConcat(sel, fill);
    }
  }

  /** The facts `SelectExercises` promises, about the list before the final shuffle. */
  lemma SelectionFacts(catalog: seq<Exercise>, perCategory: seq<seq<nat>>, fillDraws: seq<nat>)
    ensures var sel := Balanced(catalog, perCategory);
            var all := sel + Fill(catalog, sel, fillDraws);
            && |all| <= WorkoutSize
            && (forall e :: e in all ==> e in catalog)
            && (Distinct(catalog) ==> Distinct(all) && |all| == Min(WorkoutSize, |catalog|))
  {
    BalancedFacts(catalog, perCategory);
    TopUpFacts(catalog, Balanced(catalog, perCategory), fillDraws);
  }

  /** Each category contributes at most `floor(40 / #categories)` exercises to a new workout. */
  lemma CategoryQuota(catalog: seq<Exercise>, d: SelectionDraws, c: string)
    ensures var b := Bucketize(catalog);
            |OfCategory(Balanced(catalog, d.perCategory), c)| <= Quota(|b.keys|)
  {
    var b := Bucketize(catalog);
    var q := Quota(|b.keys|);
    var pieces := Shares(b, q, d.perCategory);
    BucketizeFrom(catalog);
    SharesFrom(catalog, b, q, d.perCategory);
    SharesBounded(b, q, d.perCategory);
    ConcatQuota(catalog, b.keys, pieces, q, c);
  }

  /** In the joined pieces, the exercises of the `i`-th key are exactly the `i`-th piece. */
  lemma {:induction false} ConcatOfKey(catalog: seq<Exercise>, keys: seq<string>, pieces: seq<seq<Exercise>>, i: nat)
    requires PiecesFrom(catalog, keys, pieces) && i < |pieces|
    ensures OfCategory(Concat(pieces), keys[i]) == pieces[i]
    decreases |pieces|
  {
    var m := |pieces| - 1;
    var p := Concat(pieces[..m]);
    var s := pieces[m];
    var c := keys[i];
    PiecesPrefix(catalog, keys, pieces);
    ConcatFrom(catalog, keys[..m], pieces[..m]);
    OfCategoryConcat(p, s, c);
    if i == m {
      assert forall e :: e in p ==> FirstCategory(e) != c;
      OfCategoryNone(p, c);
      OfCategoryAll(s, c);
    } else {
      ConcatOfKey(catalog, keys[..m], pieces[..m], i);
      OfCategoryNone(s, c);
    }
  }

  /**
   * Each category present in the catalog contributes exactly
   * `min(floor(40 / #categories), size of its bucket)` exercises to the balanced part.
   */
  lemma CategoryShare(catalog: seq<Exercise>, d: SelectionDraws, c: string)
    requires c in Bucketize(catalog).keys
    ensures var b := Bucketize(catalog);
            |OfCategory(Balanced(catalog, d.perCategory), c)| == Min(Quota(|b.keys|), |Group(b, c)|)
  {
    var b := Bucketize(catalog);
    var q := Quota(|b.keys|);
    var pieces := Shares(b, q, d.perCategory);
    var i :| 0 <= i < |b.keys| && b.keys[i] == c;
    BucketizeFrom(catalog);
    SharesFrom(catalog, b, q, d.perCategory);
    ConcatOfKey(catalog, b.keys, pieces, i);
  }

  /** The final shuffle can put the balanced part and the top-up in any order at all. */
  lemma AnyFinalOrder(catalog: seq<Exercise>, d: SelectionDraws, ys: seq<Exercise>)
    requires multiset(ys) == multiset(Candidates(catalog, d))
    ensures exists final :: SelectExercises(catalog, d.(final := final)) == ys
  {
    var all := Candidates(catalog, d);
    var final := DrawsFor(all, ys);
    assert Candidates(catalog, d.(final := final)) == all;
    assert SelectExercises(catalog, d.(final := final)) == Shuffle(all, final);
  }
}
