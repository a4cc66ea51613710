/** `selectRandomRiddles`: the riddle texts in map order, shuffled, and the first
    five of them queued. */
module Selection {
  import opened Results
  import opened Catalog
  import opened Answers

  /** Number of riddles in one game. */
  const QueueLength: nat := 5

  /** `perm` is a permutation of the positions `0 .. n-1`; it stands for the
      outcome of `Collections.shuffle`. */
  predicate IsPermutation(perm: seq<nat>, n: nat)
  {
    && |perm| == n
    && (forall i :: 0 <= i < n ==> perm[i] < n)
    && (forall i, j :: 0 <= i < j < n ==> perm[i] != perm[j])
  }

  /** `riddleMap.values()` in iteration order. */
  function Values(cat: RiddleCatalog): (vs: seq<string>)
    requires Valid(cat)
    ensures |vs| == |cat.order|
    ensures forall j :: 0 <= j < |vs| ==> HasText(cat.riddles, cat.order[j], vs[j])
  {
    seq(|cat.order|, j requires 0 <= j < |cat.order| && Valid(cat) => cat.riddles[cat.order[j]])
  }

  /** Every riddle text shows up in `order`'s listing of the values. */
  lemma EveryValueListed(cat: RiddleCatalog)
    requires Valid(cat)
    ensures forall k :: k in cat.riddles ==>
      exists j :: 0 <= j < |cat.order| && cat.order[j] == k
  {
    forall k | k in cat.riddles ensures exists j :: 0 <= j < |cat.order| && cat.order[j] == k {
      assert k in cat.order;
    }
  }

  /** No riddle is left out of the listing of the values. */
  lemma ValuesCover(cat: RiddleCatalog, k: string)
    requires Valid(cat) && k in cat.riddles
    ensures cat.riddles[k] in Values(cat)
  {
    EveryValueListed(cat);
    var j :| 0 <= j < |cat.order| && cat.order[j] == k;
    assert Values(cat)[j] == cat.riddles[k];
  }

  /** The elements of `xs` at the positions listed in `p`, in that order. */
  function Pick<T>(xs: seq<T>, p: seq<nat>): (ys: seq<T>)
    requires forall i :: 0 <= i < |p| ==> p[i] < |xs|
    ensures |ys| == |p|
    ensures forall i :: 0 <= i < |p| ==> ys[i] == xs[p[i]]
  {
    if p == [] then [] else Pick(xs, p[..|p| - 1]) + [xs[p[|p| - 1]]]
  }

  /** The positions `init` once position `v` is cut out of the list: those after
      `v` move one down. */
  function Renumber(init: seq<nat>, v: nat): (q: seq<nat>)
    ensures |q| == |init|
    ensures forall i :: 0 <= i < |init| ==> q[i] == if init[i] <= v then init[i] else init[i] - 1
  {
    seq(|init|, i requires 0 <= i < |init| => if init[i] <= v then init[i] else init[i] - 1)
  }

  /** Dropping the last entry `v` of a permutation and renumbering leaves a
      permutation of one position fewer. */
  lemma RenumberPermutation(p: seq<nat>, n: nat)
    requires n > 0 && IsPermutation(p, n)
    ensures IsPermutation(Renumber(p[..n - 1], p[n - 1]), n - 1)
  {
    var v := p[n - 1];
    var q := Renumber(p[..n - 1], v);
    forall i | 0 <= i < n - 1 ensures q[i] < n - 1 {
      assert p[i] != p[n - 1];
    }
    forall i, j | 0 <= i < j < n - 1 ensures q[i] != q[j] {
      assert p[i] != p[j] && p[i] != v && p[j] != v;
    }
  }

  /** Cutting position `v` out of `xs` and renumbering positions that avoid `v`
      picks the same elements. */
  lemma PickCut<T>(xs: seq<T>, init: seq<nat>, v: nat)
    requires v < |xs|
    requires forall i :: 0 <= i < |init| ==> init[i] < |xs| && init[i] != v
    ensures forall i :: 0 <= i < |init| ==> Renumber(init, v)[i] < |xs| - 1
    ensures Pick(xs[..v] + xs[v + 1..], Renumber(init, v)) == Pick(xs, init)
  {
    var rest := xs[..v] + xs[v + 1..];
    var q := Renumber(init, v);
    forall i | 0 <= i < |init| ensures rest[q[i]] == xs[init[i]] {
      CutIndex(xs, v, init[i]);
    }
  }

  /** Where element `k` of `xs` sits once position `v` is cut out. */
  lemma CutIndex<T>(xs: seq<T>, v: nat, k: nat)
    requires v < |xs| && k < |xs| && k != v
    ensures var rest := xs[..v] + xs[v + 1..];
      (if k <= v then k else k - 1) < |rest| && rest[if k <= v then k else k - 1] == xs[k]
  {
  }

  /** Cutting one element out of a sequence removes exactly one occurrence of it. */
  lemma MultisetCut<T>(xs: seq<T>, v: nat)
    requires v < |xs|
    ensures multiset(xs) == multiset(xs[..v] + xs[v + 1..]) + multiset{xs[v]}
  {
    assert xs == xs[..v] + [xs[v]] + xs[v + 1..];
  }

  /** Picking along a permutation keeps every element with its multiplicity. */
  lemma {:induction false} PickPermutation<T>(xs: seq<T>, p: seq<nat>)
    requires IsPermutation(p, |xs|)
    ensures multiset(Pick(xs, p)) == multiset(xs)
    decreases |p|
  {
    var n := |xs|;
    if n > 0 {
      var v := p[n - 1];
      var init := p[..n - 1];
      var rest := xs[..v] + xs[v + 1..];
      assert forall i :: 0 <= i < |init| ==> init[i] < |xs| && init[i] != v by {
        forall i | 0 <= i < |init| ensures init[i] != v {
          assert p[i] != p[n - 1];
        }
      }
      PickCut(xs, init, v);
      RenumberPermutation(p, n);
      PickPermutation(rest, Renumber(init, v));
      assert Pick(xs, p) == Pick(xs, init) + [xs[v]];
      MultisetCut(xs, v);
    }
  }

  /** `Collections.shuffle`: the list reordered by `perm`, position `i` taking what
      was at `perm[i]`. It is a permutation of the list. */
  function Shuffle(xs: seq<string>, perm: seq<nat>): (ys: seq<string>)
    requires IsPermutation(perm, |xs|)
    ensures |ys| == |xs|
    ensures forall i :: 0 <= i < |ys| ==> ys[i] == xs[perm[i]]
    ensures multiset(ys) == multiset(xs)
  {
    PickPermutation(xs, perm);
    Pick(xs, perm)
  }

  /** `selectRandomRiddles`: the first five shuffled riddle texts, or the
      `IndexOutOfBoundsException` that `get(i)` raises when the catalog holds fewer
      than five riddles. The five texts come from five distinct answers. */
  function Select(cat: RiddleCatalog, perm: seq<nat>): (r: Result<seq<string>>)
    requires Valid(cat) && IsPermutation(perm, |cat.order|)
    ensures r.Failure? <==> |cat.riddles| < QueueLength
    ensures r.Failure? ==> r.error == IndexOutOfBounds
    ensures r.Success? ==> |r.value| == QueueLength <= |cat.order|
    ensures r.Success? ==> forall i :: 0 <= i < |r.value| ==> r.value[i] in cat.riddles.Values
    ensures r.Success? ==> forall i :: 0 <= i < |r.value| ==>
      HasText(cat.riddles, cat.order[perm[i]], r.value[i])
    ensures r.Success? ==> forall i, j :: 0 <= i < j < |r.value| ==> cat.order[perm[i]] != cat.order[perm[j]]
  {
    EnumerationSize(cat.order, cat.riddles.Keys);
    var shuffled := Shuffle(Values(cat), perm);
    if |shuffled| < QueueLength then Failure(IndexOutOfBounds)
    else Success(shuffled[..QueueLength])
  }

  /** With unique riddle texts, the five queued riddles are five different riddles. */
  lemma SelectDistinct(cat: RiddleCatalog, perm: seq<nat>)
    requires Valid(cat) && IsPermutation(perm, |cat.order|)
    requires Injective(cat.riddles)
    requires Select(cat, perm).Success?
    ensures Distinct(Select(cat, perm).value)
  {
    var q := Select(cat, perm).value;
    forall i, j | 0 <= i < j < |q| ensures q[i] != q[j] {
      assert HasText(cat.riddles, cat.order[perm[i]], q[i]);
      assert HasText(cat.riddles, cat.order[perm[j]], q[j]);
    }
  }
}
