/** Reciprocal rank fusion (rag/rrf.py), with scores as exact rationals. */
module RankFusion {
  import opened Common
  import Sorting

  // ---- Order of identifiers ----

  /** Code-point order of strings. */
  predicate LexLess(a: string, b: string) {
    b != [] && (a == [] || a[0] < b[0] || (a[0] == b[0] && LexLess(a[1..], b[1..])))
  }

  lemma {:induction false} LexTransitive(a: string, b: string, c: string)
    requires LexLess(a, b) && LexLess(b, c)
    ensures LexLess(a, c)
    decreases |a|
  {
    if a != [] && a[0] == b[0] && b[0] == c[0] {
      LexTransitive(a[1..], b[1..], c[1..]);
    }
  }

  lemma {:induction false} LexTotal(a: string, b: string)
    ensures LexLess(a, b) || LexLess(b, a) || a == b
    ensures !(LexLess(a, b) && LexLess(b, a))
    ensures !LexLess(a, a)
    decreases |a|
  {
    if a != [] {
      LexTotal(a[1..], a[1..]);
      if b != [] && a[0] == b[0] {
        LexTotal(a[1..], b[1..]);
        assert a == [a[0]] + a[1..] && b == [b[0]] + b[1..];
      }
    }
  }

  // ---- Scores ----

  /** One-based rank; of an identifier that is listed twice, the last. */
  function RankOf(list: seq<string>, id: string): Option<nat> {
    if list == [] then None
    else if list[|list| - 1] == id then Some(|list|)
    else RankOf(list[..|list| - 1], id)
  }

  lemma {:induction false} RankedExactlyWhenListed(list: seq<string>, id: string)
    ensures RankOf(list, id).Some? <==> id in list
    ensures RankOf(list, id).Some? ==>
      var rank := RankOf(list, id).value;
      1 <= rank <= |list| && list[rank - 1] == id && forall i :: rank <= i < |list| ==> list[i] != id
  {
    if list != [] {
      assert list == list[..|list| - 1] + [list[|list| - 1]];
      RankedExactlyWhenListed(list[..|list| - 1], id);
    }
  }

  function Share(rank: Option<nat>, k: nat): real
    requires rank.Some? ==> rank.value > 0
  {
    if rank.None? then 0.0 else 1.0 / (k + rank.value) as real
  }

  datatype FusedResult = FusedResult(id: string, score: real, denseRank: Option<nat>, sparseRank: Option<nat>)

  function Fuse(dense: seq<string>, sparse: seq<string>, k: nat, id: string): FusedResult {
    RankedExactlyWhenListed(dense, id);
    RankedExactlyWhenListed(sparse, id);
    var d, s := RankOf(dense, id), RankOf(sparse, id);
    FusedResult(id, Share(d, k) + Share(s, k), d, s)
  }

  /** Score descending, then identifier ascending. */
  predicate Before(a: FusedResult, b: FusedResult) {
    a.score > b.score || (a.score == b.score && LexLess(a.id, b.id))
  }

  lemma BeforeIsStrict()
    ensures Sorting.StrictOrder(Before)
  {
    forall a: FusedResult ensures !Before(a, a) { LexTotal(a.id, a.id); }
    forall a, b, c | Before(a, b) && Before(b, c) ensures Before(a, c) {
      if a.score == b.score == c.score { LexTransitive(a.id, b.id, c.id); }
    }
  }

  /** A score is the sum of the reciprocals of k plus each rank there is, and nothing for a list that lacks it. */
  lemma ScoresAreReciprocals(dense: seq<string>, sparse: seq<string>, k: nat, id: string)
      returns (fromDense: real, fromSparse: real)
    ensures Fuse(dense, sparse, k, id).score == fromDense + fromSparse
    ensures IsReciprocal(fromDense, RankOf(dense, id), k) && IsReciprocal(fromSparse, RankOf(sparse, id), k)
  {
    RankedExactlyWhenListed(dense, id);
    RankedExactlyWhenListed(sparse, id);
    fromDense, fromSparse := Share(RankOf(dense, id), k), Share(RankOf(sparse, id), k);
    ShareIsReciprocal(RankOf(dense, id), k);
    ShareIsReciprocal(RankOf(sparse, id), k);
  }

  predicate IsReciprocal(share: real, rank: Option<nat>, k: nat) {
    if rank.None? then share == 0.0 else share * (k + rank.value) as real == 1.0
  }

  lemma ShareIsReciprocal(rank: Option<nat>, k: nat)
    requires rank.Some? ==> rank.value > 0
    ensures IsReciprocal(Share(rank, k), rank, k)
  {
  }

  // ---- Fusion ----

  /** The union of both lists, each identifier once with its score, in strict order. */
  ghost predicate IsFusion(dense: seq<string>, sparse: seq<string>, k: nat, fused: seq<FusedResult>) {
    && Sorting.Ordered(fused, Before)
    && (forall r :: r in fused <==> (r.id in dense || r.id in sparse) && r == Fuse(dense, sparse, k, r.id))
  }

  /** The loop over the set takes the identifiers in an arbitrary order. */
  method ReciprocalRankFusion(dense: seq<string>, sparse: seq<string>, k: nat) returns (fused: seq<FusedResult>)
    ensures IsFusion(dense, sparse, k, fused)
  {
    var allIds := (set id | id in dense) + (set id | id in sparse);
    var pending := allIds;
    fused := [];
    while pending != {}
      invariant pending <= allIds
      invariant forall r :: r in fused <==> r.id in allIds - pending && r == Fuse(dense, sparse, k, r.id)
      invariant forall i, j :: 0 <= i < j < |fused| ==> fused[i].id != fused[j].id
    {
      var id :| id in pending;
      pending := pending - {id};
      fused := fused + [Fuse(dense, sparse, k, id)];
    }
    forall i, j | 0 <= i < j < |fused| ensures Before(fused[i], fused[j]) || Before(fused[j], fused[i]) {
      LexTotal(fused[i].id, fused[j].id);
    }
    BeforeIsStrict();
    Sorting.SortOrdered(fused, Before);
    Sorting.SortMembers(fused, Before);
    fused := Sorting.Sort(fused, Before);
  }

  /** Whatever the iteration order of the set, the output is the same. */
  lemma FusionIsUnique(dense: seq<string>, sparse: seq<string>, k: nat, a: seq<FusedResult>, b: seq<FusedResult>)
    requires IsFusion(dense, sparse, k, a) && IsFusion(dense, sparse, k, b)
    ensures a == b
  {
    BeforeIsStrict();
    Sorting.OrderedIsUnique(a, b, Before);
  }

  function Swap(r: FusedResult): FusedResult {
    r.(denseRank := r.sparseRank, sparseRank := r.denseRank)
  }

  function SwapAll(rs: seq<FusedResult>): seq<FusedResult> {
    seq(|rs|, i requires 0 <= i < |rs| => Swap(rs[i]))
  }

  /** Swapping the lists changes nothing but which rank is which. */
  lemma SwappingTheLists(dense: seq<string>, sparse: seq<string>, k: nat, a: seq<FusedResult>, b: seq<FusedResult>)
    requires IsFusion(dense, sparse, k, a) && IsFusion(sparse, dense, k, b)
    ensures b == SwapAll(a)
  {
    var t := SwapAll(a);
    forall r ensures r in t <==> (r.id in dense || r.id in sparse) && r == Fuse(sparse, dense, k, r.id) {
      assert Fuse(sparse, dense, k, r.id) == Swap(Fuse(dense, sparse, k, r.id));
      if r in t {
        var i :| 0 <= i < |t| && t[i] == r;
        assert a[i] in a && r == Swap(a[i]);
      }
      if Swap(r) in a {
        var i :| 0 <= i < |a| && a[i] == Swap(r);
        assert t[i] == r;
      }
    }
    FusionIsUnique(sparse, dense, k, b, t);
  }

  // ---- Dominance ----

  /** Ranked in front of b in this list: earlier, or listed where b is not. */
  predicate Ahead(list: seq<string>, a: string, b: string) {
    var ra, rb := RankOf(list, a), RankOf(list, b);
    ra.Some? && (rb.None? || ra.value < rb.value)
  }

  /** No worse than b in this list. */
  predicate Abreast(list: seq<string>, a: string, b: string) {
    Ahead(list, a, b) || RankOf(list, a) == RankOf(list, b)
  }

  lemma SmallerDivisor(x: real, y: real)
    requires 0.0 < x < y
    ensures 1.0 / x > 1.0 / y > 0.0
  {
  }

  lemma AheadScoresMore(list: seq<string>, a: string, b: string, k: nat)
    requires Ahead(list, a, b)
    ensures RankOf(list, a).value > 0 && (RankOf(list, b).Some? ==> RankOf(list, b).value > 0)
    ensures Share(RankOf(list, a), k) > Share(RankOf(list, b), k)
  {
    RankedExactlyWhenListed(list, a);
    RankedExactlyWhenListed(list, b);
    var ra, rb := RankOf(list, a), RankOf(list, b);
    if rb.Some? {
      SmallerDivisor((k + ra.value) as real, (k + rb.value) as real);
    }
  }

  /** An identifier ahead of another in one list and no worse in the other stays ahead of it. */
  lemma DominanceIsKept(dense: seq<string>, sparse: seq<string>, k: nat, fused: seq<FusedResult>, i: nat, j: nat)
    requires IsFusion(dense, sparse, k, fused) && i < |fused| && j < |fused|
    requires
      var a, b := fused[i].id, fused[j].id;
      (Ahead(dense, a, b) && Abreast(sparse, a, b)) || (Abreast(dense, a, b) && Ahead(sparse, a, b))
    ensures i < j
  {
    var a, b := fused[i].id, fused[j].id;
    assert fused[i] in fused && fused[j] in fused;
    if Ahead(dense, a, b) { AheadScoresMore(dense, a, b, k); }
    if Ahead(sparse, a, b) { AheadScoresMore(sparse, a, b, k); }
    assert Before(fused[i], fused[j]);
    BeforeIsStrict();
    assert j < i ==> Before(fused[j], fused[i]);
  }
}
