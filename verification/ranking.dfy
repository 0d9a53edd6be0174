/**
 * `calculate_cosine_sim` and the extraction loop of `resolve_vsm_query` in
 * query_parser.py. The heap is modelled by its contents: a pop yields the
 * least entry under Python's tuple order on `(-sim, doc_id)`.
 */
module Ranking {
  import opened Seqs
  import opened Numerics

  /** A heap item `(-sim, doc_id)`. */
  datatype Entry = Entry(negSim: real, docId: nat)

  function Score(e: Entry): real {
    -e.negSim
  }

  /** Tuple order: `a < b` for Python's `(negSim, docId)` tuples. */
  predicate Before(a: Entry, b: Entry) {
    a.negSim < b.negSim || (a.negSim == b.negSim && a.docId < b.docId)
  }

  /** No two entries share a document id. */
  ghost predicate DistinctIds(h: seq<Entry>) {
    Distinct(Ids(h))
  }

  function Ids(h: seq<Entry>): (ids: seq<nat>)
    ensures |ids| == |h|
    ensures forall i :: 0 <= i < |h| ==> ids[i] == h[i].docId
  {
    seq(|h|, i requires 0 <= i < |h| => h[i].docId)
  }

  /** `calculate_cosine_sim`: one entry per matrix row, pushed in row order. */
  function CosineScores(q: seq<real>, matrix: seq<seq<real>>): (heap: seq<Entry>)
    requires forall d :: 0 <= d < |matrix| ==> |matrix[d]| == |q|
    ensures |heap| == |matrix|
    ensures forall d :: 0 <= d < |heap| ==> heap[d] == Entry(-Dot(q, matrix[d]), d)
  {
    seq(|matrix|, d requires 0 <= d < |matrix| => Entry(-Dot(q, matrix[d]), d))
  }

  /** Where the least entry sits: what `heappop` removes. */
  function MinIndex(h: seq<Entry>): (i: nat)
    requires |h| > 0
    ensures i < |h|
    ensures forall k :: 0 <= k < |h| ==> !Before(h[k], h[i])
  {
    if |h| == 1 then 0
    else
      var j := MinIndex(h[..|h| - 1]);
      assert forall k :: 0 <= k < |h| - 1 ==> h[..|h| - 1][k] == h[k];
      if Before(h[|h| - 1], h[j]) then |h| - 1 else j
  }

  function Without(h: seq<Entry>, i: nat): (r: seq<Entry>)
    requires i < |h|
    ensures |r| == |h| - 1
    ensures multiset(r) + multiset{h[i]} == multiset(h)
  {
    assert h == h[..i] + [h[i]] + h[i + 1..];
    h[..i] + h[i + 1..]
  }

  /** Every entry popped in turn: the full ranking. */
  function Drain(h: seq<Entry>): (r: seq<Entry>)
    ensures multiset(r) == multiset(h)
    decreases |h|
  {
    if h == [] then []
    else
      var i := MinIndex(h);
      [h[i]] + Drain(Without(h, i))
  }

  /** The `heappop` loop of `resolve_vsm_query`: pop until the heap is empty or the popped score is below `alpha`. */
  function Extract(h: seq<Entry>, alpha: real): (r: seq<Entry>)
    ensures |r| <= |h|
    ensures forall i :: 0 <= i < |r| ==> Score(r[i]) >= alpha
    decreases |h|
  {
    if h == [] then []
    else
      var i := MinIndex(h);
      if Score(h[i]) < alpha then [] else [h[i]] + Extract(Without(h, i), alpha)
  }

  /** The full ranking lists entries by descending score, equal scores by ascending id. */
  lemma DrainMembers(h: seq<Entry>, x: Entry)
    requires x in Drain(h)
    ensures x in h
  {
    assert x in multiset(Drain(h));
  }

  lemma {:induction false} DrainSorted(h: seq<Entry>, i: nat, j: nat)
    requires i < j < |Drain(h)|
    ensures !Before(Drain(h)[j], Drain(h)[i])
    decreases |h|
  {
    var m := MinIndex(h);
    var rest := Without(h, m);
    var d := Drain(rest);
    assert Drain(h) == [h[m]] + d;
    assert Drain(h)[j] == d[j - 1];
    if i == 0 {
      var x := d[j - 1];
      DrainMembers(rest, x);
      assert x in h by {
        assert multiset(rest) + multiset{h[m]} == multiset(h);
      }
      var k :| 0 <= k < |h| && h[k] == x;
      assert !Before(h[k], h[m]);
    } else {
      DrainSorted(rest, i - 1, j - 1);
    }
  }

  /** The extracted entries are a prefix of the full ranking. */
  lemma {:induction false} ExtractIsPrefix(h: seq<Entry>, alpha: real)
    ensures Extract(h, alpha) <= Drain(h)
    decreases |h|
  {
    if h != [] {
      ExtractIsPrefix(Without(h, MinIndex(h)), alpha);
    }
  }

  /** Raising the threshold keeps a prefix of the earlier result. */
  lemma {:induction false} ExtractMonotone(h: seq<Entry>, low: real, high: real)
    requires low <= high
    ensures Extract(h, high) <= Extract(h, low)
    decreases |h|
  {
    if h != [] {
      ExtractMonotone(Without(h, MinIndex(h)), low, high);
    }
  }

  /**
   * An entry is extracted exactly when its score reaches `alpha`: once the
   * least entry falls below the threshold, no entry left can reach it.
   */
  lemma {:induction false} ExtractMembership(h: seq<Entry>, alpha: real, e: Entry)
    ensures e in Extract(h, alpha) <==> e in h && Score(e) >= alpha
    decreases |h|
  {
    if h != [] {
      var m := MinIndex(h);
      var rest := Without(h, m);
      assert e in h <==> e in multiset(rest) || e == h[m];
      if Score(h[m]) < alpha {
        if e in h {
          var k :| 0 <= k < |h| && h[k] == e;
          assert !Before(h[k], h[m]);
        }
      } else {
        ExtractMembership(rest, alpha, e);
      }
    }
  }

  lemma WithoutDistinct(h: seq<Entry>, m: nat)
    requires m < |h| && DistinctIds(h)
    ensures DistinctIds(Without(h, m))
    ensures forall x :: x in Without(h, m) ==> x.docId != h[m].docId
  {
    var rest := Without(h, m);
    assert rest == h[..m] + h[m + 1..];
    forall i, j | 0 <= i < j < |rest| ensures rest[i].docId != rest[j].docId {
      var i' := if i < m then i else i + 1;
      var j' := if j < m then j else j + 1;
      assert rest[i] == h[i'] && rest[j] == h[j'];
    }
    forall x | x in rest ensures x.docId != h[m].docId {
      var k :| 0 <= k < |rest| && rest[k] == x;
      var idx := if k < m then k else k + 1;
      assert h[idx] == x;
    }
  }

  lemma ConsDistinct(e: Entry, tail: seq<Entry>)
    requires DistinctIds(tail)
    requires forall x :: x in tail ==> x.docId != e.docId
    ensures DistinctIds([e] + tail)
  {
    var r := [e] + tail;
    forall i, j | 0 <= i < j < |r| ensures r[i].docId != r[j].docId {
      assert r[j] == tail[j - 1] && r[j] in tail;
      if i > 0 {
        assert r[i] == tail[i - 1];
      }
    }
  }

  /** No entry is extracted twice when the heap holds each id once. */
  lemma {:induction false} ExtractDistinct(h: seq<Entry>, alpha: real)
    requires DistinctIds(h)
    ensures DistinctIds(Extract(h, alpha))
    decreases |h|
  {
    if h != [] {
      var m := MinIndex(h);
      var e := h[m];
      var rest := Without(h, m);
      WithoutDistinct(h, m);
      ExtractDistinct(rest, alpha);
      if Score(e) >= alpha {
        var tail := Extract(rest, alpha);
        assert Extract(h, alpha) == [e] + tail;
        forall x | x in tail ensures x.docId != e.docId {
          ExtractMembership(rest, alpha, x);
        }
        ConsDistinct(e, tail);
      }
    }
  }

  // ---------------------------------------------------------------------
  // Ranking the documents of a matrix
  // ---------------------------------------------------------------------

  /** The ranked document ids for query vector `q` (`resolve_vsm_query` without the string conversion). */
  function RankDocuments(q: seq<real>, matrix: seq<seq<real>>, alpha: real): (ids: seq<nat>)
    requires forall d :: 0 <= d < |matrix| ==> |matrix[d]| == |q|
    ensures |ids| <= |matrix|
  {
    Ids(Extract(CosineScores(q, matrix), alpha))
  }

  /** The ranking with no threshold. */
  function FullRanking(q: seq<real>, matrix: seq<seq<real>>): (ids: seq<nat>)
    requires forall d :: 0 <= d < |matrix| ==> |matrix[d]| == |q|
  {
    Ids(Drain(CosineScores(q, matrix)))
  }

  /** Row `d` is pushed with id `d`, so no two entries share an id. */
  lemma CosineScoresDistinct(q: seq<real>, matrix: seq<seq<real>>)
    requires forall d :: 0 <= d < |matrix| ==> |matrix[d]| == |q|
    ensures DistinctIds(CosineScores(q, matrix))
  {
    var ids := Ids(CosineScores(q, matrix));
    assert forall k :: 0 <= k < |ids| ==> ids[k] == k;
  }

  lemma EntryOfRow(q: seq<real>, matrix: seq<seq<real>>, e: Entry)
    requires forall d :: 0 <= d < |matrix| ==> |matrix[d]| == |q|
    requires e in CosineScores(q, matrix)
    ensures e.docId < |matrix| && e == Entry(-Dot(q, matrix[e.docId]), e.docId)
  {
  }

  /**
   * A document is returned exactly when its score reaches `alpha`; each
   * at most once, so no more ids than rows.
   */
  lemma RankMembership(q: seq<real>, matrix: seq<seq<real>>, alpha: real)
    requires forall d :: 0 <= d < |matrix| ==> |matrix[d]| == |q|
    ensures var ids := RankDocuments(q, matrix, alpha);
      && (forall d: nat :: d in ids <==> d < |matrix| && Dot(q, matrix[d]) >= alpha)
      && Distinct(ids)
      && |ids| <= |matrix|
  {
    var h := CosineScores(q, matrix);
    var r := Extract(h, alpha);
    var ids := Ids(r);
    forall d: nat ensures d in ids <==> d < |matrix| && Dot(q, matrix[d]) >= alpha {
      if d in ids {
        var k :| 0 <= k < |ids| && ids[k] == d;
        ExtractMembership(h, alpha, r[k]);
        EntryOfRow(q, matrix, r[k]);
      }
      if d < |matrix| && Dot(q, matrix[d]) >= alpha {
        ExtractMembership(h, alpha, h[d]);
        var k :| 0 <= k < |r| && r[k] == h[d];
        assert ids[k] == d;
      }
    }
    ExtractDistinct(h, alpha);
    ExtractIsPrefix(h, alpha);
    assert |Drain(h)| == |h| by {
      assert |multiset(Drain(h))| == |multiset(h)|;
    }
  }

  /** The `heappop` loop: results come by descending score, equal scores by ascending id. */
  lemma RankOrder(q: seq<real>, matrix: seq<seq<real>>, alpha: real, i: nat, j: nat)
    requires forall d :: 0 <= d < |matrix| ==> |matrix[d]| == |q|
    requires i < j < |RankDocuments(q, matrix, alpha)|
    ensures var ids := RankDocuments(q, matrix, alpha);
      ids[i] < |matrix| && ids[j] < |matrix| &&
      (|| Dot(q, matrix[ids[i]]) > Dot(q, matrix[ids[j]])
       || (Dot(q, matrix[ids[i]]) == Dot(q, matrix[ids[j]]) && ids[i] < ids[j]))
  {
    var h := CosineScores(q, matrix);
    var r := Extract(h, alpha);
    ExtractIsPrefix(h, alpha);
    CosineScoresDistinct(q, matrix);
    ExtractDistinct(h, alpha);
    DrainSorted(h, i, j);
    assert r[i] == Drain(h)[i] && r[j] == Drain(h)[j];
    assert r[i] in r && r[j] in r;
    ExtractMembership(h, alpha, r[i]);
    ExtractMembership(h, alpha, r[j]);
    EntryOfRow(q, matrix, r[i]);
    EntryOfRow(q, matrix, r[j]);
    var ids := Ids(r);
    assert ids[i] == r[i].docId && ids[j] == r[j].docId;
    assert Distinct(ids);
    assert ids[i] != ids[j];
    assert !Before(r[j], r[i]);
  }

  /** The result is a prefix of the full ranking, and a higher threshold gives a prefix of it. */
  lemma RankPrefix(q: seq<real>, matrix: seq<seq<real>>, low: real, high: real)
    requires forall d :: 0 <= d < |matrix| ==> |matrix[d]| == |q|
    requires low <= high
    ensures RankDocuments(q, matrix, low) <= FullRanking(q, matrix)
    ensures RankDocuments(q, matrix, high) <= RankDocuments(q, matrix, low)
  {
    var h := CosineScores(q, matrix);
    ExtractIsPrefix(h, low);
    ExtractMonotone(h, low, high);
    IdsOfPrefix(Extract(h, low), Drain(h));
    IdsOfPrefix(Extract(h, high), Extract(h, low));
  }

  lemma IdsOfPrefix(a: seq<Entry>, b: seq<Entry>)
    requires a <= b
    ensures Ids(a) <= Ids(b)
  {
    assert Ids(a) == Ids(b)[..|a|];
  }
}
