/**
 * `get_context` of backend/app.py: a keyword rule that dumps every room and
 * timetable chunk, and otherwise a top-8 selection by similarity score with
 * a relevance cut-off and a fallback sentence.
 *
 * The similarity scores and their ascending `argsort` are inputs: `None`
 * stands for an exception raised while scoring the query.
 */
module Retrieval {
  import opened Wrappers
  import opened Text

  const Sentinel: string := "No specific data found. Answer generally."

  /** How many of the best-scored chunks are considered. */
  const TopK: nat := 8

  /** A chunk must score strictly above this to be kept. */
  const Threshold: real := 0.1

  const TriggerWords: seq<string> := ["room", "vacant", "free", "empty", "where", "class"]

  const InventoryNeedle: string := "[Campus Room Inventory]"

  const TimetableNeedle: string := "Timetable"

  /** The lower-cased query mentions one of the trigger words. */
  predicate Triggered(query: string) {
    exists i :: 0 <= i < |TriggerWords| && Contains(Lower(query), TriggerWords[i])
  }

  /** `[c for c in chunks if needle in c]` */
  function Matching(chunks: seq<string>, needle: string): seq<string>
    decreases |chunks|
  {
    if chunks == [] then []
    else (if Contains(chunks[0], needle) then [chunks[0]] else []) + Matching(chunks[1..], needle)
  }

  /** The text returned by the keyword rule. */
  function Dump(chunks: seq<string>): string {
    Join(Matching(chunks, InventoryNeedle) + Matching(chunks, TimetableNeedle), "\n")
  }

  /** `order` is an ascending argsort of `scores`: a permutation of its indices, scores non-decreasing along it. */
  predicate IsArgsort(order: seq<nat>, scores: seq<real>) {
    && |order| == |scores|
    && (forall a :: 0 <= a < |order| ==> order[a] < |scores|)
    && (forall a, b :: 0 <= a < b < |order| ==> order[a] != order[b])
    && (forall i :: 0 <= i < |scores| ==> i in order)
    && (forall a, b :: 0 <= a < b < |order| ==> scores[order[a]] <= scores[order[b]])
  }

  function Reverse<T>(xs: seq<T>): (r: seq<T>)
    ensures |r| == |xs| && forall i :: 0 <= i < |xs| ==> r[i] == xs[|xs| - 1 - i]
  {
    seq(|xs|, i requires 0 <= i < |xs| => xs[|xs| - 1 - i])
  }

  /** `order[-8:][::-1]`: the last eight entries of the argsort, best first. */
  function TopIndices(order: seq<nat>): (r: seq<nat>)
    ensures |r| <= |order| && forall a :: 0 <= a < |r| ==> r[a] == order[|order| - 1 - a]
  {
    Reverse(order[if |order| <= TopK then 0 else |order| - TopK..])
  }

  /** The indices among `top` whose score is above the threshold, in `top` order. */
  function KeptIndices(scores: seq<real>, top: seq<nat>): (r: seq<nat>)
    requires forall a :: 0 <= a < |top| ==> top[a] < |scores|
    ensures forall a :: 0 <= a < |r| ==> r[a] < |scores|
    decreases |top|
  {
    if top == [] then []
    else
      var idx := top[|top| - 1];
      KeptIndices(scores, top[..|top| - 1]) + (if scores[idx] > Threshold then [idx] else [])
  }

  function ChunksAt(chunks: seq<string>, idxs: seq<nat>): seq<string>
    requires forall a :: 0 <= a < |idxs| ==> idxs[a] < |chunks|
  {
    seq(|idxs|, a requires 0 <= a < |idxs| => chunks[idxs[a]])
  }

  /** `relevant_text` after the ranked strategy; empty when scoring raised. */
  function Relevant(chunks: seq<string>, scores: Option<seq<real>>, order: seq<nat>): seq<string>
    requires scores.Some? ==> |scores.value| == |chunks| && IsArgsort(order, scores.value)
  {
    match scores
    case None => []
    case Some(s) => ChunksAt(chunks, KeptIndices(s, TopIndices(order)))
  }

  /** What `get_context(query)` returns. */
  function Context(query: string, chunks: seq<string>, indexLoaded: bool,
                   scores: Option<seq<real>>, order: seq<nat>): string
    requires scores.Some? ==> |scores.value| == |chunks| && IsArgsort(order, scores.value)
  {
    if !indexLoaded || chunks == [] then ""
    else if Triggered(query) then Dump(chunks)
    else
      var relevant := Relevant(chunks, scores, order);
      if relevant == [] then Sentinel else Join(relevant, "\n---\n")
  }

  /** The loop over `top_indices` that keeps the chunks scoring above the threshold. */
  method SelectRelevant(chunks: seq<string>, scores: seq<real>, top: seq<nat>) returns (relevant: seq<string>)
    requires |scores| == |chunks|
    requires forall a :: 0 <= a < |top| ==> top[a] < |scores|
    ensures relevant == ChunksAt(chunks, KeptIndices(scores, top))
  {
    relevant := [];
    var p := 0;
    while p < |top|
      invariant 0 <= p <= |top|
      invariant relevant == ChunksAt(chunks, KeptIndices(scores, top[..p]))
    {
      assert top[..p + 1][..p] == top[..p];
      var idx := top[p];
      if scores[idx] > Threshold {
        relevant := relevant + [chunks[idx]];
      }
      p := p + 1;
    }
    assert top[..p] == top;
  }

  /** `get_context` */
  method GetContext(query: string, chunks: seq<string>, indexLoaded: bool,
                    scores: Option<seq<real>>, order: seq<nat>) returns (context: string)
    requires scores.Some? ==> |scores.value| == |chunks| && IsArgsort(order, scores.value)
    ensures context == Context(query, chunks, indexLoaded, scores, order)
  {
    if !indexLoaded || chunks == [] {
      return "";
    }
    if Triggered(query) {
      var roomData := Matching(chunks, InventoryNeedle);
      var timetableData := Matching(chunks, TimetableNeedle);
      return Join(roomData + timetableData, "\n");
    }
    var relevant := [];
    if scores.Some? {
      relevant := SelectRelevant(chunks, scores.value, TopIndices(order));
    }
    if relevant == [] {
      return Sentinel;
    }
    return Join(relevant, "\n---\n");
  }

  // ---------------------------------------------------------------------
  // Properties
  // ---------------------------------------------------------------------

  /** Without a loaded index, or with no chunks, the answer is empty whatever the query. */
  lemma NoIndexNoContext(query: string, chunks: seq<string>, indexLoaded: bool,
                         scores: Option<seq<real>>, order: seq<nat>)
    requires scores.Some? ==> |scores.value| == |chunks| && IsArgsort(order, scores.value)
    requires !indexLoaded || chunks == []
    ensures Context(query, chunks, indexLoaded, scores, order) == ""
  {
  }

  /** The keyword rule never looks at the scores or their ranking. */
  lemma TriggerIgnoresRanking(query: string, chunks: seq<string>,
                              scores1: Option<seq<real>>, order1: seq<nat>,
                              scores2: Option<seq<real>>, order2: seq<nat>)
    requires scores1.Some? ==> |scores1.value| == |chunks| && IsArgsort(order1, scores1.value)
    requires scores2.Some? ==> |scores2.value| == |chunks| && IsArgsort(order2, scores2.value)
    requires chunks != [] && Triggered(query)
    ensures Context(query, chunks, true, scores1, order1) == Context(query, chunks, true, scores2, order2)
    ensures Context(query, chunks, true, scores1, order1) == Dump(chunks)
  {
  }

  /** Queries that differ only in letter case trigger the dump alike. */
  lemma TriggerIsCaseInsensitive(q1: string, q2: string)
    requires Lower(q1) == Lower(q2)
    ensures Triggered(q1) <==> Triggered(q2)
  {
  }

  /** An upper-case trigger word triggers the dump. */
  lemma UpperCaseTriggers()
    ensures Triggered("ROOM")
  {
    assert Lower("ROOM") == "room";
    assert StartsWith("room", TriggerWords[0]);
    assert Contains(Lower("ROOM"), TriggerWords[0]);
  }

  /** The filter keeps exactly the chunks holding the needle, each as often as it occurs. */
  lemma {:induction false} MatchingCount(chunks: seq<string>, needle: string, c: string)
    ensures multiset(Matching(chunks, needle))[c] == if Contains(c, needle) then multiset(chunks)[c] else 0
    decreases |chunks|
  {
    if chunks != [] {
      MatchingCount(chunks[1..], needle, c);
      assert chunks == [chunks[0]] + chunks[1..];
    }
  }

  /** The filter keeps corpus order: the matches of a prefix come before those of the rest. */
  lemma {:induction false} MatchingAppend(a: seq<string>, b: seq<string>, needle: string)
    ensures Matching(a + b, needle) == Matching(a, needle) + Matching(b, needle)
    decreases |a|
  {
    if a != [] {
      assert (a + b)[1..] == a[1..] + b;
      MatchingAppend(a[1..], b, needle);
    } else {
      assert a + b == b;
    }
  }

  /**
   * A chunk that mentions both the inventory tag and `Timetable` is dumped
   * twice, once in each list.
   */
  lemma DumpCountsBothLists(chunks: seq<string>, c: string)
    requires c in chunks && Contains(c, InventoryNeedle) && Contains(c, TimetableNeedle)
    ensures multiset(Matching(chunks, InventoryNeedle) + Matching(chunks, TimetableNeedle))[c]
         == 2 * multiset(chunks)[c] >= 2
  {
    MatchingCount(chunks, InventoryNeedle, c);
    MatchingCount(chunks, TimetableNeedle, c);
  }

  /** Every inventory or timetable chunk occurs in the dumped text. */
  lemma DumpHoldsEveryMatch(chunks: seq<string>, c: string)
    requires c in chunks && (Contains(c, InventoryNeedle) || Contains(c, TimetableNeedle))
    ensures Contains(Dump(chunks), c)
  {
    var m := Matching(chunks, InventoryNeedle) + Matching(chunks, TimetableNeedle);
    MatchingCount(chunks, InventoryNeedle, c);
    MatchingCount(chunks, TimetableNeedle, c);
    assert multiset(m)[c] > 0;
    var i :| 0 <= i < |m| && m[i] == c;
    JoinContains(m, "\n", i);
  }

  lemma {:induction false} MatchingNone(chunks: seq<string>, needle: string)
    requires forall k :: 0 <= k < |chunks| ==> !Contains(chunks[k], needle)
    ensures Matching(chunks, needle) == []
    decreases |chunks|
  {
    if chunks != [] {
      MatchingNone(chunks[1..], needle);
    }
  }

  /** An empty dump is returned as it is: the fallback sentence is not used for the keyword rule. */
  lemma EmptyDumpIsEmpty(query: string, chunks: seq<string>, scores: Option<seq<real>>, order: seq<nat>)
    requires scores.Some? ==> |scores.value| == |chunks| && IsArgsort(order, scores.value)
    requires chunks != [] && Triggered(query)
    requires forall k :: 0 <= k < |chunks| ==> !Contains(chunks[k], InventoryNeedle) && !Contains(chunks[k], TimetableNeedle)
    ensures Context(query, chunks, true, scores, order) == ""
  {
    MatchingNone(chunks, InventoryNeedle);
    MatchingNone(chunks, TimetableNeedle);
  }

  /** What the kept indices are, one step of `top` at a time. */
  lemma {:induction false} KeptIndicesSpec(scores: seq<real>, top: seq<nat>)
    requires forall a :: 0 <= a < |top| ==> top[a] < |scores|
    ensures |KeptIndices(scores, top)| <= |top|
    ensures forall a :: 0 <= a < |KeptIndices(scores, top)| ==> KeptIndices(scores, top)[a] < |scores|
    ensures forall i :: i in KeptIndices(scores, top) <==> i in top && i < |scores| && scores[i] > Threshold
    ensures forall a, b :: 0 <= a < b < |KeptIndices(scores, top)| ==>
      exists x, y :: 0 <= x < y < |top| && top[x] == KeptIndices(scores, top)[a] && top[y] == KeptIndices(scores, top)[b]
    decreases |top|
  {
    if top != [] {
      var init := top[..|top| - 1];
      var idx := top[|top| - 1];
      KeptIndicesSpec(scores, init);
      var k0 := KeptIndices(scores, init);
      var k := KeptIndices(scores, top);
      assert top == init + [idx];
      forall a, b | 0 <= a < b < |k|
        ensures exists x, y :: 0 <= x < y < |top| && top[x] == k[a] && top[y] == k[b]
      {
        if b < |k0| {
          var x, y :| 0 <= x < y < |init| && init[x] == k0[a] && init[y] == k0[b];
          assert top[x] == k[a] && top[y] == k[b];
        } else {
          assert k[a] in init;
          var x :| 0 <= x < |init| && init[x] == k[a];
          assert top[x] == k[a] && top[|top| - 1] == k[b];
        }
      }
    }
  }

  /** Every entry in the last eight of the argsort is a top index. */
  lemma TopHoldsTail(order: seq<nat>, p: nat)
    requires (if |order| <= TopK then 0 else |order| - TopK) <= p < |order|
    ensures order[p] in TopIndices(order)
  {
    assert TopIndices(order)[|order| - 1 - p] == order[p];
  }

  /** The top indices are distinct, best first, and score no lower than any index left out. */
  lemma TopIndicesSpec(order: seq<nat>, scores: seq<real>)
    requires IsArgsort(order, scores)
    ensures |TopIndices(order)| == if |scores| <= TopK then |scores| else TopK
    ensures forall a :: 0 <= a < |TopIndices(order)| ==> TopIndices(order)[a] < |scores|
    ensures forall a, b :: 0 <= a < b < |TopIndices(order)| ==>
      TopIndices(order)[a] != TopIndices(order)[b] && scores[TopIndices(order)[a]] >= scores[TopIndices(order)[b]]
    ensures forall i, a :: 0 <= i < |scores| && i !in TopIndices(order) && 0 <= a < |TopIndices(order)| ==>
      scores[i] <= scores[TopIndices(order)[a]]
  {
    var start := if |order| <= TopK then 0 else |order| - TopK;
    var tail := order[start..];
    var top := TopIndices(order);
    assert forall a :: 0 <= a < |top| ==> top[a] == order[|order| - 1 - a];
    forall i, a | 0 <= i < |scores| && i !in top && 0 <= a < |top|
      ensures scores[i] <= scores[top[a]]
    {
      assert i in order;
      var p :| 0 <= p < |order| && order[p] == i;
      if p >= start {
        TopHoldsTail(order, p);
        assert false;
      }
      assert top[a] == order[|order| - 1 - a];
    }
  }

  /**
   * The ranked strategy keeps at most eight chunk indices, all distinct,
   * each scoring above 0.1, in non-increasing score order; and any index
   * scoring above 0.1 that is left out scores no higher than every kept one.
   */
  lemma RankedSelectionSpec(order: seq<nat>, scores: seq<real>)
    requires IsArgsort(order, scores)
    ensures var kept := KeptIndices(scores, TopIndices(order));
      && |kept| <= TopK
      && (forall a :: 0 <= a < |kept| ==> kept[a] < |scores| && scores[kept[a]] > Threshold)
      && (forall a, b :: 0 <= a < b < |kept| ==> kept[a] != kept[b] && scores[kept[a]] >= scores[kept[b]])
      && (forall i :: 0 <= i < |scores| && scores[i] > Threshold && i !in kept ==>
            forall a :: 0 <= a < |kept| ==> scores[i] <= scores[kept[a]])
  {
    var top := TopIndices(order);
    TopIndicesSpec(order, scores);
    KeptIndicesSpec(scores, top);
    var kept := KeptIndices(scores, top);
    forall a | 0 <= a < |kept| ensures kept[a] < |scores| && scores[kept[a]] > Threshold {
      assert kept[a] in kept;
    }
    forall a, b | 0 <= a < b < |kept| ensures kept[a] != kept[b] && scores[kept[a]] >= scores[kept[b]] {
      var x, y :| 0 <= x < y < |top| && top[x] == kept[a] && top[y] == kept[b];
    }
    forall i, a | 0 <= i < |scores| && scores[i] > Threshold && i !in kept && 0 <= a < |kept|
      ensures scores[i] <= scores[kept[a]]
    {
      assert i !in top;
      assert kept[a] in kept;
      var x :| 0 <= x < |top| && top[x] == kept[a];
    }
  }

  /** When every index in `top` scores above the threshold, all of them are kept. */
  lemma {:induction false} KeptAllAbove(scores: seq<real>, top: seq<nat>)
    requires forall a :: 0 <= a < |top| ==> top[a] < |scores| && scores[top[a]] > Threshold
    ensures KeptIndices(scores, top) == top
    decreases |top|
  {
    if top != [] {
      KeptAllAbove(scores, top[..|top| - 1]);
    }
  }

  /** With fewer than eight kept, nothing scoring above 0.1 was dropped. */
  lemma FewKeptMeansAllRelevant(order: seq<nat>, scores: seq<real>, i: nat)
    requires IsArgsort(order, scores)
    requires |KeptIndices(scores, TopIndices(order))| < TopK
    requires i < |scores| && scores[i] > Threshold
    ensures i in KeptIndices(scores, TopIndices(order))
  {
    var top := TopIndices(order);
    TopIndicesSpec(order, scores);
    KeptIndicesSpec(scores, top);
    if i !in top {
      assert i in order;
      var p :| 0 <= p < |order| && order[p] == i;
      if |order| <= TopK {
        TopHoldsTail(order, p);
        assert false;
      } else {
        // Every top index scores at least as much as i, so all eight are kept.
        assert forall a :: 0 <= a < |top| ==> top[a] < |scores| && scores[top[a]] > Threshold;
        KeptAllAbove(scores, top);
      }
    }
  }

  /**
   * For a corpus of tagged chunks, the fallback sentence is returned exactly
   * when no chunk survives the ranked strategy.
   */
  lemma SentinelWhenNothingKept(query: string, chunks: seq<string>, scores: Option<seq<real>>, order: seq<nat>)
    requires scores.Some? ==> |scores.value| == |chunks| && IsArgsort(order, scores.value)
    requires chunks != [] && !Triggered(query)
    requires forall k :: 0 <= k < |chunks| ==> StartsWith(chunks[k], "[")
    ensures Context(query, chunks, true, scores, order) == Sentinel <==> Relevant(chunks, scores, order) == []
  {
    var relevant := Relevant(chunks, scores, order);
    if relevant != [] {
      var kept := KeptIndices(scores.value, TopIndices(order));
      assert relevant[0] == chunks[kept[0]];
      JoinStartsWithFirst(relevant, "\n---\n");
      assert Join(relevant, "\n---\n")[0] == '[';
    }
  }

  /** Every chunk the ranked strategy keeps is present in the returned text. */
  lemma RankedContextHoldsKept(query: string, chunks: seq<string>, scores: Option<seq<real>>, order: seq<nat>, a: nat)
    requires scores.Some? ==> |scores.value| == |chunks| && IsArgsort(order, scores.value)
    requires chunks != [] && !Triggered(query)
    requires a < |Relevant(chunks, scores, order)|
    ensures Contains(Context(query, chunks, true, scores, order), Relevant(chunks, scores, order)[a])
  {
    JoinContains(Relevant(chunks, scores, order), "\n---\n", a);
  }
}
