/** Stable partition of the words of an argument vector by tags. */
module Partition {

  ghost function Marks(n: nat, b: bool): (s: seq<bool>)
    ensures |s| == n && forall k :: 0 <= k < n ==> s[k] == b
  {
    if n == 0 then [] else Marks(n - 1, b) + [b]
  }

  ghost function Trues(n: nat): (s: seq<bool>)
    ensures |s| == n && forall k :: 0 <= k < n ==> s[k]
  {
    Marks(n, true)
  }

  /** The words with the given tag, in order. */
  ghost function Pick<T>(ws: seq<T>, tags: seq<bool>, tag: bool): seq<T>
    requires |ws| == |tags|
  {
    if ws == [] then [] else
      var n := |ws| - 1;
      Pick(ws[..n], tags[..n], tag) + if tags[n] == tag then [ws[n]] else []
  }

  /** Consumed words, then skipped words, then words never examined. */
  ghost function Arranged<T>(ws: seq<T>, tags: seq<bool>): seq<T>
    requires |tags| <= |ws|
  {
    Pick(ws[..|tags|], tags, true) + Pick(ws[..|tags|], tags, false) + ws[|tags|..]
  }

  /** Nothing is lost and nothing is duplicated. */
  lemma {:induction false} ArrangedIsPermutation<T>(ws: seq<T>, tags: seq<bool>)
    requires |tags| <= |ws|
    ensures multiset(Arranged(ws, tags)) == multiset(ws)
    ensures |Arranged(ws, tags)| == |ws|
    decreases |tags|
  {
    PickSplits(ws[..|tags|], tags);
    assert ws == ws[..|tags|] + ws[|tags|..];
  }

  /** Whether both selections together are the words ws. */
  ghost predicate Splits<T>(ws: seq<T>, tags: seq<bool>)
    requires |ws| == |tags|
  {
    && multiset(Pick(ws, tags, true)) + multiset(Pick(ws, tags, false)) == multiset(ws)
    && |Pick(ws, tags, true)| + |Pick(ws, tags, false)| == |ws|
  }

  lemma {:induction false} PickSplits<T>(ws: seq<T>, tags: seq<bool>)
    requires |ws| == |tags|
    ensures Splits(ws, tags)
  {
    if ws == [] {
    } else {
      var n := |ws| - 1;
      PickSplits(ws[..n], tags[..n]);
      SplitsMore(ws[..n], tags[..n], ws[n], tags[n]);
      assert ws == ws[..n] + [ws[n]] && tags == tags[..n] + [tags[n]];
    }
  }

  lemma SplitsMore<T>(ws: seq<T>, tags: seq<bool>, w: T, tag: bool)
    requires |ws| == |tags| && Splits(ws, tags)
    ensures Splits(ws + [w], tags + [tag])
  {
    PickSnoc(ws, tags, w, tag);
    var a, b := Pick(ws, tags, tag), Pick(ws, tags, !tag);
    assert multiset(a) + multiset(b) == multiset(ws);
    SplitsSnoc(a, b, ws, w);
  }

  lemma PickSnoc<T>(ws: seq<T>, tags: seq<bool>, w: T, tag: bool)
    requires |ws| == |tags|
    ensures Pick(ws + [w], tags + [tag], tag) == Pick(ws, tags, tag) + [w]
    ensures Pick(ws + [w], tags + [tag], !tag) == Pick(ws, tags, !tag)
  {
    assert (ws + [w])[..|ws|] == ws && (tags + [tag])[..|ws|] == tags;
  }

  lemma SplitsSnoc<T>(a: seq<T>, b: seq<T>, s: seq<T>, w: T)
    requires multiset(a) + multiset(b) == multiset(s)
    ensures multiset(a + [w]) + multiset(b) == multiset(s + [w])
  {
  }

  lemma {:induction false} PickAppend<T>(ws: seq<T>, tags: seq<bool>, more: seq<T>, b: bool, tag: bool)
    requires |ws| == |tags|
    ensures Pick(ws + more, tags + Marks(|more|, b), tag) == Pick(ws, tags, tag) + if b == tag then more else []
  {
    if more == [] {
      assert ws + more == ws && tags + Marks(0, b) == tags;
    } else {
      var n := |more| - 1;
      PickAppend(ws, tags, more[..n], b, tag);
      PickSnoc(ws + more[..n], tags + Marks(n, b), more[n], b);
      assert ws + more == (ws + more[..n]) + [more[n]];
      assert tags + Marks(|more|, b) == (tags + Marks(n, b)) + [b];
    }
  }

  lemma PickTrues<T>(ws: seq<T>)
    ensures Pick(ws, Trues(|ws|), true) == ws && Pick(ws, Trues(|ws|), false) == []
  {
    PickAppend([], [], ws, true, true);
    PickAppend([], [], ws, true, false);
    assert [] + ws == ws && [] + Trues(|ws|) == Trues(|ws|);
  }

  /** Words examined so far (those that have a tag) and where they lie: consumed words, with the
      skipped words in one block at nonoptStart; nonoptEnd is -1 while the block is at the end. */
  ghost predicate LaidOut<T>(orig: seq<T>, tags: seq<bool>, nonoptStart: int, nonoptEnd: int, now: seq<T>) {
    && |tags| <= |orig| == |now|
    && now[|tags|..] == orig[|tags|..]
    && var consumed := Pick(orig[..|tags|], tags, true);
    && var skipped := Pick(orig[..|tags|], tags, false);
    && (nonoptStart == -1 ==> nonoptEnd == -1 && skipped == [] && now[..|tags|] == consumed)
    && (nonoptStart != -1 ==>
          && 0 <= nonoptStart <= |consumed| && skipped != []
          && now[..|tags|] == consumed[..nonoptStart] + skipped + consumed[nonoptStart..]
          && (nonoptEnd == -1 ==> nonoptStart == |consumed|)
          && (nonoptEnd != -1 ==> nonoptEnd == nonoptStart + |skipped|))
  }

  lemma PickMore<T>(orig: seq<T>, tags: seq<bool>, k: nat, tag: bool, t: bool)
    requires |tags| + k <= |orig|
    ensures var n := |tags|;
            Pick(orig[..n + k], tags + Marks(k, tag), t) ==
            Pick(orig[..n], tags, t) + if t == tag then orig[n..n + k] else []
  {
    var n := |tags|;
    assert orig[..n + k] == orig[..n] + orig[n..n + k];
    PickAppend(orig[..n], tags, orig[n..n + k], tag, t);
  }

  lemma SkipOne<T>(orig: seq<T>, tags: seq<bool>, now: seq<T>)
    requires |tags| < |orig| && now == Arranged(orig, tags)
    ensures LaidOut(orig, tags + [false], |Pick(orig[..|tags|], tags, true)|, -1, now)
  {
    var n := |tags|;
    var consumed, skipped := Pick(orig[..n], tags, true), Pick(orig[..n], tags, false);
    assert Pick(orig[..n + 1], tags + [false], true) == consumed
        && Pick(orig[..n + 1], tags + [false], false) == skipped + [orig[n]] by {
      PickSnoc(orig[..n], tags, orig[n], false);
      assert orig[..n + 1] == orig[..n] + [orig[n]];
    }
    assert |consumed| + |skipped| == n by {
      PickSplits(orig[..n], tags);
    }
    SkipOneWords(consumed, skipped, orig, n, now);
  }

  lemma SkipOneWords<T>(consumed: seq<T>, skipped: seq<T>, orig: seq<T>, n: nat, now: seq<T>)
    requires n < |orig| && |consumed| + |skipped| == n && now == consumed + skipped + orig[n..]
    ensures now[n + 1..] == orig[n + 1..] && |now| == |orig|
    ensures now[..n + 1] == consumed[..|consumed|] + (skipped + [orig[n]]) + consumed[|consumed|..]
  {
  }

  lemma ConsumeMore<T>(orig: seq<T>, tags: seq<bool>, k: nat, nonoptStart: int, nonoptEnd: int, now: seq<T>)
    requires |tags| + k <= |orig|
    requires LaidOut(orig, tags, nonoptStart, nonoptEnd, now) && (nonoptStart != -1 ==> nonoptEnd != -1)
    ensures LaidOut(orig, tags + Trues(k), nonoptStart, nonoptEnd, now)
  {
    var n := |tags|;
    var consumed, skipped, more := Pick(orig[..n], tags, true), Pick(orig[..n], tags, false), orig[n..n + k];
    assert Pick(orig[..n + k], tags + Trues(k), true) == consumed + more
        && Pick(orig[..n + k], tags + Trues(k), false) == skipped by {
      PickMore(orig, tags, k, true, true);
      PickMore(orig, tags, k, true, false);
      assert Marks(k, true) == Trues(k);
    }
    ConsumeWords(orig, n, k, now);
    if nonoptStart != -1 {
      InsertedAt(consumed, skipped, more, nonoptStart);
    }
  }

  lemma ConsumeWords<T>(orig: seq<T>, n: nat, k: nat, now: seq<T>)
    requires n + k <= |orig| == |now| && now[n..] == orig[n..]
    ensures now[..n + k] == now[..n] + orig[n..n + k] && now[n + k..] == orig[n + k..]
  {
    assert now[n..][..k] == orig[n..][..k] && now[n..][k..] == orig[n..][k..];
  }

  lemma InsertedAt<T>(consumed: seq<T>, skipped: seq<T>, more: seq<T>, at: nat)
    requires at <= |consumed|
    ensures consumed[..at] + skipped + consumed[at..] + more ==
            (consumed + more)[..at] + skipped + (consumed + more)[at..]
  {
  }

  ghost function Repeat<T>(w: T, n: nat): (s: seq<T>)
    ensures |s| == n
  {
    seq(n, k => w)
  }

  lemma RepeatFirst<T>(w: T, n: nat, more: seq<T>)
    requires n > 0
    ensures Repeat(w, n) + more == [w] + (Repeat(w, n - 1) + more)
  {
  }

  lemma ArrangedByTrues<T>(ws: seq<T>, tags: seq<bool>)
    requires |tags| <= |ws| && forall k :: 0 <= k < |tags| ==> tags[k]
    ensures Arranged(ws, tags) == ws
  {
    assert tags == Trues(|tags|);
    PickTrues(ws[..|tags|]);
  }
}
