/**
 * The "random generator" that deals the pieces: a bag of eight slots whose
 * first seven hold the seven kinds in a random order and whose last slot is
 * one more random kind, dealt first from the next bag.  The random number
 * source is replaced by a sequence of draws, each a kind in 0 .. 6; Fill is
 * the reference definition of how a bag is filled from them.
 */
module RandomBag {
  import opened Tetraminos

  /** No value occurs twice. */
  predicate Distinct(s: seq<int>)
  {
    forall i, j :: 0 <= i < j < |s| ==> s[i] != s[j]
  }

  /** Every entry is a kind. */
  predicate AllKinds(s: seq<int>)
  {
    forall i :: 0 <= i < |s| ==> IsKind(s[i])
  }

  /** The seven kinds, each exactly once, in some order. */
  predicate IsDeal(s: seq<int>)
  {
    |s| == Kinds && Distinct(s) && AllKinds(s) && forall k :: 0 <= k < Kinds ==> k in s
  }

  /** A full bag: a deal of the seven kinds followed by one more kind. */
  predicate IsBag(s: seq<int>)
  {
    |s| == Kinds + 1 && IsDeal(s[..Kinds]) && IsKind(s[Kinds])
  }

  /**
   * The draws suffice to complete a bag started with acc: there is at least
   * one draw, every draw is a kind, and every kind acc lacks is drawn before
   * the last draw, which is left for the eighth slot.
   */
  predicate Completes(acc: seq<int>, draws: seq<int>)
  {
    |draws| >= 1 && AllKinds(draws) &&
    forall k :: 0 <= k < Kinds && k !in acc ==> k in draws[..|draws| - 1]
  }

  /** How a bag was filled: its eight slots and the number of draws consumed. */
  datatype Refill = Refill(bag: seq<int>, used: nat)

  /**
   * Filling a bag that already holds acc: while it holds fewer than seven
   * kinds, a draw not yet in it is appended and a repeated draw is dropped;
   * then one more draw goes into the eighth slot.  Returns the eight slots
   * and the number of draws consumed; FillMakesBag states what they hold.
   */
  function Fill(acc: seq<int>, draws: seq<int>): (r: Refill)
    requires Distinct(acc) && AllKinds(acc) && Completes(acc, draws)
    ensures |r.bag| == Kinds + 1 && 1 <= r.used <= |draws|
    decreases |draws|
  {
    Pigeonhole(acc);
    if |acc| == Kinds then
      Refill(acc + [draws[0]], 1)
    else
      CompletesStep(acc, draws);
      var next := if draws[0] in acc then acc else acc + [draws[0]];
      var r := Fill(next, draws[1..]);
      Refill(r.bag, r.used + 1)
  }

  /**
   * Filling gives a full bag (its first seven slots hold each kind once)
   * that starts with acc, whose other slots among the first seven hold draws
   * taken before the last one, and whose eighth slot is the last draw
   * consumed.
   */
  lemma {:induction false} FillMakesBag(acc: seq<int>, draws: seq<int>)
    requires Distinct(acc) && AllKinds(acc) && Completes(acc, draws)
    ensures var r := Fill(acc, draws);
      IsBag(r.bag) && acc <= r.bag &&
      (forall i :: |acc| <= i < Kinds ==> r.bag[i] in draws[..r.used - 1]) &&
      r.bag[Kinds] == draws[r.used - 1]
    decreases |draws|
  {
    Pigeonhole(acc);
    if |acc| == Kinds {
      FullBag(acc, draws[0]);
    } else {
      CompletesStep(acc, draws);
      var next := if draws[0] in acc then acc else acc + [draws[0]];
      FillMakesBag(next, draws[1..]);
      FillStep(acc, draws, Fill(next, draws[1..]));
    }
  }

  /** While the bag holds fewer than seven kinds, filling takes one draw and goes on. */
  lemma FillUnfold(acc: seq<int>, draws: seq<int>)
    requires Distinct(acc) && AllKinds(acc) && |acc| < Kinds && Completes(acc, draws)
    ensures |draws| >= 2
    ensures var next := if draws[0] in acc then acc else acc + [draws[0]];
      Distinct(next) && AllKinds(next) && Completes(next, draws[1..]) &&
      Fill(acc, draws) == Refill(Fill(next, draws[1..]).bag, Fill(next, draws[1..]).used + 1)
  {
    CompletesStep(acc, draws);
  }

  /** Seven distinct kinds and one more make a full bag. */
  lemma FullBag(acc: seq<int>, x: int)
    requires Distinct(acc) && AllKinds(acc) && |acc| == Kinds && IsKind(x)
    ensures IsBag(acc + [x])
  {
    Pigeonhole(acc);
    assert (acc + [x])[..Kinds] == acc;
  }

  /**
   * The bag filled after the first draw has been taken is the bag filled
   * before it, one draw later: a slot after acc holds either that first draw
   * or a later one.
   */
  lemma FillStep(acc: seq<int>, draws: seq<int>, r: Refill)
    requires |acc| < Kinds && |draws| >= 2
    requires var next := if draws[0] in acc then acc else acc + [draws[0]];
      next <= r.bag && 1 <= r.used <= |draws| - 1 && |r.bag| == Kinds + 1 &&
      (forall i :: |next| <= i < Kinds ==> r.bag[i] in draws[1..][..r.used - 1]) &&
      r.bag[Kinds] == draws[1..][r.used - 1]
    ensures acc <= r.bag
    ensures forall i :: |acc| <= i < Kinds ==> r.bag[i] in draws[..r.used]
    ensures r.bag[Kinds] == draws[r.used]
  {
    var next := if draws[0] in acc then acc else acc + [draws[0]];
    assert draws[1..][..r.used - 1] == draws[1..r.used];
    forall i | |acc| <= i < Kinds
      ensures r.bag[i] in draws[..r.used]
    {
      if i < |next| {
        assert r.bag[i] == next[i] == draws[0];
      } else {
        assert draws[..r.used] == [draws[0]] + draws[1..r.used];
      }
    }
  }

  /** The bag after a piece is dealt, the slot of the new piece and the draws consumed. */
  datatype Deal = Deal(bag: seq<int>, index: int, used: nat)

  /**
   * Dealing the piece after the one in slot index: the next slot of the same
   * bag, or, after the seventh, slot 0 of a bag refilled from the draws that
   * starts with the old eighth slot.  Either way the new piece is the one the
   * old bag held in slot index + 1, the piece shown as next.
   */
  function NextDeal(bag: seq<int>, index: int, draws: seq<int>): (d: Deal)
    requires IsBag(bag) && 0 <= index < Kinds
    requires index == Kinds - 1 ==> Completes([bag[Kinds]], draws)
    ensures IsBag(d.bag) && d.index == (index + 1) % Kinds
    ensures d.bag[d.index] == bag[index + 1]
    ensures index < Kinds - 1 ==> d.bag == bag && d.used == 0
    ensures index == Kinds - 1 ==> 1 <= d.used <= |draws|
  {
    if index < Kinds - 1 then
      Deal(bag, index + 1, 0)
    else
      FillMakesBag([bag[Kinds]], draws);
      var r := Fill([bag[Kinds]], draws);
      Deal(r.bag, 0, r.used)
  }

  /**
   * The eighth slot is drawn without looking at the deal, so it may repeat
   * the seventh piece; as the first piece of the next bag (NextDeal) it is
   * then dealt right after a piece of the same kind.
   */
  lemma LookaheadMayRepeat()
    ensures InOrder(0, 6)
    ensures var r := Fill([], Range(0, Kinds) + [6]);
      r.bag == Range(0, Kinds) + [6] && r.used == Kinds + 1 && r.bag[Kinds] == r.bag[Kinds - 1]
  {
    FillInOrder(0, 6);
  }

  /** The integers from a up to but excluding b, in order. */
  function Range(a: int, b: int): (s: seq<int>)
    requires a <= b
    ensures |s| == b - a
  {
    seq(b - a, i => a + i)
  }

  /**
   * Drawing the kinds a bag still lacks in order, then x, fills the bag with
   * the kinds in order and x in the eighth slot.
   */
  lemma {:induction false} FillInOrder(n: int, x: int)
    requires 0 <= n <= Kinds && IsKind(x)
    ensures InOrder(n, x)
    ensures Fill(Range(0, n), Range(n, Kinds) + [x]) == Refill(Range(0, Kinds) + [x], Kinds + 1 - n)
    decreases Kinds - n
  {
    InOrderHolds(n, x);
    if n < Kinds {
      InOrderHolds(n + 1, x);
      InOrderStep(n, x);
      FillInOrder(n + 1, x);
    } else {
      Pigeonhole(Range(0, n));
    }
  }

  /** The kinds below n, in order, can be completed by the others in order and then x. */
  predicate InOrder(n: int, x: int)
    requires 0 <= n <= Kinds
  {
    Distinct(Range(0, n)) && AllKinds(Range(0, n)) && Completes(Range(0, n), Range(n, Kinds) + [x])
  }

  lemma InOrderHolds(n: int, x: int)
    requires 0 <= n <= Kinds && IsKind(x)
    ensures InOrder(n, x)
  {
    var acc, draws := Range(0, n), Range(n, Kinds) + [x];
    forall k | 0 <= k < n
      ensures k in acc
    {
      assert acc[k] == k;
    }
    var pre := draws[..|draws| - 1];
    forall k | n <= k < Kinds
      ensures k in pre
    {
      assert pre[k - n] == k;
    }
  }

  /** Filling from the kinds below n takes draw n and goes on from the kinds below n + 1. */
  lemma InOrderStep(n: int, x: int)
    requires 0 <= n < Kinds && IsKind(x) && InOrder(n, x) && InOrder(n + 1, x)
    ensures Fill(Range(0, n), Range(n, Kinds) + [x]) ==
      Refill(Fill(Range(0, n + 1), Range(n + 1, Kinds) + [x]).bag, Fill(Range(0, n + 1), Range(n + 1, Kinds) + [x]).used + 1)
  {
    var acc, draws := Range(0, n), Range(n, Kinds) + [x];
    assert draws[0] !in acc;
    var next, rest := acc + [draws[0]], draws[1..];
    assert next == Range(0, n + 1);
    assert rest == Range(n + 1, Kinds) + [x];
    FillUnfold(acc, draws);
    assert Fill(acc, draws) == Refill(Fill(next, rest).bag, Fill(next, rest).used + 1);
  }

  /** The kinds in order. */
  const KindList: seq<int> := [0, 1, 2, 3, 4, 5, 6]

  /**
   * Seven pigeonholes: distinct kinds number at most seven, and exactly seven
   * of them are all the kinds.
   */
  lemma Pigeonhole(s: seq<int>)
    requires Distinct(s) && AllKinds(s)
    ensures |s| <= Kinds
    ensures |s| == Kinds <==> forall k :: 0 <= k < Kinds ==> k in s
  {
    assert forall i :: 0 <= i < |s| ==> KindList[s[i]] == s[i];
    CoverBound(s, KindList);
    if forall k :: 0 <= k < Kinds ==> k in s {
      assert forall i :: 0 <= i < Kinds ==> KindList[i] in s;
      CoverBound(KindList, s);
    }
    if |s| == Kinds {
      forall k | 0 <= k < Kinds
        ensures k in s
      {
        if k !in s {
          var others := KindList[..k] + KindList[k + 1..];
          forall i | 0 <= i < |s|
            ensures s[i] in others
          {
            if s[i] < k {
              assert others[s[i]] == s[i];
            } else {
              assert others[s[i] - 1] == s[i];
            }
          }
          CoverBound(s, others);
        }
      }
    }
  }

  /** A sequence holding each entry of a sequence without repeats is at least as long. */
  lemma {:induction false} CoverBound(c: seq<int>, s: seq<int>)
    requires Distinct(c) && forall i :: 0 <= i < |c| ==> c[i] in s
    ensures |c| <= |s|
  {
    if |c| > 0 {
      var v := c[|c| - 1];
      var i :| 0 <= i < |s| && s[i] == v;
      var rest := s[..i] + s[i + 1..];
      forall a | 0 <= a < |c| - 1
        ensures c[a] in rest
      {
        var b :| 0 <= b < |s| && s[b] == c[a];
        assert b != i;
        assert rest[if b < i then b else b - 1] == c[a];
      }
      assert Distinct(c[..|c| - 1]);
      CoverBound(c[..|c| - 1], rest);
    }
  }

  /** A bag with fewer than seven kinds lacks one of them. */
  lemma MissingKind(s: seq<int>)
    requires Distinct(s) && AllKinds(s) && |s| < Kinds
    ensures exists k :: IsKind(k) && k !in s
  {
    Pigeonhole(s);
  }

  /**
   * One step of filling keeps the draws sufficient for what is left: a kind
   * the extended bag lacks was not the draw just taken, so it comes later.
   */
  lemma CompletesStep(acc: seq<int>, draws: seq<int>)
    requires Distinct(acc) && AllKinds(acc) && |acc| < Kinds && Completes(acc, draws)
    ensures |draws| >= 2
    ensures var next := if draws[0] in acc then acc else acc + [draws[0]];
      Distinct(next) && AllKinds(next) && Completes(next, draws[1..])
  {
    MissingKind(acc);
    var k :| IsKind(k) && k !in acc;
    assert k in draws[..|draws| - 1];
    var x := draws[0];
    var next := if x in acc then acc else acc + [x];
    var rest := draws[1..];
    forall m | IsKind(m) && m !in next
      ensures m in rest[..|rest| - 1]
    {
      assert m in draws[..|draws| - 1];
      var i :| 0 <= i < |draws| - 1 && draws[i] == m;
      assert i != 0;
      assert rest[..|rest| - 1][i - 1] == m;
    }
  }

}
