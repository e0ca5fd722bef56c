/** The vertex-selection closures of the four presets, as an explicit state machine.
    Each call of a closure draws candidates until its policy accepts one; the random
    draws are an input sequence of indices into the candidate list, so every rule is
    deterministic. A stream that runs out before a draw is accepted yields `None`. */
module Selection {
  import opened Geometry
  import opened Wrappers

  /** The state a preset's closure carries between calls: its candidate list and,
      for every preset but the Sierpinski triangle, the previous vertex. */
  datatype Selector =
    | SierpinskiRule(candidates: seq<Point>)
    | SquareOneRule(candidates: seq<Point>, prev: Point)
    | SquareTwoRule(candidates: seq<Point>, prev: Point)
    | VicsekRule(candidates: seq<Point>, prev: Point)

  /** Every draw is an index of the candidate list, as a random choice from it is. */
  predicate ValidDraws(draws: seq<nat>, n: nat) {
    forall i :: 0 <= i < |draws| ==> draws[i] < n
  }

  /** The policy test of one candidate, given the state of the closure. */
  predicate Accepts(sel: Selector, v: Point) {
    match sel
    case SierpinskiRule(_) => true
    case SquareOneRule(_, prev) => v.x != prev.x || v.y != prev.y
    case SquareTwoRule(_, prev) => v.x == prev.x || v.y == prev.y
    case VicsekRule(_, _) => true
  }

  /** The state after `v` was accepted: the two square rules remember it as the
      previous vertex; the Vicsek rule never updates its previous vertex. */
  function Advance(sel: Selector, v: Point): (next: Selector)
    ensures next.candidates == sel.candidates
  {
    match sel
    case SquareOneRule(cs, _) => SquareOneRule(cs, v)
    case SquareTwoRule(cs, _) => SquareTwoRule(cs, v)
    case _ => sel
  }

  /** What accepting `v` changes: the square rules now hold `v` as their previous
      vertex, and the Sierpinski and Vicsek rules stay as they were. */
  lemma AdvanceRemembers(sel: Selector, v: Point)
    ensures sel.SquareOneRule? ==> Advance(sel, v) == SquareOneRule(sel.candidates, v)
    ensures sel.SquareTwoRule? ==> Advance(sel, v) == SquareTwoRule(sel.candidates, v)
    ensures sel.SierpinskiRule? || sel.VicsekRule? ==> Advance(sel, v) == sel
  {
  }

  /** The outcome of one call: the returned vertex, the new state, and the position
      of the accepted draw in the stream. */
  datatype Choice = Choice(vertex: Point, next: Selector, at: nat)

  /** One call of a closure, reading the stream from position `from`: draw until the
      policy accepts. The returned vertex is a candidate the policy accepts, and the
      state moves on with it; `None` when the stream runs out first. */
  function Select(sel: Selector, draws: seq<nat>, from: nat): (r: Option<Choice>)
    requires ValidDraws(draws, |sel.candidates|)
    ensures r.Some? ==>
      && from <= r.value.at < |draws|
      && r.value.vertex == sel.candidates[draws[r.value.at]]
      && r.value.vertex in sel.candidates
      && Accepts(sel, r.value.vertex)
      && r.value.next == Advance(sel, r.value.vertex)
    decreases |draws| - from
  {
    if from >= |draws| then
      None
    else
      var v := sel.candidates[draws[from]];
      if Accepts(sel, v) then Some(Choice(v, Advance(sel, v), from)) else Select(sel, draws, from + 1)
  }

  /** True when the policy rejects every draw from position `lo` up to `hi`. */
  predicate AllRejected(sel: Selector, draws: seq<nat>, lo: nat, hi: nat)
    requires ValidDraws(draws, |sel.candidates|)
    requires hi <= |draws|
  {
    forall i :: lo <= i < hi ==> !Accepts(sel, sel.candidates[draws[i]])
  }

  /** A call returns the first acceptable draw of the stream: every draw before it was
      rejected; and it fails exactly when every remaining draw is rejected. */
  lemma {:induction false} SelectIsFirstAcceptable(sel: Selector, draws: seq<nat>, from: nat)
    requires ValidDraws(draws, |sel.candidates|)
    ensures Select(sel, draws, from).None? <==> from >= |draws| || AllRejected(sel, draws, from, |draws|)
    ensures Select(sel, draws, from).Some? ==> AllRejected(sel, draws, from, Select(sel, draws, from).value.at)
    decreases |draws| - from
  {
    if from < |draws| && !Accepts(sel, sel.candidates[draws[from]]) {
      SelectIsFirstAcceptable(sel, draws, from + 1);
    }
  }

  /** The square-one rule returns the first drawn candidate that differs from the
      previous vertex in x or y, and remembers it; it fails only when every draw left
      repeats the previous vertex. */
  lemma SquareOneSelect(cs: seq<Point>, prev: Point, draws: seq<nat>, from: nat)
    requires ValidDraws(draws, |cs|)
    ensures match Select(SquareOneRule(cs, prev), draws, from)
      case Some(c) =>
        && c.vertex in cs
        && c.vertex != prev
        && c.next == SquareOneRule(cs, c.vertex)
        && forall i :: from <= i < c.at ==> cs[draws[i]] == prev
      case None =>
        forall i :: from <= i < |draws| ==> cs[draws[i]] == prev
  {
    SelectIsFirstAcceptable(SquareOneRule(cs, prev), draws, from);
  }

  /** The square-two rule returns the first drawn candidate sharing x or y with the
      previous vertex, and remembers it; it fails only when no draw left shares a
      coordinate. */
  lemma SquareTwoSelect(cs: seq<Point>, prev: Point, draws: seq<nat>, from: nat)
    requires ValidDraws(draws, |cs|)
    ensures match Select(SquareTwoRule(cs, prev), draws, from)
      case Some(c) =>
        && c.vertex in cs
        && SharesCoordinate(c.vertex, prev)
        && c.next == SquareTwoRule(cs, c.vertex)
        && forall i :: from <= i < c.at ==> !SharesCoordinate(cs[draws[i]], prev)
      case None =>
        forall i :: from <= i < |draws| ==> !SharesCoordinate(cs[draws[i]], prev)
  {
    SelectIsFirstAcceptable(SquareTwoRule(cs, prev), draws, from);
  }

  /** Re-choosing the previous vertex is allowed by the square-two rule: a draw
      equal to it is returned at once. */
  lemma SquareTwoAllowsRepeat(cs: seq<Point>, prev: Point, draws: seq<nat>, from: nat)
    requires ValidDraws(draws, |cs|)
    requires from < |draws| && cs[draws[from]] == prev
    ensures Select(SquareTwoRule(cs, prev), draws, from) == Some(Choice(prev, SquareTwoRule(cs, prev), from))
  {
  }

  /** The Sierpinski and Vicsek rules return the next draw unconditionally and keep
      their state unchanged: the Vicsek previous vertex is never read or updated. */
  lemma FirstDrawRules(sel: Selector, draws: seq<nat>, from: nat)
    requires sel.SierpinskiRule? || sel.VicsekRule?
    requires ValidDraws(draws, |sel.candidates|)
    ensures from >= |draws| ==> Select(sel, draws, from).None?
    ensures from < |draws| ==> Select(sel, draws, from) == Some(Choice(sel.candidates[draws[from]], sel, from))
  {
  }

  /** The Vicsek rule's choice does not depend on its previous vertex. */
  lemma VicsekIgnoresPrevious(cs: seq<Point>, p: Point, q: Point, draws: seq<nat>, from: nat)
    requires ValidDraws(draws, |cs|)
    ensures match Select(VicsekRule(cs, p), draws, from)
      case Some(c) => Select(VicsekRule(cs, q), draws, from) == Some(Choice(c.vertex, VicsekRule(cs, q), c.at))
      case None => Select(VicsekRule(cs, q), draws, from).None?
  {
  }

  /** True when each of `refs` is accepted by the state the closure is in after
      returning the ones before it. */
  predicate AcceptedRun(sel: Selector, refs: seq<Point>)
    decreases |refs|
  {
    |refs| == 0 || (Accepts(sel, refs[0]) && AcceptedRun(Advance(sel, refs[0]), refs[1..]))
  }

  /** The state after the closure returned each of `refs` in turn. */
  function AdvanceAll(sel: Selector, refs: seq<Point>): (last: Selector)
    ensures last.candidates == sel.candidates
    decreases |refs|
  {
    if |refs| == 0 then sel else AdvanceAll(Advance(sel, refs[0]), refs[1..])
  }

  /** The outcome of several calls: the returned vertices in order, the final state,
      and the stream position after the last accepted draw. */
  datatype Batch = Batch(refs: seq<Point>, last: Selector, next: nat)

  /** True when `r` is a batch that returned `refs`, ended in state `last` and
      stopped at stream position `next`. */
  predicate IsBatch(r: Option<Batch>, refs: seq<Point>, last: Selector, next: nat) {
    r.Some? && r.value.refs == refs && r.value.last == last && r.value.next == next
  }

  /** `n` consecutive calls of a closure, each one reading the stream of draws where
      the previous one stopped, the first at position `from`. */
  function SelectMany(sel: Selector, draws: seq<nat>, from: nat, n: nat): (r: Option<Batch>)
    requires ValidDraws(draws, |sel.candidates|)
    ensures r.Some? ==> |r.value.refs| == n && from + n <= r.value.next
    ensures r.Some? ==> r.value.last.candidates == sel.candidates
    ensures r.Some? && n > 0 ==> r.value.next <= |draws|
    decreases n
  {
    if n == 0 then
      Some(Batch([], sel, from))
    else
      match Select(sel, draws, from)
      case None => None
      case Some(c) =>
        match SelectMany(c.next, draws, c.at + 1, n - 1)
        case None => None
        case Some(b) => Some(Batch([c.vertex] + b.refs, b.last, b.next))
  }

  /** A batch of `n` calls is the first call followed by a batch of `n - 1`. */
  lemma SelectManyCons(sel: Selector, draws: seq<nat>, from: nat, n: nat)
    requires ValidDraws(draws, |sel.candidates|)
    requires n > 0
    ensures Select(sel, draws, from).None? ==> SelectMany(sel, draws, from, n).None?
    ensures Select(sel, draws, from).Some? ==>
      var c := Select(sel, draws, from).value;
      var tail := SelectMany(c.next, draws, c.at + 1, n - 1);
      && (SelectMany(sel, draws, from, n).Some? <==> tail.Some?)
      && (tail.Some? ==> IsBatch(SelectMany(sel, draws, from, n), [c.vertex] + tail.value.refs, tail.value.last, tail.value.next))
  {
  }

  /** A successful batch of `n` calls starts with a successful call `c`, followed by
      a successful batch `tail` of `n - 1` from where `c` left off. */
  lemma SelectManyHead(sel: Selector, draws: seq<nat>, from: nat, n: nat) returns (c: Choice, tail: Batch)
    requires ValidDraws(draws, |sel.candidates|)
    requires n > 0 && SelectMany(sel, draws, from, n).Some?
    ensures Select(sel, draws, from) == Some(c)
    ensures SelectMany(c.next, draws, c.at + 1, n - 1) == Some(tail)
    ensures SelectMany(sel, draws, from, n).value.refs == [c.vertex] + tail.refs
    ensures SelectMany(sel, draws, from, n).value.last == tail.last
  {
    SelectManyCons(sel, draws, from, n);
    c := Select(sel, draws, from).value;
    tail := SelectMany(c.next, draws, c.at + 1, n - 1).value;
  }

  /** `k + m` calls are `k` calls followed by `m` more, from the state and stream
      position the first `k` left behind; the whole fails when the first `k` do. */
  lemma {:induction false} SelectManySplit(sel: Selector, draws: seq<nat>, from: nat, k: nat, m: nat)
    requires ValidDraws(draws, |sel.candidates|)
    ensures SplitHolds(sel, draws, from, k, m)
    decreases k
  {
    if k == 0 {
      var rest := SelectMany(sel, draws, from, m);
      if rest.Some? {
        assert [] + rest.value.refs == rest.value.refs;
      }
    } else {
      var choice := Select(sel, draws, from);
      if choice.None? {
        SelectManyCons(sel, draws, from, k);
      } else {
        var c := choice.value;
        SelectManySplit(c.next, draws, c.at + 1, k - 1, m);
        SplitStep(sel, draws, from, k, m, c);
      }
    }
  }

  /** The property `SelectManySplit` proves. */
  predicate SplitHolds(sel: Selector, draws: seq<nat>, from: nat, k: nat, m: nat)
    requires ValidDraws(draws, |sel.candidates|)
  {
    var head := SelectMany(sel, draws, from, k);
    var whole := SelectMany(sel, draws, from, k + m);
    if head.None? then whole.None?
    else
      var rest := SelectMany(head.value.last, draws, head.value.next, m);
      && (whole.Some? <==> rest.Some?)
      && (rest.Some? ==> IsBatch(whole, head.value.refs + rest.value.refs, rest.value.last, rest.value.next))
  }

  /** The inductive step of `SelectManySplit`: the first call succeeded with `c`. */
  lemma SplitStep(sel: Selector, draws: seq<nat>, from: nat, k: nat, m: nat, c: Choice)
    requires ValidDraws(draws, |sel.candidates|)
    requires k > 0
    requires Select(sel, draws, from).Some? && Select(sel, draws, from).value == c
    requires SplitHolds(c.next, draws, c.at + 1, k - 1, m)
    ensures SplitHolds(sel, draws, from, k, m)
  {
    SelectManyCons(sel, draws, from, k);
    SelectManyCons(sel, draws, from, k + m);
    assert k + m - 1 == k - 1 + m;
    var head := SelectMany(c.next, draws, c.at + 1, k - 1);
    if head.Some? {
      var b := head.value;
      var rest := SelectMany(b.last, draws, b.next, m);
      if rest.Some? {
        assert [c.vertex] + (b.refs + rest.value.refs) == ([c.vertex] + b.refs) + rest.value.refs;
      }
    }
  }

  /** One more call after `k` successful ones extends the batch by its vertex. */
  lemma SelectManyExtend(sel: Selector, draws: seq<nat>, from: nat, k: nat,
                         taken: seq<Point>, state: Selector, pos: nat, c: Choice)
    requires ValidDraws(draws, |sel.candidates|)
    requires IsBatch(SelectMany(sel, draws, from, k), taken, state, pos)
    requires Select(state, draws, pos).Some? && Select(state, draws, pos).value == c
    ensures IsBatch(SelectMany(sel, draws, from, k + 1), taken + [c.vertex], c.next, c.at + 1)
  {
    SelectManySplit(sel, draws, from, k, 1);
    SelectManyCons(state, draws, pos, 1);
    assert [c.vertex] + [] == [c.vertex];
  }

  /** A call that finds no acceptable draw after `k` successful ones makes every
      longer batch fail. */
  lemma SelectManyStall(sel: Selector, draws: seq<nat>, from: nat, k: nat, n: nat,
                        taken: seq<Point>, state: Selector, pos: nat)
    requires ValidDraws(draws, |sel.candidates|)
    requires IsBatch(SelectMany(sel, draws, from, k), taken, state, pos)
    requires Select(state, draws, pos).None?
    requires k < n
    ensures SelectMany(sel, draws, from, n).None?
  {
    SelectManySplit(sel, draws, from, k, n - k);
    SelectManyCons(state, draws, pos, n - k);
  }

  /** Every vertex a batch of calls returns is one of the candidates. */
  lemma {:induction false} SelectManyCandidates(sel: Selector, draws: seq<nat>, from: nat, n: nat)
    requires ValidDraws(draws, |sel.candidates|)
    ensures SelectMany(sel, draws, from, n).Some? ==>
      forall k :: 0 <= k < n ==> SelectMany(sel, draws, from, n).value.refs[k] in sel.candidates
    decreases n
  {
    if n > 0 {
      SelectManyCons(sel, draws, from, n);
      var choice := Select(sel, draws, from);
      if choice.Some? {
        var c := choice.value;
        SelectManyCandidates(c.next, draws, c.at + 1, n - 1);
        var tail := SelectMany(c.next, draws, c.at + 1, n - 1);
        if tail.Some? {
          var refs := [c.vertex] + tail.value.refs;
          assert forall k :: 0 < k < n ==> refs[k] == tail.value.refs[k - 1];
        }
      }
    }
  }

  /** Returning `v` and then `rest` is accepted exactly when `v` is, and `rest` is
      from the state `v` leads to; the final state is the one `rest` reaches from
      there. */
  lemma AcceptedCons(sel: Selector, v: Point, rest: seq<Point>)
    ensures AcceptedRun(sel, [v] + rest) <==> Accepts(sel, v) && AcceptedRun(Advance(sel, v), rest)
    ensures AdvanceAll(sel, [v] + rest) == AdvanceAll(Advance(sel, v), rest)
  {
    assert ([v] + rest)[0] == v && ([v] + rest)[1..] == rest;
  }

  /** Every vertex of a batch is accepted by the state the closure was in at that
      call, and the batch's final state is the one reached by them. */
  lemma {:induction false} SelectManyAccepted(sel: Selector, draws: seq<nat>, from: nat, n: nat)
    requires ValidDraws(draws, |sel.candidates|)
    ensures SelectMany(sel, draws, from, n).Some? ==>
      && AcceptedRun(sel, SelectMany(sel, draws, from, n).value.refs)
      && SelectMany(sel, draws, from, n).value.last == AdvanceAll(sel, SelectMany(sel, draws, from, n).value.refs)
    decreases n
  {
    if n > 0 && SelectMany(sel, draws, from, n).Some? {
      var c, tail := SelectManyHead(sel, draws, from, n);
      SelectManyAccepted(c.next, draws, c.at + 1, n - 1);
      AcceptedCons(sel, c.vertex, tail.refs);
    }
  }

  /** True when `refs` are the candidates of the draws from position `from` on, one
      per draw, and `next` is the position right after the last of them. */
  predicate TakesDrawsInOrder(sel: Selector, draws: seq<nat>, from: nat, refs: seq<Point>, next: nat)
    requires ValidDraws(draws, |sel.candidates|)
  {
    && next == from + |refs| <= |draws|
    && forall k :: 0 <= k < |refs| ==> refs[k] == sel.candidates[draws[from + k]]
  }

  /** Rules that never reject consume exactly one draw per call, so they fail only
      when fewer than `n` draws are left, and return the draws' candidates in order. */
  lemma {:induction false} FirstDrawRulesNeverStall(sel: Selector, draws: seq<nat>, from: nat, n: nat)
    requires sel.SierpinskiRule? || sel.VicsekRule?
    requires ValidDraws(draws, |sel.candidates|)
    ensures SelectMany(sel, draws, from, n).Some? <==> from + n <= |draws| || n == 0
    ensures SelectMany(sel, draws, from, n).Some? && n > 0 ==>
      TakesDrawsInOrder(sel, draws, from, SelectMany(sel, draws, from, n).value.refs, SelectMany(sel, draws, from, n).value.next)
    decreases n
  {
    if n > 0 {
      FirstDrawRules(sel, draws, from);
      SelectManyCons(sel, draws, from, n);
      if from < |draws| {
        FirstDrawRulesNeverStall(sel, draws, from + 1, n - 1);
        var tail := SelectMany(sel, draws, from + 1, n - 1);
        if tail.Some? {
          assert TakesDrawsInOrder(sel, draws, from + 1, tail.value.refs, tail.value.next);
          InOrderCons(sel, draws, from, tail.value.refs, tail.value.next);
        }
      }
    }
  }

  lemma InOrderCons(sel: Selector, draws: seq<nat>, from: nat, refs: seq<Point>, next: nat)
    requires ValidDraws(draws, |sel.candidates|)
    requires from < |draws|
    requires TakesDrawsInOrder(sel, draws, from + 1, refs, next)
    ensures TakesDrawsInOrder(sel, draws, from, [sel.candidates[draws[from]]] + refs, next)
  {
    var all := [sel.candidates[draws[from]]] + refs;
    forall k | 0 <= k < |all|
      ensures all[k] == sel.candidates[draws[from + k]]
    {
      if k > 0 {
        assert all[k] == refs[k - 1];
        assert from + 1 + (k - 1) == from + k;
      }
    }
  }

  /** Along any run of the square-one rule, no returned vertex repeats the one before
      it (the first is compared with the initial previous vertex), and the state ends
      holding the last returned vertex. */
  lemma {:induction false} SquareOneRun(cs: seq<Point>, prev: Point, refs: seq<Point>)
    requires AcceptedRun(SquareOneRule(cs, prev), refs)
    ensures |refs| > 0 ==> refs[0].x != prev.x || refs[0].y != prev.y
    ensures forall k :: 0 < k < |refs| ==> refs[k].x != refs[k - 1].x || refs[k].y != refs[k - 1].y
    ensures AdvanceAll(SquareOneRule(cs, prev), refs)
      == SquareOneRule(cs, if |refs| == 0 then prev else refs[|refs| - 1])
    decreases |refs|
  {
    if |refs| > 0 {
      SquareOneRun(cs, refs[0], refs[1..]);
      assert forall k :: 1 < k < |refs| ==> refs[k] == refs[1..][k - 1];
    }
  }

  /** Along any run of the square-two rule, each returned vertex shares x or y with
      the one before it (the first with the initial previous vertex), and the state
      ends holding the last returned vertex. */
  lemma {:induction false} SquareTwoRun(cs: seq<Point>, prev: Point, refs: seq<Point>)
    requires AcceptedRun(SquareTwoRule(cs, prev), refs)
    ensures |refs| > 0 ==> SharesCoordinate(refs[0], prev)
    ensures forall k :: 0 < k < |refs| ==> SharesCoordinate(refs[k], refs[k - 1])
    ensures AdvanceAll(SquareTwoRule(cs, prev), refs)
      == SquareTwoRule(cs, if |refs| == 0 then prev else refs[|refs| - 1])
    decreases |refs|
  {
    if |refs| > 0 {
      SquareTwoRun(cs, refs[0], refs[1..]);
      assert forall k :: 1 < k < |refs| ==> refs[k] == refs[1..][k - 1];
    }
  }
}
