/** The `Object.values(players).forEach(...)` loops of the server, each run over the
    roster in enumeration order and proved to compute the matching whole-roster
    function of module Roster. */
module Passes {
  import opened Types
  import opened Roster

  /** The per-record rewrite each pass applies. */
  datatype Rewrite = ClearPending | Kill(correctIndex: int, round: int) | Raise | RaiseRound(round: int)

  function Apply(w: Rewrite, p: Player): Player
  {
    match w
    case ClearPending => ClearAnswer(p)
    case Kill(c, round) => Eliminate(p, c, round)
    case Raise => p.(isAlive := true)
    case RaiseRound(round) => ReviveIfDiedIn(p, round)
  }

  /** After `i` steps of a pass that rewrites each record with `w`: the records of
      the first `i` ids in `order` are rewritten, the rest are as they were. */
  ghost predicate PassedUpTo(order: seq<string>, ps: Players, updated: Players, i: nat, w: Rewrite)
    requires i <= |order|
  {
    && updated.Keys == ps.Keys
    && (forall j :: 0 <= j < i ==> order[j] in ps && updated[order[j]] == Apply(w, ps[order[j]]))
    && (forall j :: i <= j < |order| ==> order[j] in ps && updated[order[j]] == ps[order[j]])
  }

  lemma PassStep(order: seq<string>, ps: Players, updated: Players, i: nat, w: Rewrite)
    requires Distinct(order) && i < |order|
    requires PassedUpTo(order, ps, updated, i, w)
    ensures order[i] in ps && updated[order[i]] == ps[order[i]]
    ensures PassedUpTo(order, ps, updated[order[i] := Apply(w, ps[order[i]])], i + 1, w)
    ensures Apply(w, ps[order[i]]) == ps[order[i]] ==> PassedUpTo(order, ps, updated, i + 1, w)
  {
  }

  /** A pass that has visited every id has rewritten the whole roster. */
  lemma PassDone(order: seq<string>, ps: Players, updated: Players, w: Rewrite)
    requires OrderOf(order, ps)
    requires PassedUpTo(order, ps, updated, |order|, w)
    ensures w.ClearPending? ==> updated == ClearAnswers(ps)
    ensures w.Kill? ==> updated == EliminateAll(ps, w.correctIndex, w.round)
    ensures w.Raise? ==> updated == ReviveEveryone(ps)
    ensures w.RaiseRound? ==> updated == ReviveRoundOf(ps, w.round)
  {
    forall id | id in ps
      ensures updated[id] == Apply(w, ps[id])
    {
      var j :| 0 <= j < |order| && order[j] == id;
    }
  }

  /** The loop of `startQuestion` that clears living players' answers. */
  method ClearAnswersPass(order: seq<string>, ps: Players) returns (updated: Players)
    requires OrderOf(order, ps)
    ensures updated == ClearAnswers(ps)
  {
    updated := ps;
    var i := 0;
    while i < |order|
      invariant 0 <= i <= |order|
      invariant PassedUpTo(order, ps, updated, i, ClearPending)
    {
      var id := order[i];
      var p := updated[id];
      PassStep(order, ps, updated, i, ClearPending);
      if p.isAlive {
        updated := updated[id := p.(currentAnswer := None)];
      }
      i := i + 1;
    }
    PassDone(order, ps, updated, ClearPending);
  }

  /** The state of the counting loop after `i` steps: option `k` has been counted
      for every living record among the first `i` ids that answered `k`. */
  ghost predicate CountedUpTo(order: seq<string>, ps: Players, counts: seq<nat>, i: nat)
    requires i <= |order|
  {
    && |counts| == OPTION_COUNT
    && forall k :: 0 <= k < OPTION_COUNT ==> counts[k] == |Gather(order[..i], ps, Answered(k))|
  }

  /** One step of the counting loop: the record at `order[i]` adds one to its option's
      count when it is alive and its answer is one of the options. */
  lemma TallyStep(order: seq<string>, ps: Players, counts: seq<nat>, i: nat)
    requires i < |order| && order[i] in ps
    requires CountedUpTo(order, ps, counts, i)
    ensures var p := ps[order[i]];
      p.isAlive && p.currentAnswer.Some? && 0 <= p.currentAnswer.value < OPTION_COUNT ==>
        CountedUpTo(order, ps, counts[p.currentAnswer.value := counts[p.currentAnswer.value] + 1], i + 1)
    ensures var p := ps[order[i]];
      !(p.isAlive && p.currentAnswer.Some? && 0 <= p.currentAnswer.value < OPTION_COUNT) ==>
        CountedUpTo(order, ps, counts, i + 1)
  {
    forall k | 0 <= k < OPTION_COUNT {
      GatherSnoc(order, i, ps, Answered(k));
    }
  }

  /** Before the counting loop has visited any id, every count is 0. */
  lemma TallyStart(order: seq<string>, ps: Players)
    ensures CountedUpTo(order, ps, [0, 0, 0, 0], 0)
  {
    assert order[..0] == [];
  }

  /** A counting loop that has visited every id has counted every option over the roster. */
  lemma TallyDone(order: seq<string>, ps: Players, counts: seq<nat>)
    requires OrderOf(order, ps)
    requires CountedUpTo(order, ps, counts, |order|)
    ensures counts == Stats(ps)
  {
    assert order[..|order|] == order;
    forall k | 0 <= k < OPTION_COUNT
      ensures counts[k] == Tally(ps, k)
    {
      GatherSelect(order, ps, Answered(k));
    }
  }

  /** One pass of the counting loop's body: `answerCounts[p.currentAnswer]++` when the
      record at `order[i]` is alive and its answer is one of the options. */
  method CountOne(order: seq<string>, ps: Players, answerCounts: array<nat>, i: nat)
    requires i < |order| && order[i] in ps
    requires CountedUpTo(order, ps, answerCounts[..], i)
    modifies answerCounts
    ensures CountedUpTo(order, ps, answerCounts[..], i + 1)
  {
    var p := ps[order[i]];
    ghost var before := answerCounts[..];
    TallyStep(order, ps, before, i);
    if p.isAlive && p.currentAnswer.Some? && 0 <= p.currentAnswer.value < OPTION_COUNT {
      var k := p.currentAnswer.value;
      answerCounts[k] := answerCounts[k] + 1;
      assert answerCounts[..] == before[k := before[k] + 1];
    }
  }

  /** The counting loop of `endQuestion`: `answerCounts[p.currentAnswer]++` for every
      living player whose answer is one of the options. */
  method TallyPass(order: seq<string>, ps: Players) returns (stats: seq<nat>)
    requires OrderOf(order, ps)
    ensures stats == Stats(ps)
  {
    var answerCounts := new nat[OPTION_COUNT](_ => 0);
    assert answerCounts[..] == [0, 0, 0, 0];
    TallyStart(order, ps);
    var i := 0;
    while i < |order|
      invariant 0 <= i <= |order|
      invariant CountedUpTo(order, ps, answerCounts[..], i)
    {
      CountOne(order, ps, answerCounts, i);
      i := i + 1;
    }
    TallyDone(order, ps, answerCounts[..]);
    stats := answerCounts[..];
  }

  /** The state of the elimination loop after `i` steps: records rewritten, and the
      failing records so far counted and named. */
  ghost predicate EliminatedUpTo(order: seq<string>, ps: Players, w: Rewrite, i: nat,
                                 updated: Players, count: nat, names: seq<string>)
    requires w.Kill? && i <= |order|
  {
    && PassedUpTo(order, ps, updated, i, w)
    && count == |Gather(order[..i], ps, Failing(w.correctIndex))|
    && names == Names(Gather(order[..i], ps, Failing(w.correctIndex)))
  }

  /** One step of the elimination loop: the record at `order[i]`, if it fails, is
      rewritten, counted and named. */
  lemma EliminationStep(order: seq<string>, ps: Players, w: Rewrite, i: nat,
                        updated: Players, count: nat, names: seq<string>)
    requires w.Kill? && Distinct(order) && i < |order|
    requires EliminatedUpTo(order, ps, w, i, updated, count, names)
    ensures order[i] in ps && updated[order[i]] == ps[order[i]]
    ensures var p := ps[order[i]];
      p.isAlive && (p.currentAnswer.None? || p.currentAnswer.value != w.correctIndex) ==>
        EliminatedUpTo(order, ps, w, i + 1, updated[order[i] := p.(isAlive := false, deathRound := w.round)],
                       count + 1, names + [p.name])
    ensures var p := ps[order[i]];
      !(p.isAlive && (p.currentAnswer.None? || p.currentAnswer.value != w.correctIndex)) ==>
        EliminatedUpTo(order, ps, w, i + 1, updated, count, names)
  {
    var p := ps[order[i]];
    PassStep(order, ps, updated, i, w);
    GatherSnoc(order, i, ps, Failing(w.correctIndex));
    NamesSnoc(Gather(order[..i], ps, Failing(w.correctIndex)), p);
    if Holds(Failing(w.correctIndex), p) {
      assert Apply(w, p) == p.(isAlive := false, deathRound := w.round);
    } else {
      assert Apply(w, p) == p;
      var before := Gather(order[..i], ps, Failing(w.correctIndex));
      var after := Gather(order[..i + 1], ps, Failing(w.correctIndex));
      assert after == before + [];
      assert after == before;
      assert Names(after) == Names(before);
    }
  }

  /** What the elimination loop has built once it has visited every id. */
  lemma EliminationDone(order: seq<string>, ps: Players, w: Rewrite,
                        updated: Players, count: nat, names: seq<string>)
    requires w.Kill? && OrderOf(order, ps)
    requires EliminatedUpTo(order, ps, w, |order|, updated, count, names)
    ensures updated == EliminateAll(ps, w.correctIndex, w.round)
    ensures count == |Select(ps, Failing(w.correctIndex))|
    ensures names == Names(Gather(order, ps, Failing(w.correctIndex)))
    ensures |names| == count
  {
    assert order[..|order|] == order;
    GatherSelect(order, ps, Failing(w.correctIndex));
    PassDone(order, ps, updated, w);
  }

  /** The callback of the elimination loop, applied to the record at `order[i]`: a
      living player without the correct answer dies in `w.round`, is counted and named. */
  method EliminateOne(order: seq<string>, ps: Players, w: Rewrite, i: nat,
                      updated: Players, count: nat, names: seq<string>)
    returns (updated': Players, count': nat, names': seq<string>)
    requires w.Kill? && Distinct(order) && i < |order|
    requires EliminatedUpTo(order, ps, w, i, updated, count, names)
    ensures EliminatedUpTo(order, ps, w, i + 1, updated', count', names')
  {
    updated', count', names' := updated, count, names;
    var id := order[i];
    var p := updated[id];
    EliminationStep(order, ps, w, i, updated, count, names);
    if p.isAlive {
      if p.currentAnswer.None? || p.currentAnswer.value != w.correctIndex {
        updated' := updated[id := p.(isAlive := false, deathRound := w.round)];
        count' := count + 1;
        names' := names + [p.name];
      }
    }
  }

  /** The elimination loop of `endQuestion`: living players without the correct
      answer die in `round`; their number and names are collected in order. */
  method EliminationPass(order: seq<string>, ps: Players, correctIndex: int, round: int)
    returns (updated: Players, eliminatedCount: nat, recentDeadNames: seq<string>)
    requires OrderOf(order, ps)
    ensures updated == EliminateAll(ps, correctIndex, round)
    ensures eliminatedCount == |Select(ps, Failing(correctIndex))|
    ensures recentDeadNames == Names(Gather(order, ps, Failing(correctIndex)))
    ensures |recentDeadNames| == eliminatedCount
  {
    updated, eliminatedCount, recentDeadNames := ps, 0, [];
    var i := 0;
    while i < |order|
      invariant 0 <= i <= |order|
      invariant EliminatedUpTo(order, ps, Kill(correctIndex, round), i, updated, eliminatedCount, recentDeadNames)
    {
      updated, eliminatedCount, recentDeadNames :=
        EliminateOne(order, ps, Kill(correctIndex, round), i, updated, eliminatedCount, recentDeadNames);
      i := i + 1;
    }
    EliminationDone(order, ps, Kill(correctIndex, round), updated, eliminatedCount, recentDeadNames);
  }

  /** The loop of `REVIVE_ALL`. */
  method ReviveAllPass(order: seq<string>, ps: Players) returns (updated: Players)
    requires OrderOf(order, ps)
    ensures updated == ReviveEveryone(ps)
  {
    updated := ps;
    var i := 0;
    while i < |order|
      invariant 0 <= i <= |order|
      invariant PassedUpTo(order, ps, updated, i, Raise)
    {
      var id := order[i];
      PassStep(order, ps, updated, i, Raise);
      updated := updated[id := updated[id].(isAlive := true)];
      i := i + 1;
    }
    PassDone(order, ps, updated, Raise);
  }

  /** The state of the `REVIVE_ROUND` loop after `i` steps: records rewritten, and
      the ids of those revived so far collected. */
  ghost predicate RevivedUpTo(order: seq<string>, ps: Players, w: Rewrite, i: nat,
                              updated: Players, ids: seq<string>)
    requires w.RaiseRound? && i <= |order|
  {
    && PassedUpTo(order, ps, updated, i, w)
    && ids == StudentIds(Gather(order[..i], ps, DiedIn(w.round)))
  }

  /** One step of the `REVIVE_ROUND` loop. */
  lemma ReviveRoundStep(order: seq<string>, ps: Players, w: Rewrite, i: nat,
                        updated: Players, ids: seq<string>)
    requires w.RaiseRound? && Distinct(order) && i < |order|
    requires RevivedUpTo(order, ps, w, i, updated, ids)
    ensures order[i] in ps && updated[order[i]] == ps[order[i]]
    ensures var p := ps[order[i]];
      !p.isAlive && p.deathRound == w.round ==>
        RevivedUpTo(order, ps, w, i + 1, updated[order[i] := p.(isAlive := true)], ids + [p.studentId])
    ensures var p := ps[order[i]];
      !(!p.isAlive && p.deathRound == w.round) ==>
        RevivedUpTo(order, ps, w, i + 1, updated, ids)
  {
    var p := ps[order[i]];
    PassStep(order, ps, updated, i, w);
    GatherSnoc(order, i, ps, DiedIn(w.round));
    StudentIdsSnoc(Gather(order[..i], ps, DiedIn(w.round)), p);
    if Holds(DiedIn(w.round), p) {
      assert Apply(w, p) == p.(isAlive := true);
    } else {
      assert Apply(w, p) == p;
      var before := Gather(order[..i], ps, DiedIn(w.round));
      var after := Gather(order[..i + 1], ps, DiedIn(w.round));
      assert after == before + [];
      assert after == before;
      assert StudentIds(after) == StudentIds(before);
    }
  }

  /** What the `REVIVE_ROUND` loop has built once it has visited every id. */
  lemma ReviveRoundDone(order: seq<string>, ps: Players, w: Rewrite, updated: Players, ids: seq<string>)
    requires w.RaiseRound? && OrderOf(order, ps)
    requires RevivedUpTo(order, ps, w, |order|, updated, ids)
    ensures updated == ReviveRoundOf(ps, w.round)
    ensures ids == StudentIds(Gather(order, ps, DiedIn(w.round)))
    ensures |ids| == |Select(ps, DiedIn(w.round))|
  {
    assert order[..|order|] == order;
    GatherSelect(order, ps, DiedIn(w.round));
    PassDone(order, ps, updated, w);
  }

  /** The loop of `REVIVE_ROUND`: dead players stamped with `round` come back; their
      student ids are collected in order. */
  method ReviveRoundPass(order: seq<string>, ps: Players, round: int)
    returns (updated: Players, revivedIds: seq<string>)
    requires OrderOf(order, ps)
    ensures updated == ReviveRoundOf(ps, round)
    ensures revivedIds == StudentIds(Gather(order, ps, DiedIn(round)))
    ensures |revivedIds| == |Select(ps, DiedIn(round))|
  {
    updated, revivedIds := ps, [];
    var i := 0;
    while i < |order|
      invariant 0 <= i <= |order|
      invariant RevivedUpTo(order, ps, RaiseRound(round), i, updated, revivedIds)
    {
      var id := order[i];
      var p := updated[id];
      ReviveRoundStep(order, ps, RaiseRound(round), i, updated, revivedIds);
      if !p.isAlive && p.deathRound == round {
        updated := updated[id := p.(isAlive := true)];
        revivedIds := revivedIds + [p.studentId];
      }
      i := i + 1;
    }
    ReviveRoundDone(order, ps, RaiseRound(round), updated, revivedIds);
  }
}
