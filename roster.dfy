/** The `players` dictionary: records keyed by student id, the order in which
    JavaScript enumerates them, and the whole-roster passes the server makes
    over `Object.values(players)`. */
module Roster {
  import opened Types

  type Players = map<string, Player>

  predicate Distinct(s: seq<string>)
  {
    forall i, j :: 0 <= i < j < |s| ==> s[i] != s[j]
  }

  /** `order` enumerates the keys of `ps`, each exactly once. */
  ghost predicate OrderOf(order: seq<string>, ps: Players)
  {
    Distinct(order) && (forall id :: id in order <==> id in ps)
  }

  // ---------------------------------------------------------------------------
  // Enumeration order of an ordinary JavaScript object: keys that are array
  // indices come first in ascending numeric order, the other keys follow in the
  // order they were created.

  predicate IsDigit(c: char)
  {
    '0' <= c <= '9'
  }

  function DecimalValue(s: string): nat
    requires forall i :: 0 <= i < |s| ==> IsDigit(s[i])
  {
    if s == [] then 0
    else
      assert IsDigit(s[|s| - 1]);
      DecimalValue(s[..|s| - 1]) * 10 + (s[|s| - 1] as int - '0' as int)
  }

  /** The largest array index, 2^32 - 2. */
  const MAX_ARRAY_INDEX := 4294967294

  /** A canonical decimal numeral (no leading zero) of at most MAX_ARRAY_INDEX. */
  predicate IsArrayIndex(s: string)
  {
    && |s| > 0
    && (forall i :: 0 <= i < |s| ==> IsDigit(s[i]))
    && (s[0] != '0' || |s| == 1)
    && DecimalValue(s) <= MAX_ARRAY_INDEX
  }

  /** Every array-index key is preceded only by array-index keys of no larger value. */
  predicate IndexKeysFirst(order: seq<string>)
  {
    forall i, j :: 0 <= i < j < |order| && IsArrayIndex(order[j]) ==>
      IsArrayIndex(order[i]) && DecimalValue(order[i]) <= DecimalValue(order[j])
  }

  /** Every array-index key of `s` is an array index no smaller than `a`. */
  predicate IndexBound(a: string, s: seq<string>)
  {
    forall j :: 0 <= j < |s| && IsArrayIndex(s[j]) ==>
      IsArrayIndex(a) && DecimalValue(a) <= DecimalValue(s[j])
  }

  /** `a` is `b` with some elements left out, the rest in their order. */
  predicate SubSeq(a: seq<string>, b: seq<string>)
    decreases |b|
  {
    if a == [] then true
    else if b == [] then false
    else if a[0] == b[0] then SubSeq(a[1..], b[1..])
    else SubSeq(a, b[1..])
  }

  lemma {:induction false} SubSeqRefl(s: seq<string>)
    ensures SubSeq(s, s)
    decreases |s|
  {
    if s != [] {
      SubSeqRefl(s[1..]);
    }
  }

  lemma {:induction false} SubSeqSnoc(s: seq<string>, x: string)
    ensures SubSeq(s, s + [x])
    decreases |s|
  {
    if s != [] {
      assert (s + [x])[1..] == s[1..] + [x];
      SubSeqSnoc(s[1..], x);
    }
  }

  /** Putting the same key in front of both sides, or in front of the larger side only, keeps a subsequence. */
  lemma SubSeqCons(a: string, r: seq<string>, s: seq<string>)
    requires SubSeq(r, s)
    ensures SubSeq([a] + r, [a] + s)
    ensures a !in r ==> SubSeq(r, [a] + s)
  {
    assert ([a] + r)[1..] == r;
    assert ([a] + s)[1..] == s;
  }

  /** A key appended to both sides keeps a subsequence. */
  lemma {:induction false} SubSeqSnocBoth(a: seq<string>, b: seq<string>, x: string)
    requires SubSeq(a, b)
    ensures SubSeq(a + [x], b + [x])
    decreases |b|
  {
    if a == [] {
      assert a + [x] == [x];
      SubSeqSingle(x, b + [x]);
    } else {
      assert (a + [x])[1..] == a[1..] + [x];
      assert (b + [x])[1..] == b[1..] + [x];
      if a[0] == b[0] {
        SubSeqSnocBoth(a[1..], b[1..], x);
      } else {
        SubSeqSnocBoth(a, b[1..], x);
      }
    }
  }

  lemma {:induction false} SubSeqSingle(x: string, s: seq<string>)
    requires x in s
    ensures SubSeq([x], s)
    decreases |s|
  {
    if s[0] != x {
      SubSeqSingle(x, s[1..]);
    }
  }

  /** A key appended to the larger side only keeps a subsequence. */
  lemma {:induction false} SubSeqGrow(a: seq<string>, b: seq<string>, x: string)
    requires SubSeq(a, b)
    ensures SubSeq(a, b + [x])
    decreases |b|
  {
    if a != [] {
      assert (b + [x])[1..] == b[1..] + [x];
      if a[0] == b[0] {
        SubSeqGrow(a[1..], b[1..], x);
      } else {
        SubSeqGrow(a, b[1..], x);
      }
    }
  }

  /** Every key of a subsequence is a key of the whole. */
  lemma {:induction false} SubSeqMembers(a: seq<string>, b: seq<string>)
    requires SubSeq(a, b)
    ensures forall x :: x in a ==> x in b
    decreases |b|
  {
    if a != [] {
      if a[0] == b[0] {
        SubSeqMembers(a[1..], b[1..]);
        assert forall x :: x in a ==> x == a[0] || x in a[1..];
      } else {
        SubSeqMembers(a, b[1..]);
      }
    }
  }

  /** A subsequence of a duplicate-free sequence is duplicate-free. */
  lemma {:induction false} SubSeqDistinct(a: seq<string>, b: seq<string>)
    requires SubSeq(a, b) && Distinct(b)
    ensures Distinct(a)
    decreases |b|
  {
    if a != [] {
      assert Distinct(b[1..]) && b[0] !in b[1..];
      if a[0] == b[0] {
        SubSeqDistinct(a[1..], b[1..]);
        SubSeqMembers(a[1..], b[1..]);
        ConsKeepsOrder(a[0], a[1..]);
        assert [a[0]] + a[1..] == a;
      } else {
        SubSeqDistinct(a, b[1..]);
      }
    }
  }

  lemma ConsKeepsOrder(a: string, s: seq<string>)
    ensures Distinct(s) && a !in s ==> Distinct([a] + s)
    ensures IndexKeysFirst(s) && IndexBound(a, s) ==> IndexKeysFirst([a] + s)
  {
    var r := [a] + s;
    assert forall j :: 0 < j < |r| ==> r[j] == s[j - 1];
  }

  /** An array-index key of a suffix of a well-ordered sequence is bounded by its head. */
  lemma HeadBoundsTail(order: seq<string>, x: string)
    requires |order| > 0 && IndexKeysFirst(order)
    requires x in order[1..] && IsArrayIndex(x)
    ensures IsArrayIndex(order[0]) && DecimalValue(order[0]) <= DecimalValue(x)
  {
    var k :| 0 <= k < |order[1..]| && order[1..][k] == x;
    assert order[k + 1] == x;
  }

  /** A sequence drawn from the tail of a well-ordered sequence, plus possibly one key the head bounds, is bounded by the head. */
  lemma HeadBoundsRest(order: seq<string>, rest: seq<string>, extra: string)
    requires |order| > 0 && IndexKeysFirst(order)
    requires forall x :: x in rest ==> x in order[1..] || x == extra
    requires IsArrayIndex(extra) ==> IsArrayIndex(order[0]) && DecimalValue(order[0]) <= DecimalValue(extra)
    ensures IndexKeysFirst(order[1..]) && IndexBound(order[0], rest)
  {
    forall j | 0 <= j < |rest| && IsArrayIndex(rest[j])
      ensures IsArrayIndex(order[0]) && DecimalValue(order[0]) <= DecimalValue(rest[j])
    {
      if rest[j] != extra { HeadBoundsTail(order, rest[j]); }
    }
  }

  /** Where a key created by `players[id] = ...` lands in the enumeration order. */
  function InsertKey(order: seq<string>, id: string): (r: seq<string>)
    ensures forall x :: x in r <==> x in order || x == id
    ensures Distinct(order) && id !in order ==> Distinct(r)
    ensures IndexKeysFirst(order) ==> IndexKeysFirst(r)
    ensures id !in order ==> SubSeq(order, r)
    ensures !IsArrayIndex(id) ==> r == order + [id]
  {
    if IsArrayIndex(id) then InsertIndexKey(order, id)
    else
      SubSeqSnoc(order, id);
      order + [id]
  }

  function InsertIndexKey(order: seq<string>, id: string): (r: seq<string>)
    requires IsArrayIndex(id)
    ensures forall x :: x in r <==> x in order || x == id
    ensures Distinct(order) && id !in order ==> Distinct(r)
    ensures IndexKeysFirst(order) ==> IndexKeysFirst(r)
    ensures id !in order ==> SubSeq(order, r)
    decreases |order|
  {
    if order == [] || !IsArrayIndex(order[0]) || DecimalValue(id) < DecimalValue(order[0]) then
      assert IndexKeysFirst(order) ==> IndexBound(id, order);
      ConsKeepsOrder(id, order);
      SubSeqRefl(order);
      SubSeqCons(id, order, order);
      [id] + order
    else
      var rest := InsertIndexKey(order[1..], id);
      InsertIndexStep(order, id, rest);
      [order[0]] + rest
  }

  /** One step of `InsertIndexKey` past a smaller array-index head. */
  lemma InsertIndexStep(order: seq<string>, id: string, rest: seq<string>)
    requires order != [] && IsArrayIndex(id) && IsArrayIndex(order[0])
    requires DecimalValue(order[0]) <= DecimalValue(id)
    requires forall x :: x in rest <==> x in order[1..] || x == id
    requires Distinct(order[1..]) && id !in order[1..] ==> Distinct(rest)
    requires IndexKeysFirst(order[1..]) ==> IndexKeysFirst(rest)
    requires id !in order[1..] ==> SubSeq(order[1..], rest)
    ensures forall x :: x in [order[0]] + rest <==> x in order || x == id
    ensures Distinct(order) && id !in order ==> Distinct([order[0]] + rest)
    ensures IndexKeysFirst(order) ==> IndexKeysFirst([order[0]] + rest)
    ensures id !in order ==> SubSeq(order, [order[0]] + rest)
  {
    assert [order[0]] + order[1..] == order;
    assert Distinct(order) ==> Distinct(order[1..]) && order[0] !in order[1..];
    if IndexKeysFirst(order) { HeadBoundsRest(order, rest, id); }
    ConsKeepsOrder(order[0], rest);
    if id !in order {
      SubSeqCons(order[0], order[1..], rest);
    }
  }

  /** The enumeration order after `delete players[id]`. */
  function Without(order: seq<string>, id: string): (r: seq<string>)
    ensures forall x :: x in r <==> x in order && x != id
    ensures Distinct(order) ==> Distinct(r)
    ensures IndexKeysFirst(order) ==> IndexKeysFirst(r)
    ensures SubSeq(r, order)
    decreases |order|
  {
    if order == [] then []
    else
      var rest := Without(order[1..], id);
      WithoutStep(order, id, rest);
      if order[0] == id then rest else [order[0]] + rest
  }

  /** One step of `Without`: what holds of the rest carries over to the whole. */
  lemma WithoutStep(order: seq<string>, id: string, rest: seq<string>)
    requires order != []
    requires forall x :: x in rest <==> x in order[1..] && x != id
    requires Distinct(order[1..]) ==> Distinct(rest)
    requires IndexKeysFirst(order[1..]) ==> IndexKeysFirst(rest)
    requires SubSeq(rest, order[1..])
    ensures var r := if order[0] == id then rest else [order[0]] + rest;
      && (forall x :: x in r <==> x in order && x != id)
      && (Distinct(order) ==> Distinct(r))
      && (IndexKeysFirst(order) ==> IndexKeysFirst(r))
      && SubSeq(r, order)
  {
    assert [order[0]] + order[1..] == order;
    assert Distinct(order) ==> Distinct(order[1..]) && order[0] !in order[1..];
    if IndexKeysFirst(order) { HeadBoundsRest(order, rest, order[0]); }
    ConsKeepsOrder(order[0], rest);
    SubSeqCons(order[0], rest, order[1..]);
  }

  lemma {:induction false} WithoutAbsent(order: seq<string>, id: string)
    requires id !in order
    ensures Without(order, id) == order
    decreases |order|
  {
    if order != [] {
      assert id !in order[1..];
      WithoutAbsent(order[1..], id);
    }
  }

  lemma {:induction false} WithoutLast(order: seq<string>, id: string)
    requires id !in order
    ensures Without(order + [id], id) == order
    decreases |order|
  {
    if order == [] {
      assert Without([id][1..], id) == [];
    } else {
      assert (order + [id])[1..] == order[1..] + [id];
      assert id !in order[1..];
      WithoutLast(order[1..], id);
    }
  }

  lemma {:induction false} WithoutIndexKey(order: seq<string>, id: string)
    requires IsArrayIndex(id) && id !in order
    ensures Without(InsertIndexKey(order, id), id) == order
    decreases |order|
  {
    if order == [] || !IsArrayIndex(order[0]) || DecimalValue(id) < DecimalValue(order[0]) {
      assert ([id] + order)[1..] == order;
      WithoutAbsent(order, id);
    } else {
      var rest := InsertIndexKey(order[1..], id);
      assert InsertIndexKey(order, id) == [order[0]] + rest;
      assert ([order[0]] + rest)[1..] == rest;
      assert order[0] != id && id !in order[1..];
      WithoutIndexKey(order[1..], id);
      assert Without([order[0]] + rest, id) == [order[0]] + Without(rest, id);
      assert [order[0]] + order[1..] == order;
    }
  }

  /** Deleting a key just created restores the enumeration order: creating a key
      never moves the keys already there. */
  lemma InsertThenDelete(order: seq<string>, id: string)
    requires id !in order
    ensures Without(InsertKey(order, id), id) == order
  {
    if IsArrayIndex(id) {
      WithoutIndexKey(order, id);
    } else {
      WithoutLast(order, id);
    }
  }

  // ---------------------------------------------------------------------------
  // Filters over the roster.

  /** The conditions the server's passes test a player against. */
  datatype Filter =
    | Alive                      // p.isAlive
    | Answered(option: int)      // alive and answered `option`
    | Failing(correctIndex: int) // alive and answer null or not `correctIndex`
    | DiedIn(round: int)         // dead and stamped with `round`

  predicate Holds(f: Filter, p: Player)
  {
    match f
    case Alive => p.isAlive
    case Answered(k) => p.isAlive && p.currentAnswer == Some(k)
    case Failing(c) => p.isAlive && p.currentAnswer != Some(c)
    case DiedIn(k) => !p.isAlive && p.deathRound == k
  }

  /** The ids whose records satisfy `f`: the order-free reference. */
  function Select(ps: Players, f: Filter): set<string>
  {
    set id | id in ps && Holds(f, ps[id])
  }

  /** `Object.values(players).filter(...)`: the matching records in enumeration order. */
  function Gather(order: seq<string>, ps: Players, f: Filter): (r: seq<Player>)
    ensures forall p :: p in r ==> Holds(f, p)
    ensures |r| <= |order|
    decreases |order|
  {
    if order == [] then []
    else
      var last := order[|order| - 1];
      Gather(order[..|order| - 1], ps, f) + (if last in ps && Holds(f, ps[last]) then [ps[last]] else [])
  }

  /** `.map(p => p.name)` */
  function Names(s: seq<Player>): (r: seq<string>)
    ensures |r| == |s|
    ensures forall i :: 0 <= i < |s| ==> r[i] == s[i].name
  {
    if s == [] then [] else Names(s[..|s| - 1]) + [s[|s| - 1].name]
  }

  /** `.map(p => p.studentId)` */
  function StudentIds(s: seq<Player>): (r: seq<string>)
    ensures |r| == |s|
    ensures forall i :: 0 <= i < |s| ==> r[i] == s[i].studentId
  {
    if s == [] then [] else StudentIds(s[..|s| - 1]) + [s[|s| - 1].studentId]
  }

  lemma GatherSnoc(order: seq<string>, i: nat, ps: Players, f: Filter)
    requires i < |order|
    ensures Gather(order[..i + 1], ps, f)
         == Gather(order[..i], ps, f) + (if order[i] in ps && Holds(f, ps[order[i]]) then [ps[order[i]]] else [])
  {
    assert order[..i + 1][..i] == order[..i];
  }

  /** One step of a loop that gathers into `acc` the records satisfying `f`. */
  lemma GatherStep(order: seq<string>, i: nat, ps: Players, f: Filter, acc: seq<Player>)
    requires i < |order| && order[i] in ps
    requires acc == Gather(order[..i], ps, f)
    ensures Holds(f, ps[order[i]]) ==> acc + [ps[order[i]]] == Gather(order[..i + 1], ps, f)
    ensures !Holds(f, ps[order[i]]) ==> acc == Gather(order[..i + 1], ps, f)
  {
    GatherSnoc(order, i, ps, f);
  }

  /** Every record's name is listed. */
  lemma NamesListAll(s: seq<Player>)
    ensures forall p :: p in s ==> p.name in Names(s)
  {
    forall p | p in s
      ensures p.name in Names(s)
    {
      var i :| 0 <= i < |s| && s[i] == p;
      assert Names(s)[i] == p.name;
    }
  }

  lemma NamesSnoc(s: seq<Player>, p: Player)
    ensures Names(s + [p]) == Names(s) + [p.name]
  {
    assert (s + [p])[..|s|] == s;
  }

  lemma StudentIdsSnoc(s: seq<Player>, p: Player)
    ensures StudentIds(s + [p]) == StudentIds(s) + [p.studentId]
  {
    assert (s + [p])[..|s|] == s;
  }

  /** The ids of `init + [last]` satisfying `f` are those of `init`, plus `last` if it does. */
  lemma CountedSnoc(init: seq<string>, last: string, ps: Players, f: Filter)
    requires last !in init
    ensures var before := set id | id in init && id in ps && Holds(f, ps[id]);
            var after := set id | id in init + [last] && id in ps && Holds(f, ps[id]);
            && last !in before
            && (last in ps && Holds(f, ps[last]) ==> after == before + {last})
            && (!(last in ps && Holds(f, ps[last])) ==> after == before)
  {
  }

  lemma {:induction false} GatherCount(order: seq<string>, ps: Players, f: Filter)
    requires Distinct(order)
    ensures |Gather(order, ps, f)| == |set id | id in order && id in ps && Holds(f, ps[id])|
    decreases |order|
  {
    if order != [] {
      var init, last := order[..|order| - 1], order[|order| - 1];
      assert Distinct(init);
      GatherCount(init, ps, f);
      assert order == init + [last];
      CountedSnoc(init, last, ps, f);
    }
  }

  /** Filtering along the enumeration order counts exactly the selected ids. */
  lemma GatherSelect(order: seq<string>, ps: Players, f: Filter)
    requires OrderOf(order, ps)
    ensures |Gather(order, ps, f)| == |Select(ps, f)|
  {
    GatherCount(order, ps, f);
    assert (set id | id in order && id in ps && Holds(f, ps[id])) == Select(ps, f);
  }

  /** Over a roster whose records carry their own key as student id, the filter
      along `order` yields the records of the matching keys of `order`, and their ids
      in the order of `order`. */
  /** The filter misses no record: every key of `order` whose record matches has
      its record among those gathered. */
  lemma {:induction false} GatherHasAll(order: seq<string>, ps: Players, f: Filter)
    ensures forall id :: id in order && id in ps && Holds(f, ps[id]) ==> ps[id] in Gather(order, ps, f)
    decreases |order|
  {
    if order != [] {
      var init, last := order[..|order| - 1], order[|order| - 1];
      GatherHasAll(init, ps, f);
      assert forall id :: id in order ==> id in init || id == last by {
        assert order == init + [last];
      }
    }
  }

  /** `Gather` over `init + [last]`, unfolded once. */
  lemma GatherLast(init: seq<string>, last: string, ps: Players, f: Filter)
    ensures Gather(init + [last], ps, f)
         == Gather(init, ps, f) + (if last in ps && Holds(f, ps[last]) then [ps[last]] else [])
  {
    assert (init + [last])[..|init|] == init;
  }

  lemma {:induction false} GatheredAlong(order: seq<string>, ps: Players, f: Filter)
    requires forall id :: id in ps ==> ps[id].studentId == id
    ensures GatheredFrom(order, ps, f, Gather(order, ps, f))
    decreases |order|
  {
    if order != [] {
      var init, last := order[..|order| - 1], order[|order| - 1];
      assert order == init + [last];
      GatheredAlong(init, ps, f);
      GatherLast(init, last, ps, f);
      var g := Gather(init, ps, f);
      if last in ps && Holds(f, ps[last]) {
        assert Gather(order, ps, f) == g + [ps[last]];
        GatheredAdd(init, last, ps, f, g);
      } else {
        assert Gather(order, ps, f) == g;
        GatheredKeep(init, last, ps, f, g);
      }
    }
  }

  /** What `GatheredAlong` states of the records `g` gathered along `order`. */
  ghost predicate GatheredFrom(order: seq<string>, ps: Players, f: Filter, g: seq<Player>)
  {
    && (forall id :: id in StudentIds(g) <==> id in order && id in ps && Holds(f, ps[id]))
    && SubSeq(StudentIds(g), order)
    && (forall p :: p in g ==> p.studentId in ps && ps[p.studentId] == p)
  }

  /** A matching key appended to `order` appends its record to what is gathered. */
  lemma GatheredAdd(init: seq<string>, last: string, ps: Players, f: Filter, g: seq<Player>)
    requires forall id :: id in ps ==> ps[id].studentId == id
    requires last in ps && Holds(f, ps[last])
    requires GatheredFrom(init, ps, f, g)
    ensures GatheredFrom(init + [last], ps, f, g + [ps[last]])
  {
    StudentIdsSnoc(g, ps[last]);
    SubSeqSnocBoth(StudentIds(g), init, last);
    assert forall id :: id in init + [last] <==> id in init || id == last;
    assert forall p :: p in g + [ps[last]] <==> p in g || p == ps[last];
  }

  /** A key appended to `order` whose record does not match leaves what is gathered. */
  lemma GatheredKeep(init: seq<string>, last: string, ps: Players, f: Filter, g: seq<Player>)
    requires !(last in ps && Holds(f, ps[last]))
    requires GatheredFrom(init, ps, f, g)
    ensures GatheredFrom(init + [last], ps, f, g)
  {
    SubSeqGrow(StudentIds(g), init, last);
    assert forall id :: id in init + [last] <==> id in init || id == last;
  }

  /** The ids the in-order filter yields are exactly the selected ids, each once, in
      enumeration order. */
  lemma GatheredIds(order: seq<string>, ps: Players, f: Filter)
    requires OrderOf(order, ps)
    requires forall id :: id in ps ==> ps[id].studentId == id
    ensures var ids := StudentIds(Gather(order, ps, f));
      && (forall id :: id in ids <==> id in Select(ps, f))
      && Distinct(ids)
      && SubSeq(ids, order)
  {
    GatheredAlong(order, ps, f);
    SubSeqDistinct(StudentIds(Gather(order, ps, f)), order);
  }

  /** The records the in-order filter yields are exactly the records of the selected
      ids. */
  lemma GatheredRecords(order: seq<string>, ps: Players, f: Filter)
    requires OrderOf(order, ps)
    requires forall id :: id in ps ==> ps[id].studentId == id
    ensures forall id :: id in Select(ps, f) ==> ps[id] in Gather(order, ps, f)
    ensures forall p :: p in Gather(order, ps, f) ==> p.studentId in Select(ps, f) && ps[p.studentId] == p
  {
    GatherHasAll(order, ps, f);
    GatheredAlong(order, ps, f);
  }

  // ---------------------------------------------------------------------------
  // Counts.

  /** `getAliveCount()` */
  function AliveCount(ps: Players): nat
  {
    |Select(ps, Alive)|
  }

  /** How many living players hold answer `k`. */
  function Tally(ps: Players, k: int): nat
  {
    |Select(ps, Answered(k))|
  }

  /** The `answerCounts` array of a reveal, one count per option. */
  function Stats(ps: Players): seq<nat>
  {
    seq(OPTION_COUNT, k => Tally(ps, k))
  }

  // ---------------------------------------------------------------------------
  // Whole-roster updates.

  function ClearAnswer(p: Player): Player
  {
    if p.isAlive then p.(currentAnswer := None) else p
  }

  /** The pass of `startQuestion`: living players lose their pending answer. */
  function ClearAnswers(ps: Players): (r: Players)
    ensures r.Keys == ps.Keys
    ensures forall id :: id in ps ==> r[id] == ps[id].(currentAnswer := r[id].currentAnswer)
    ensures forall id :: id in ps && ps[id].isAlive ==> r[id].currentAnswer == None
    ensures forall id :: id in ps && !ps[id].isAlive ==> r[id] == ps[id]
  {
    map id | id in ps :: ClearAnswer(ps[id])
  }

  function Eliminate(p: Player, correctIndex: int, round: int): Player
  {
    if Holds(Failing(correctIndex), p) then p.(isAlive := false, deathRound := round) else p
  }

  /** The elimination pass of `endQuestion`. */
  function EliminateAll(ps: Players, correctIndex: int, round: int): (r: Players)
    ensures r.Keys == ps.Keys
    ensures forall id :: id in ps ==>
      (r[id].isAlive <==> ps[id].isAlive && ps[id].currentAnswer == Some(correctIndex))
    ensures forall id :: id in ps && !ps[id].isAlive ==> r[id] == ps[id]
    ensures forall id :: id in ps && ps[id].isAlive && !r[id].isAlive ==>
      r[id] == ps[id].(isAlive := false, deathRound := round)
    ensures forall id :: id in ps && r[id].isAlive ==> r[id] == ps[id]
  {
    map id | id in ps :: Eliminate(ps[id], correctIndex, round)
  }

  /** `REVIVE_ALL`: every record alive, nothing else changed. */
  function ReviveEveryone(ps: Players): (r: Players)
    ensures r.Keys == ps.Keys
    ensures forall id :: id in ps ==> r[id].isAlive && r[id] == ps[id].(isAlive := true)
  {
    map id | id in ps :: ps[id].(isAlive := true)
  }

  function ReviveIfDiedIn(p: Player, round: int): Player
  {
    if Holds(DiedIn(round), p) then p.(isAlive := true) else p
  }

  /** `REVIVE_ROUND`: exactly the players who died in `round` come back. */
  function ReviveRoundOf(ps: Players, round: int): (r: Players)
    ensures r.Keys == ps.Keys
    ensures forall id :: id in ps ==>
      (r[id].isAlive <==> ps[id].isAlive || ps[id].deathRound == round)
    ensures forall id :: id in ps ==> r[id] == ps[id].(isAlive := r[id].isAlive)
  {
    map id | id in ps :: ReviveIfDiedIn(ps[id], round)
  }

  // ---------------------------------------------------------------------------
  // Properties of the passes.

  lemma SubsetCard(a: set<string>, b: set<string>)
    requires a <= b
    ensures |a| <= |b|
  {
    assert b == a + (b - a);
  }

  /** The four option counts of a reveal never exceed the number of living players. */
  lemma TalliesWithinAlive(ps: Players)
    ensures Tally(ps, 0) + Tally(ps, 1) + Tally(ps, 2) + Tally(ps, 3) <= AliveCount(ps)
  {
    var a0, a1, a2, a3 := Select(ps, Answered(0)), Select(ps, Answered(1)),
                          Select(ps, Answered(2)), Select(ps, Answered(3));
    assert a0 * a1 == {} && a0 * a2 == {} && a0 * a3 == {};
    assert a1 * a2 == {} && a1 * a3 == {} && a2 * a3 == {};
    assert |a0 + a1| == |a0| + |a1|;
    assert (a0 + a1) * a2 == {};
    assert |a0 + a1 + a2| == |a0| + |a1| + |a2|;
    assert (a0 + a1 + a2) * a3 == {};
    assert |a0 + a1 + a2 + a3| == |a0| + |a1| + |a2| + |a3|;
    SubsetCard(a0 + a1 + a2 + a3, Select(ps, Alive));
  }

  /** After the elimination pass the survivors are exactly the living players who
      answered the correct option, so their number is that option's count. */
  lemma SurvivorsAnsweredCorrectly(ps: Players, correctIndex: int, round: int)
    ensures Select(EliminateAll(ps, correctIndex, round), Alive) == Select(ps, Answered(correctIndex))
    ensures AliveCount(EliminateAll(ps, correctIndex, round)) == Tally(ps, correctIndex)
  {
  }

  /** Living players split into those who answered `c` and those who did not. */
  lemma AliveSplit(ps: Players, c: int)
    ensures AliveCount(ps) == Tally(ps, c) + |Select(ps, Failing(c))|
  {
    var ok, bad := Select(ps, Answered(c)), Select(ps, Failing(c));
    assert Select(ps, Alive) == ok + bad;
    assert ok * bad == {};
  }

  /** The number eliminated by a reveal is the drop in the alive count. */
  lemma EliminatedIsAliveDrop(ps: Players, correctIndex: int, round: int)
    ensures |Select(ps, Failing(correctIndex))|
            == AliveCount(ps) - AliveCount(EliminateAll(ps, correctIndex, round))
  {
    SurvivorsAnsweredCorrectly(ps, correctIndex, round);
    AliveSplit(ps, correctIndex);
  }

  /** Starting a question keeps everyone's survival and leaves no living player with an answer. */
  lemma ClearedRosterHasNoAnswers(ps: Players, k: int)
    ensures Select(ClearAnswers(ps), Alive) == Select(ps, Alive)
    ensures Tally(ClearAnswers(ps), k) == 0
  {
  }

  /** `REVIVE_ALL` leaves the whole roster alive. */
  lemma ReviveEveryoneCount(ps: Players)
    ensures AliveCount(ReviveEveryone(ps)) == |ps|
  {
    assert Select(ReviveEveryone(ps), Alive) == ps.Keys;
  }

  /** `REVIVE_ROUND` adds exactly the players stamped with that round to the living. */
  lemma ReviveRoundCount(ps: Players, round: int)
    ensures Select(ReviveRoundOf(ps, round), Alive) == Select(ps, Alive) + Select(ps, DiedIn(round))
    ensures AliveCount(ReviveRoundOf(ps, round)) == AliveCount(ps) + |Select(ps, DiedIn(round))|
  {
  }

  /** `register` adds one living player to the roster. */
  lemma RegisterAddsOneLiving(ps: Players, id: string, p: Player)
    requires id !in ps && p.isAlive
    ensures Select(ps[id := p], Alive) == Select(ps, Alive) + {id}
    ensures AliveCount(ps[id := p]) == AliveCount(ps) + 1
  {
  }

  /** `KICK_PLAYER` removes the player from the living, if they were alive, and from
      no other count. */
  lemma KickRemovesOne(ps: Players, id: string)
    requires id in ps
    ensures Select(ps - {id}, Alive) == Select(ps, Alive) - {id}
    ensures AliveCount(ps - {id}) == AliveCount(ps) - (if ps[id].isAlive then 1 else 0)
  {
  }

  /** An accepted `submit_answer` moves the sender into the count of the option they
      chose and out of every other option's count; survival is untouched. */
  lemma AnswerRecounted(ps: Players, id: string, k: int, j: int)
    requires id in ps && ps[id].isAlive && j != k
    ensures var after := ps[id := ps[id].(currentAnswer := Some(k))];
      && Select(after, Alive) == Select(ps, Alive)
      && Select(after, Answered(k)) == Select(ps, Answered(k)) + {id}
      && Select(after, Answered(j)) == Select(ps, Answered(j)) - {id}
  {
  }

  /** When nobody was stamped with `round` before it was revealed, `REVIVE_ROUND`
      right after the reveal gives back exactly the survival flags from before it. */
  lemma ReviveRoundUndoesReveal(ps: Players, correctIndex: int, round: int)
    requires forall id :: id in ps && !ps[id].isAlive ==> ps[id].deathRound != round
    ensures var r := ReviveRoundOf(EliminateAll(ps, correctIndex, round), round);
      r.Keys == ps.Keys && forall id :: id in ps ==> r[id].isAlive == ps[id].isAlive
  {
  }
}
