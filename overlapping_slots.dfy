/**
 * src/utils/getOverlappingSlots.ts: the availability aggregation. Every
 * participant's slot list is walked in order; a dictionary keyed by slot id
 * gathers a count and the names of those who picked the slot; the entries
 * then get a rounded percentage of all participants and are ranked by count,
 * then percentage, both descending.
 *
 * Slot ids are opaque strings here, so the model covers both encodings the
 * program stores.
 */
module OverlappingSlots {
  import opened Wrappers
  import opened Types

  /** One element of the result array. */
  datatype SlotStat = SlotStat(slotId: string, count: nat, participants: seq<string>, percentage: int)

  /** The value the dictionary keeps per slot id. */
  datatype Counts = Counts(count: nat, participants: seq<string>)

  /** One step of the inner `forEach`: a slot and the name of the participant who picked it. */
  datatype Visit = Visit(slot: string, name: string)

  // ---------------------------------------------------------------------------
  // The walk over participants and their slots

  function VisitsOf(slots: seq<string>, name: string): (v: seq<Visit>)
    ensures |v| == |slots|
    ensures forall j :: 0 <= j < |slots| ==> v[j] == Visit(slots[j], name)
  {
    seq(|slots|, j requires 0 <= j < |slots| => Visit(slots[j], name))
  }

  /** The visits made for one participant, `availableSlots || []` in order. */
  function Visits(p: Participant): seq<Visit> {
    VisitsOf(SlotsOf(p), p.name)
  }

  /** All visits of the nested walk, participant by participant. */
  function AllVisits(ps: seq<Participant>): seq<Visit> {
    if |ps| == 0 then [] else AllVisits(ps[..|ps| - 1]) + Visits(ps[|ps| - 1])
  }

  /** The dictionary's keys in insertion order: each slot id at its first visit. */
  function Keys(vs: seq<Visit>): seq<string> {
    if |vs| == 0 then []
    else
      var k := Keys(vs[..|vs| - 1]);
      if vs[|vs| - 1].slot in k then k else k + [vs[|vs| - 1].slot]
  }

  /** `slotCounts[s].count` after the visits `vs`. */
  function CountIn(vs: seq<Visit>, s: string): nat {
    if |vs| == 0 then 0
    else CountIn(vs[..|vs| - 1], s) + (if vs[|vs| - 1].slot == s then 1 else 0)
  }

  /** `slotCounts[s].participants` after the visits `vs`. */
  function NamesIn(vs: seq<Visit>, s: string): seq<string> {
    if |vs| == 0 then []
    else NamesIn(vs[..|vs| - 1], s) + (if vs[|vs| - 1].slot == s then [vs[|vs| - 1].name] else [])
  }

  /**
   * `Math.round(count / total * 100)` in exact arithmetic: the integer
   * nearest to `100 * count / total`, halves rounded up.
   */
  function Percentage(count: nat, total: nat): (r: int)
    requires total > 0
    ensures 2 * total * r <= 200 * count + total < 2 * total * (r + 1)
  {
    (200 * count + total) / (2 * total)
  }

  function Entry(vs: seq<Visit>, s: string, total: nat): SlotStat
    requires total > 0
  {
    SlotStat(s, CountIn(vs, s), NamesIn(vs, s), Percentage(CountIn(vs, s), total))
  }

  /** `Object.entries(slotCounts).map(...)`: one entry per key, in key order. */
  function Tally(vs: seq<Visit>, total: nat): (r: seq<SlotStat>)
    requires total > 0
    ensures |r| == |Keys(vs)|
    ensures forall k :: 0 <= k < |r| ==> r[k] == Entry(vs, Keys(vs)[k], total)
  {
    var keys := Keys(vs);
    seq(|keys|, k requires 0 <= k < |keys| => Entry(vs, keys[k], total))
  }

  /** What `getOverlappingSlots` returns for the fetched participants. */
  function Overlapping(ps: seq<Participant>): seq<SlotStat> {
    if |ps| == 0 then [] else SortByRank(Tally(AllVisits(ps), |ps|))
  }

  // ---------------------------------------------------------------------------
  // Ranking: `results.sort((a, b) => b.count - a.count || b.percentage - a.percentage)`

  /** `a` goes strictly before `b`: more participants, or as many and a higher percentage. */
  predicate Outranks(a: SlotStat, b: SlotStat) {
    a.count > b.count || (a.count == b.count && a.percentage > b.percentage)
  }

  predicate Ranked(s: seq<SlotStat>) {
    forall i, j :: 0 <= i < j < |s| ==> !Outranks(s[j], s[i])
  }

  /** Places `x` in front of the first element it is not outranked by. */
  function InsertRanked(x: SlotStat, s: seq<SlotStat>): (r: seq<SlotStat>)
    ensures multiset(r) == multiset(s) + multiset{x}
  {
    if |s| == 0 || !Outranks(s[0], x) then [x] + s
    else
      assert s == [s[0]] + s[1..];
      [s[0]] + InsertRanked(x, s[1..])
  }

  lemma {:induction false} InsertKeepsRanked(x: SlotStat, s: seq<SlotStat>)
    requires Ranked(s)
    ensures Ranked(InsertRanked(x, s))
    decreases |s|
  {
    if |s| == 0 || !Outranks(s[0], x) {
      forall j | 0 < j < |[x] + s| ensures !Outranks(([x] + s)[j], x) {
        assert ([x] + s)[j] == s[j - 1];
      }
    } else {
      var rest := InsertRanked(x, s[1..]);
      InsertKeepsRanked(x, s[1..]);
      forall e | e in rest ensures !Outranks(e, s[0]) {
        assert e in multiset(rest);
        if e != x {
          assert e in s[1..];
          var k :| 0 <= k < |s[1..]| && s[1..][k] == e;
          assert s[k + 1] == e;
        }
      }
      forall j | 0 < j < |[s[0]] + rest| ensures !Outranks(([s[0]] + rest)[j], s[0]) {
        assert ([s[0]] + rest)[j] == rest[j - 1];
        assert rest[j - 1] in rest;
      }
    }
  }

  /** A stable sort by rank (`Array.prototype.sort` is stable). */
  function SortByRank(s: seq<SlotStat>): (r: seq<SlotStat>)
    ensures Ranked(r)
    ensures multiset(r) == multiset(s)
  {
    if |s| == 0 then []
    else
      assert s == [s[0]] + s[1..];
      InsertKeepsRanked(s[0], SortByRank(s[1..]));
      InsertRanked(s[0], SortByRank(s[1..]))
  }

  /** The elements of `s` whose count and percentage are `count` and `percentage`, in order. */
  function Tier(s: seq<SlotStat>, count: nat, percentage: int): seq<SlotStat> {
    if |s| == 0 then []
    else (if s[0].count == count && s[0].percentage == percentage then [s[0]] else []) + Tier(s[1..], count, percentage)
  }

  lemma {:induction false} InsertTier(x: SlotStat, s: seq<SlotStat>, count: nat, percentage: int)
    ensures Tier(InsertRanked(x, s), count, percentage)
      == (if x.count == count && x.percentage == percentage then [x] else []) + Tier(s, count, percentage)
    decreases |s|
  {
    if |s| == 0 || !Outranks(s[0], x) {
      assert ([x] + s)[1..] == s;
    } else {
      var rest := InsertRanked(x, s[1..]);
      assert ([s[0]] + rest)[1..] == rest;
      InsertTier(x, s[1..], count, percentage);
    }
  }

  /** Stability: entries that tie on both keys keep their relative order. */
  lemma {:induction false} SortTier(s: seq<SlotStat>, count: nat, percentage: int)
    ensures Tier(SortByRank(s), count, percentage) == Tier(s, count, percentage)
    decreases |s|
  {
    if |s| > 0 {
      SortTier(s[1..], count, percentage);
      InsertTier(s[0], SortByRank(s[1..]), count, percentage);
    }
  }

  predicate DistinctIds(s: seq<SlotStat>) {
    forall i, j :: 0 <= i < j < |s| ==> s[i].slotId != s[j].slotId
  }

  lemma DistinctTail(s: seq<SlotStat>)
    requires |s| > 0 && DistinctIds(s)
    ensures DistinctIds(s[1..])
  {
    forall i, j | 0 <= i < j < |s[1..]| ensures s[1..][i].slotId != s[1..][j].slotId {
      assert s[1..][i] == s[i + 1] && s[1..][j] == s[j + 1];
    }
  }

  lemma DistinctCons(h: SlotStat, t: seq<SlotStat>)
    requires DistinctIds(t)
    requires forall e :: e in t ==> e.slotId != h.slotId
    ensures DistinctIds([h] + t)
  {
    var r := [h] + t;
    forall i, j | 0 <= i < j < |r| ensures r[i].slotId != r[j].slotId {
      assert r[j] == t[j - 1] && r[j] in t;
      if i > 0 {
        assert r[i] == t[i - 1];
      }
    }
  }

  /** No entry of the first list carries `id` when no entry of the second does and they hold the same entries. */
  lemma IdAbsent(a: seq<SlotStat>, b: seq<SlotStat>, id: string)
    requires multiset(a) == multiset(b)
    requires forall e :: e in b ==> e.slotId != id
    ensures forall e :: e in a ==> e.slotId != id
  {
    forall e | e in a ensures e.slotId != id {
      assert e in multiset(a);
      assert e in multiset(b);
    }
  }

  lemma {:induction false} InsertDistinct(x: SlotStat, s: seq<SlotStat>)
    requires DistinctIds(s)
    requires forall e :: e in s ==> e.slotId != x.slotId
    ensures DistinctIds(InsertRanked(x, s))
    decreases |s|
  {
    if |s| > 0 && Outranks(s[0], x) {
      var rest := InsertRanked(x, s[1..]);
      DistinctTail(s);
      assert forall e :: e in s[1..] ==> e in s;
      InsertDistinct(x, s[1..]);
      forall e | e in s[1..] + [x] ensures e.slotId != s[0].slotId {
        if e != x {
          var k :| 0 <= k < |s[1..]| && s[1..][k] == e;
          assert s[k + 1] == e;
        }
      }
      assert multiset(rest) == multiset(s[1..] + [x]);
      IdAbsent(rest, s[1..] + [x], s[0].slotId);
      DistinctCons(s[0], rest);
    } else {
      DistinctCons(x, s);
    }
  }

  lemma {:induction false} SortDistinct(s: seq<SlotStat>)
    requires DistinctIds(s)
    ensures DistinctIds(SortByRank(s))
    decreases |s|
  {
    if |s| > 0 {
      DistinctTail(s);
      SortDistinct(s[1..]);
      forall e | e in s[1..] ensures e.slotId != s[0].slotId {
        var k :| 0 <= k < |s[1..]| && s[1..][k] == e;
        assert s[k + 1] == e;
      }
      IdAbsent(SortByRank(s[1..]), s[1..], s[0].slotId);
      InsertDistinct(s[0], SortByRank(s[1..]));
    }
  }

  // ---------------------------------------------------------------------------
  // The imperative aggregation

  /** The dictionary and its key order agree with the visits made so far. */
  ghost predicate Tracks(slotCounts: map<string, Counts>, order: seq<string>, visited: seq<Visit>) {
    order == Keys(visited)
    && (forall s :: s in slotCounts <==> s in order)
    && (forall s :: s in slotCounts ==> slotCounts[s] == Counts(CountIn(visited, s), NamesIn(visited, s)))
  }

  /** A slot never visited has no count and no names yet. */
  lemma {:induction false} NotKeyUnvisited(vs: seq<Visit>, s: string)
    requires s !in Keys(vs)
    ensures CountIn(vs, s) == 0 && NamesIn(vs, s) == []
    decreases |vs|
  {
    if |vs| > 0 {
      NotKeyUnvisited(vs[..|vs| - 1], s);
    }
  }

  /** How one more visit changes the keys, counts and names. */
  lemma VisitStep(vs: seq<Visit>, v: Visit)
    ensures Keys(vs + [v]) == if v.slot in Keys(vs) then Keys(vs) else Keys(vs) + [v.slot]
    ensures forall s :: CountIn(vs + [v], s) == CountIn(vs, s) + (if v.slot == s then 1 else 0)
    ensures forall s :: NamesIn(vs + [v], s) == NamesIn(vs, s) + (if v.slot == s then [v.name] else [])
  {
    assert (vs + [v])[..|vs|] == vs;
  }

  /** The dictionary after visiting `v`: the entry is created if absent, then counted. */
  lemma TracksStep(slotCounts: map<string, Counts>, order: seq<string>, visited: seq<Visit>, v: Visit,
                   slotCounts': map<string, Counts>, order': seq<string>)
    requires Tracks(slotCounts, order, visited)
    requires order' == if v.slot in slotCounts then order else order + [v.slot]
    requires var c := if v.slot in slotCounts then slotCounts[v.slot] else Counts(0, []);
      slotCounts' == slotCounts[v.slot := Counts(c.count + 1, c.participants + [v.name])]
    ensures Tracks(slotCounts', order', visited + [v])
  {
    if v.slot !in slotCounts {
      NotKeyUnvisited(visited, v.slot);
    }
    VisitStep(visited, v);
  }

  /** `Object.entries(slotCounts).map(...)` over the keys in insertion order. */
  function Entries(slotCounts: map<string, Counts>, order: seq<string>, total: nat): (r: seq<SlotStat>)
    requires total > 0
    requires forall k :: 0 <= k < |order| ==> order[k] in slotCounts
  {
    seq(|order|, k requires 0 <= k < |order| && order[k] in slotCounts =>
      SlotStat(order[k], slotCounts[order[k]].count, slotCounts[order[k]].participants,
               Percentage(slotCounts[order[k]].count, total)))
  }

  lemma TracksEntries(slotCounts: map<string, Counts>, order: seq<string>, visited: seq<Visit>, total: nat)
    requires total > 0
    requires Tracks(slotCounts, order, visited)
    ensures forall k :: 0 <= k < |order| ==> order[k] in slotCounts
    ensures Entries(slotCounts, order, total) == Tally(visited, total)
  {
    assert forall k :: 0 <= k < |order| ==> order[k] in order;
  }

  /**
   * `getOverlappingSlots` after the participant fetch: no participants give
   * no entries; otherwise the nested walk fills `slotCounts`, the entries are
   * listed in key order with their percentage and then ranked.
   */
  method GetOverlappingSlots(participants: seq<Participant>) returns (results: seq<SlotStat>)
    ensures results == Overlapping(participants)
  {
    if |participants| == 0 {
      return [];
    }
    var slotCounts: map<string, Counts> := map[];
    var order: seq<string> := [];
    ghost var visited: seq<Visit> := [];
    for i := 0 to |participants|
      invariant visited == AllVisits(participants[..i])
      invariant Tracks(slotCounts, order, visited)
    {
      slotCounts, order, visited := CountParticipant(slotCounts, order, visited, participants[i]);
      assert participants[..i + 1][..i] == participants[..i];
    }
    assert participants[..|participants|] == participants;
    TracksEntries(slotCounts, order, visited, |participants|);
    results := SortByRank(Entries(slotCounts, order, |participants|));
  }

  /**
   * The outer `forEach` callback for one participant: each slot of
   * `availableSlots || []` gets its entry created if absent, then counted
   * and given the participant's name. `order` is the dictionary's key order.
   */
  method CountParticipant(slotCounts: map<string, Counts>, order: seq<string>, ghost visited: seq<Visit>, participant: Participant)
    returns (slotCounts': map<string, Counts>, order': seq<string>, ghost visited': seq<Visit>)
    requires Tracks(slotCounts, order, visited)
    ensures visited' == visited + Visits(participant)
    ensures Tracks(slotCounts', order', visited')
  {
    slotCounts', order', visited' := slotCounts, order, visited;
    var slots := SlotsOf(participant);
    for j := 0 to |slots|
      invariant visited' == visited + Visits(participant)[..j]
      invariant Tracks(slotCounts', order', visited')
    {
      var slot := slots[j];
      ghost var before, orderBefore := slotCounts', order';
      if slot !in slotCounts' {
        slotCounts' := slotCounts'[slot := Counts(0, [])];
        order' := order' + [slot];
      }
      var c := slotCounts'[slot];
      slotCounts' := slotCounts'[slot := Counts(c.count + 1, c.participants + [participant.name])];
      TracksStep(before, orderBefore, visited', Visit(slot, participant.name), slotCounts', order');
      assert Visits(participant)[..j + 1] == Visits(participant)[..j] + [Visit(slot, participant.name)];
      visited' := visited' + [Visit(slot, participant.name)];
    }
    assert Visits(participant)[..|slots|] == Visits(participant);
  }

  // ---------------------------------------------------------------------------
  // What the aggregation promises

  /** `name` repeated `n` times. */
  function Repeat(name: string, n: nat): (r: seq<string>)
    ensures |r| == n
    ensures forall i :: 0 <= i < n ==> r[i] == name
  {
    seq(n, _ => name)
  }

  /** The number of times `s` occurs in the participants' lists, summed. */
  function Occurrences(ps: seq<Participant>, s: string): nat {
    if |ps| == 0 then 0 else Occurrences(ps[..|ps| - 1], s) + multiset(SlotsOf(ps[|ps| - 1]))[s]
  }

  /** Each participant's name once per occurrence of `s` in their list, participants in order. */
  function NamesFor(ps: seq<Participant>, s: string): seq<string> {
    if |ps| == 0 then []
    else NamesFor(ps[..|ps| - 1], s) + Repeat(ps[|ps| - 1].name, multiset(SlotsOf(ps[|ps| - 1]))[s])
  }

  lemma {:induction false} CountAppend(a: seq<Visit>, b: seq<Visit>, s: string)
    ensures CountIn(a + b, s) == CountIn(a, s) + CountIn(b, s)
    ensures NamesIn(a + b, s) == NamesIn(a, s) + NamesIn(b, s)
    decreases |b|
  {
    if |b| == 0 {
      assert a + b == a;
    } else {
      var b' := b[..|b| - 1];
      assert (a + b)[..|a + b| - 1] == a + b';
      assert (a + b)[|a + b| - 1] == b[|b| - 1];
      CountAppend(a, b', s);
    }
  }

  lemma {:induction false} CountVisitsOf(slots: seq<string>, name: string, s: string)
    ensures CountIn(VisitsOf(slots, name), s) == multiset(slots)[s]
    ensures NamesIn(VisitsOf(slots, name), s) == Repeat(name, multiset(slots)[s])
    decreases |slots|
  {
    if |slots| > 0 {
      var init := slots[..|slots| - 1];
      assert VisitsOf(slots, name)[..|slots| - 1] == VisitsOf(init, name);
      assert slots == init + [slots[|slots| - 1]];
      CountVisitsOf(init, name, s);
    }
  }

  /** The count and the names of a slot, in terms of the participants' lists alone. */
  lemma {:induction false} CountAll(ps: seq<Participant>, s: string)
    ensures CountIn(AllVisits(ps), s) == Occurrences(ps, s)
    ensures NamesIn(AllVisits(ps), s) == NamesFor(ps, s)
    decreases |ps|
  {
    if |ps| > 0 {
      var last := ps[|ps| - 1];
      CountAll(ps[..|ps| - 1], s);
      CountAppend(AllVisits(ps[..|ps| - 1]), Visits(last), s);
      CountVisitsOf(SlotsOf(last), last.name, s);
    }
  }

  /** `count` and `participants.length` never drift apart. */
  lemma {:induction false} CountIsNames(vs: seq<Visit>, s: string)
    ensures CountIn(vs, s) == |NamesIn(vs, s)|
    decreases |vs|
  {
    if |vs| > 0 {
      CountIsNames(vs[..|vs| - 1], s);
    }
  }

  /** A slot is a key exactly when it was visited at least once. */
  lemma {:induction false} KeysIff(vs: seq<Visit>, s: string)
    ensures s in Keys(vs) <==> CountIn(vs, s) > 0
    decreases |vs|
  {
    if |vs| > 0 {
      KeysIff(vs[..|vs| - 1], s);
    }
  }

  /** Each key is listed once. */
  lemma {:induction false} KeysDistinct(vs: seq<Visit>)
    ensures forall i, j :: 0 <= i < j < |Keys(vs)| ==> Keys(vs)[i] != Keys(vs)[j]
    decreases |vs|
  {
    if |vs| > 0 {
      KeysDistinct(vs[..|vs| - 1]);
    }
  }

  lemma {:induction false} OccurrencesIff(ps: seq<Participant>, s: string)
    ensures Occurrences(ps, s) > 0 <==> exists q :: 0 <= q < |ps| && s in SlotsOf(ps[q])
    decreases |ps|
  {
    if |ps| > 0 {
      var init := ps[..|ps| - 1];
      OccurrencesIff(init, s);
      assert s in SlotsOf(ps[|ps| - 1]) <==> multiset(SlotsOf(ps[|ps| - 1]))[s] > 0;
      if exists q :: 0 <= q < |ps| && s in SlotsOf(ps[q]) {
        var q :| 0 <= q < |ps| && s in SlotsOf(ps[q]);
        if q < |init| {
          assert init[q] == ps[q];
        }
      }
      if exists q :: 0 <= q < |init| && s in SlotsOf(init[q]) {
        var q :| 0 <= q < |init| && s in SlotsOf(init[q]);
        assert ps[q] == init[q];
      }
    }
  }

  lemma OverlappingEmpty()
    ensures Overlapping([]) == []
  {
  }

  /** Some entry of `r` is for slot `s`. */
  predicate Lists(r: seq<SlotStat>, s: string) {
    exists k :: 0 <= k < |r| && r[k].slotId == s
  }

  /** Some participant picked slot `s`. */
  predicate Picked(ps: seq<Participant>, s: string) {
    exists q :: 0 <= q < |ps| && s in SlotsOf(ps[q])
  }

  /** Every ranked entry is the tally entry of its own slot, a key of the dictionary. */
  lemma RankedEntries(ps: seq<Participant>)
    requires |ps| > 0
    ensures forall e :: e in Overlapping(ps) ==> e == Entry(AllVisits(ps), e.slotId, |ps|) && e.slotId in Keys(AllVisits(ps))
  {
    var t := Tally(AllVisits(ps), |ps|);
    forall e | e in Overlapping(ps)
      ensures e == Entry(AllVisits(ps), e.slotId, |ps|) && e.slotId in Keys(AllVisits(ps))
    {
      assert e in multiset(t);
    }
  }

  /** The ranked list names exactly the slots that someone picked. */
  lemma ListsIffPicked(ps: seq<Participant>, s: string)
    requires |ps| > 0
    ensures Lists(Overlapping(ps), s) <==> Picked(ps, s)
  {
    var vs := AllVisits(ps);
    var t := Tally(vs, |ps|);
    var r := Overlapping(ps);
    KeysIff(vs, s);
    CountAll(ps, s);
    OccurrencesIff(ps, s);
    if s in Keys(vs) {
      var i :| 0 <= i < |Keys(vs)| && Keys(vs)[i] == s;
      assert t[i] in multiset(r);
      var k :| 0 <= k < |r| && r[k] == t[i];
      assert r[k].slotId == s;
    }
    if Lists(r, s) {
      RankedEntries(ps);
      var k :| 0 <= k < |r| && r[k].slotId == s;
      assert r[k] in r;
    }
  }

  /**
   * Each entry's count is the number of times its slot occurs across all
   * lists, equal to the number of names, which are the pickers' names in
   * participant order; its percentage is the rounded share of everyone fetched.
   */
  lemma EntryFields(ps: seq<Participant>, k: nat)
    requires |ps| > 0 && k < |Overlapping(ps)|
    ensures var e := Overlapping(ps)[k];
      && e.count == Occurrences(ps, e.slotId) == |e.participants|
      && e.participants == NamesFor(ps, e.slotId)
      && e.percentage == Percentage(e.count, |ps|)
  {
    var e := Overlapping(ps)[k];
    RankedEntries(ps);
    assert e in Overlapping(ps);
    CountAll(ps, e.slotId);
    CountIsNames(AllVisits(ps), e.slotId);
  }

  /**
   * The result lists every slot some participant picked, and nothing else,
   * each once, with the counts, names and percentages of `EntryFields`, ranked.
   */
  lemma OverlappingCorrect(ps: seq<Participant>)
    requires |ps| > 0
    ensures var r := Overlapping(ps);
      && Ranked(r)
      && DistinctIds(r)
      && (forall s :: Lists(r, s) <==> Picked(ps, s))
      && (forall k :: 0 <= k < |r| ==>
            r[k].count == Occurrences(ps, r[k].slotId) == |r[k].participants|
            && r[k].participants == NamesFor(ps, r[k].slotId)
            && r[k].percentage == Percentage(r[k].count, |ps|))
  {
    var r := Overlapping(ps);
    KeysDistinct(AllVisits(ps));
    SortDistinct(Tally(AllVisits(ps), |ps|));
    forall s ensures Lists(r, s) <==> Picked(ps, s) {
      ListsIffPicked(ps, s);
    }
    forall k | 0 <= k < |r|
      ensures r[k].count == Occurrences(ps, r[k].slotId) == |r[k].participants|
      ensures r[k].participants == NamesFor(ps, r[k].slotId)
      ensures r[k].percentage == Percentage(r[k].count, |ps|)
    {
      EntryFields(ps, k);
    }
  }

  /** Slots that tie on count and percentage keep the order of first selection. */
  lemma OverlappingStable(ps: seq<Participant>, count: nat, percentage: int)
    requires |ps| > 0
    ensures Tier(Overlapping(ps), count, percentage) == Tier(Tally(AllVisits(ps), |ps|), count, percentage)
  {
    SortTier(Tally(AllVisits(ps), |ps|), count, percentage);
  }

  lemma MulLe(d: int, a: int, b: int)
    requires d >= 0 && a <= b
    ensures d * a <= d * b
  {
    var k := b - a;
    assert d * b == d * a + d * k;
  }

  /** Out of `total` participants, `count <= total` gives 0..100, and at least 1 once `count` is half a percent. */
  lemma PercentageBounds(count: nat, total: nat)
    requires 0 < total && count <= total
    ensures 0 <= Percentage(count, total) <= 100
    ensures Percentage(count, total) >= 1 <==> 200 * count >= total
    ensures count == total ==> Percentage(count, total) == 100
  {
    var r := Percentage(count, total);
    var d := 2 * total;
    assert d * r <= 200 * count + total < d * (r + 1);
    if r > 100 {
      MulLe(d, 101, r);
      assert false;
    }
    if r < 0 {
      MulLe(d, r + 1, 0);
      assert false;
    }
    if r >= 1 {
      MulLe(d, 1, r);
    } else {
      assert r == 0;
    }
    if count == total {
      if r < 100 {
        MulLe(d, r + 1, 100);
        assert false;
      }
    }
  }

  predicate NoDuplicates(xs: seq<string>) {
    forall i, j :: 0 <= i < j < |xs| ==> xs[i] != xs[j]
  }

  lemma {:induction false} NoDuplicatesOnce(xs: seq<string>, s: string)
    requires NoDuplicates(xs)
    ensures multiset(xs)[s] <= 1
    decreases |xs|
  {
    if |xs| > 0 {
      var init := xs[..|xs| - 1];
      assert xs == init + [xs[|xs| - 1]];
      NoDuplicatesOnce(init, s);
    }
  }

  /** With duplicate-free lists a slot occurs at most once per participant. */
  lemma {:induction false} OccurrencesAtMost(ps: seq<Participant>, s: string)
    requires forall q :: 0 <= q < |ps| ==> NoDuplicates(SlotsOf(ps[q]))
    ensures Occurrences(ps, s) <= |ps|
    decreases |ps|
  {
    if |ps| > 0 {
      OccurrencesAtMost(ps[..|ps| - 1], s);
      NoDuplicatesOnce(SlotsOf(ps[|ps| - 1]), s);
    }
  }

  lemma EntryBounds(ps: seq<Participant>, k: nat)
    requires |ps| > 0 && k < |Overlapping(ps)|
    requires forall q :: 0 <= q < |ps| ==> NoDuplicates(SlotsOf(ps[q]))
    ensures var e := Overlapping(ps)[k];
      1 <= e.count <= |ps| && 0 <= e.percentage <= 100 && (e.percentage >= 1 <==> 200 * e.count >= |ps|)
  {
    var e := Overlapping(ps)[k];
    EntryFields(ps, k);
    RankedEntries(ps);
    assert e in Overlapping(ps);
    KeysIff(AllVisits(ps), e.slotId);
    OccurrencesAtMost(ps, e.slotId);
    PercentageBounds(e.count, |ps|);
  }

  /**
   * When nobody lists a slot twice, every percentage lies in 0..100 and is
   * at least 1 exactly when the count reaches half a percent of everyone;
   * with at most 200 participants that is always the case.
   */
  lemma OverlappingPercentRange(ps: seq<Participant>)
    requires |ps| > 0
    requires forall q :: 0 <= q < |ps| ==> NoDuplicates(SlotsOf(ps[q]))
    ensures var r := Overlapping(ps);
      forall k :: 0 <= k < |r| ==>
        1 <= r[k].count <= |ps| && 0 <= r[k].percentage <= 100
        && (r[k].percentage >= 1 <==> 200 * r[k].count >= |ps|)
    ensures |ps| <= 200 ==> forall k :: 0 <= k < |Overlapping(ps)| ==> Overlapping(ps)[k].percentage >= 1
  {
    var r := Overlapping(ps);
    forall k | 0 <= k < |r|
      ensures 1 <= r[k].count <= |ps| && 0 <= r[k].percentage <= 100
      ensures r[k].percentage >= 1 <==> 200 * r[k].count >= |ps|
    {
      EntryBounds(ps, k);
    }
  }

  /**
   * Two participants: the first picks slots `a` and `b`, the second only
   * `a`. Then `a` has both names and 100%, `b` the first name and 50%, in
   * that order.
   */
  lemma TwoParticipantsExample(a: string, b: string, n1: string, n2: string, id1: string, id2: string)
    requires a != b
    ensures Overlapping([Participant(id1, n1, Some([a, b])), Participant(id2, n2, Some([a]))])
      == [SlotStat(a, 2, [n1, n2], 100), SlotStat(b, 1, [n1], 50)]
  {
    TwoParticipantsVisits(a, b, n1, n2, id1, id2);
    TwoParticipantsTally(a, b, n1, n2);
    TwoParticipantsRank(SlotStat(a, 2, [n1, n2], 100), SlotStat(b, 1, [n1], 50));
  }

  lemma TwoParticipantsVisits(a: string, b: string, n1: string, n2: string, id1: string, id2: string)
    ensures AllVisits([Participant(id1, n1, Some([a, b])), Participant(id2, n2, Some([a]))])
      == [Visit(a, n1), Visit(b, n1), Visit(a, n2)]
  {
    var p1, p2 := Participant(id1, n1, Some([a, b])), Participant(id2, n2, Some([a]));
    assert [p1, p2][..1] == [p1] && [p1][..0] == [];
    assert AllVisits([p1]) == [Visit(a, n1), Visit(b, n1)];
  }

  lemma TwoParticipantsRank(ea: SlotStat, eb: SlotStat)
    requires ea.count > eb.count
    ensures SortByRank([ea, eb]) == [ea, eb]
  {
    assert [ea, eb][1..] == [eb];
    assert SortByRank([eb]) == [eb];
  }

  lemma TwoSlotsFirst(a: string, b: string, n1: string)
    requires a != b
    ensures var vs := [Visit(a, n1), Visit(b, n1)];
      Keys(vs) == [a, b] && CountIn(vs, a) == 1 && NamesIn(vs, a) == [n1] && CountIn(vs, b) == 1 && NamesIn(vs, b) == [n1]
  {
    VisitStep([], Visit(a, n1));
    assert [] + [Visit(a, n1)] == [Visit(a, n1)];
    VisitStep([Visit(a, n1)], Visit(b, n1));
    assert [Visit(a, n1)] + [Visit(b, n1)] == [Visit(a, n1), Visit(b, n1)];
  }

  lemma TwoSlotsVisits(a: string, b: string, n1: string, n2: string)
    requires a != b
    ensures var vs := [Visit(a, n1), Visit(b, n1), Visit(a, n2)];
      Keys(vs) == [a, b] && CountIn(vs, a) == 2 && NamesIn(vs, a) == [n1, n2] && CountIn(vs, b) == 1 && NamesIn(vs, b) == [n1]
  {
    TwoSlotsFirst(a, b, n1);
    VisitStep([Visit(a, n1), Visit(b, n1)], Visit(a, n2));
    assert [Visit(a, n1), Visit(b, n1)] + [Visit(a, n2)] == [Visit(a, n1), Visit(b, n1), Visit(a, n2)];
  }

  lemma TwoParticipantsTally(a: string, b: string, n1: string, n2: string)
    requires a != b
    ensures Tally([Visit(a, n1), Visit(b, n1), Visit(a, n2)], 2) == [SlotStat(a, 2, [n1, n2], 100), SlotStat(b, 1, [n1], 50)]
  {
    var vs := [Visit(a, n1), Visit(b, n1), Visit(a, n2)];
    TwoSlotsVisits(a, b, n1, n2);
    assert Percentage(2, 2) == 100 && Percentage(1, 2) == 50;
    assert Entry(vs, a, 2) == SlotStat(a, 2, [n1, n2], 100);
    assert Entry(vs, b, 2) == SlotStat(b, 1, [n1], 50);
  }

  lemma RepeatedVisits(a: string, n: string)
    ensures var vs := [Visit(a, n), Visit(a, n)];
      Keys(vs) == [a] && CountIn(vs, a) == 2 && NamesIn(vs, a) == [n, n]
  {
    VisitStep([], Visit(a, n));
    assert [] + [Visit(a, n)] == [Visit(a, n)];
    VisitStep([Visit(a, n)], Visit(a, n));
    assert [Visit(a, n)] + [Visit(a, n)] == [Visit(a, n), Visit(a, n)];
  }

  /** A list that repeats a slot counts it twice: one participant then gets 200%. */
  lemma RepeatedSlotExample(a: string, n: string, id: string)
    ensures Overlapping([Participant(id, n, Some([a, a]))]) == [SlotStat(a, 2, [n, n], 200)]
  {
    var p := Participant(id, n, Some([a, a]));
    assert [p][..0] == [];
    var vs := [Visit(a, n), Visit(a, n)];
    assert AllVisits([p]) == vs;
    RepeatedVisits(a, n);
    assert Percentage(2, 1) == 200;
    assert Entry(vs, a, 1) == SlotStat(a, 2, [n, n], 200);
    assert Tally(vs, 1) == [SlotStat(a, 2, [n, n], 200)];
  }
}
