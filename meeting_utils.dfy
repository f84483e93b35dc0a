/**
 * src/lib/utils.ts: `findExistParticipant`, the case-insensitive lookup of
 * a participant by name, and the first-match search (`Array.prototype.find`)
 * it shares with the store's exact-name signup lookup.
 */
module MeetingUtils {
  import opened Wrappers
  import opened Text
  import opened Types

  /** The index of the first participant `matches` accepts, or `|ps|` when there is none. */
  function FirstIndex(ps: seq<Participant>, matches: Participant -> bool): (r: nat)
    ensures r <= |ps|
    ensures r < |ps| ==> matches(ps[r])
    ensures forall j :: 0 <= j < r ==> !matches(ps[j])
  {
    if |ps| == 0 then 0
    else if matches(ps[0]) then 0
    else 1 + FirstIndex(ps[1..], matches)
  }

  /** `ps.find(matches)`: the first accepted participant, `None` for `undefined`. */
  function Find(ps: seq<Participant>, matches: Participant -> bool): (r: Option<Participant>)
    ensures r.None? <==> forall i :: 0 <= i < |ps| ==> !matches(ps[i])
    ensures r.Some? ==> r.value == ps[FirstIndex(ps, matches)] && matches(r.value)
  {
    var i := FirstIndex(ps, matches);
    if i < |ps| then Some(ps[i]) else None
  }

  lemma {:induction false} FirstIndexAgree(ps: seq<Participant>, f: Participant -> bool, g: Participant -> bool)
    requires forall p :: f(p) == g(p)
    ensures FirstIndex(ps, f) == FirstIndex(ps, g)
    decreases |ps|
  {
    if |ps| > 0 && !f(ps[0]) {
      FirstIndexAgree(ps[1..], f, g);
    }
  }

  /** Two callbacks that agree on every participant find the same one. */
  lemma FindAgree(ps: seq<Participant>, f: Participant -> bool, g: Participant -> bool)
    requires forall p :: f(p) == g(p)
    ensures Find(ps, f) == Find(ps, g)
  {
    FirstIndexAgree(ps, f, g);
  }

  /** The callback of `findExistParticipant`: equal names after lower-casing. */
  function SameNameIgnoringCase(name: string): Participant -> bool {
    (p: Participant) => ToLower(p.name) == ToLower(name)
  }

  /** `findExistParticipant({meeting, name})`; absent participants give `null`. */
  function FindExistParticipant(meeting: Meeting, name: string): (r: Option<Participant>)
    ensures meeting.participants.None? ==> r.None?
    ensures r.Some? ==> meeting.participants.Some? && r.value in meeting.participants.value
    ensures r.Some? ==> ToLower(r.value.name) == ToLower(name)
  {
    match meeting.participants
    case None => None
    case Some(ps) => Find(ps, SameNameIgnoringCase(name))
  }

  /** `ps[i]` is the first participant whose name equals `name` up to case. */
  predicate IsFirstSameName(ps: seq<Participant>, name: string, i: int) {
    && 0 <= i < |ps|
    && ToLower(ps[i].name) == ToLower(name)
    && forall j :: 0 <= j < i ==> ToLower(ps[j].name) != ToLower(name)
  }

  /**
   * A match is the first participant whose name equals the query up to
   * case, and there is none exactly when no name does.
   */
  lemma FindExistParticipantCorrect(meeting: Meeting, name: string)
    requires meeting.participants.Some?
    ensures var ps := meeting.participants.value;
      && (FindExistParticipant(meeting, name).None? <==> forall i :: 0 <= i < |ps| ==> ToLower(ps[i].name) != ToLower(name))
      && (FindExistParticipant(meeting, name).Some? ==>
            exists i :: IsFirstSameName(ps, name, i) && FindExistParticipant(meeting, name) == Some(ps[i]))
  {
    var ps := meeting.participants.value;
    var i := FirstIndex(ps, SameNameIgnoringCase(name));
    if i < |ps| {
      assert IsFirstSameName(ps, name, i);
    }
  }

  /** Queries that differ only in case find the same participant. */
  lemma QueryCaseInvariant(meeting: Meeting, name1: string, name2: string)
    requires ToLower(name1) == ToLower(name2)
    ensures FindExistParticipant(meeting, name1) == FindExistParticipant(meeting, name2)
  {
    if meeting.participants.Some? {
      FindAgree(meeting.participants.value, SameNameIgnoringCase(name1), SameNameIgnoringCase(name2));
    }
  }

  lemma LowerAlice()
    ensures ToLower("Alice") == ToLower("alice") == "alice"
  {
    assert LowerChar('A') == 'a';
  }

  /** "alice" finds the participant named "Alice". */
  lemma AliceExample(id: string)
    ensures var alice := Participant(id, "Alice", None);
      FindExistParticipant(Meeting(None, None, None, None, None, Some([alice])), "alice") == Some(alice)
  {
    var alice := Participant(id, "Alice", None);
    LowerAlice();
    assert SameNameIgnoringCase("alice")(alice);
  }
}
