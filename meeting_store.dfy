/**
 * src/store/meetingStore.ts: the client store. Each action replaces some of
 * the four store fields; the values the backend returns (new ids) are
 * parameters of the actions, and the awaited service calls are not modelled.
 */
module MeetingStore {
  import opened Wrappers
  import opened Types
  import opened Lists
  import MeetingUtils

  // ---------------------------------------------------------------------------
  // setMeeting: `{ ...state.meeting, ...updatedMeeting }`

  /**
   * A `Partial<Meeting>`: per field, `None` when the key is absent and
   * `Some(v)` when it is supplied (`v` may itself be `null`).
   */
  datatype MeetingPatch = MeetingPatch(
    id: Option<Option<string>>,
    title: Option<Option<string>>,
    description: Option<Option<string>>,
    dates: Option<Option<seq<DateRange>>>,
    resultTimeSlots: Option<Option<seq<string>>>,
    participants: Option<Option<seq<Participant>>>)

  /** The value a spread produces for one key. */
  function Overlay<T>(current: T, given: Option<T>): T {
    match given
    case Some(v) => v
    case None => current
  }

  function ApplyPatch(m: Meeting, patch: MeetingPatch): Meeting {
    Meeting(
      Overlay(m.id, patch.id),
      Overlay(m.title, patch.title),
      Overlay(m.description, patch.description),
      Overlay(m.dates, patch.dates),
      Overlay(m.resultTimeSlots, patch.resultTimeSlots),
      Overlay(m.participants, patch.participants))
  }

  /** Every supplied field is overwritten with the supplied value; every other field is kept. */
  lemma ApplyPatchFields(m: Meeting, patch: MeetingPatch)
    ensures var r := ApplyPatch(m, patch);
      && (if patch.id.Some? then r.id == patch.id.value else r.id == m.id)
      && (if patch.title.Some? then r.title == patch.title.value else r.title == m.title)
      && (if patch.description.Some? then r.description == patch.description.value else r.description == m.description)
      && (if patch.dates.Some? then r.dates == patch.dates.value else r.dates == m.dates)
      && (if patch.resultTimeSlots.Some? then r.resultTimeSlots == patch.resultTimeSlots.value else r.resultTimeSlots == m.resultTimeSlots)
      && (if patch.participants.Some? then r.participants == patch.participants.value else r.participants == m.participants)
  {
  }

  /** A later patch wins over an earlier one, key by key. */
  function Then(first: MeetingPatch, second: MeetingPatch): MeetingPatch {
    MeetingPatch(
      if second.id.Some? then second.id else first.id,
      if second.title.Some? then second.title else first.title,
      if second.description.Some? then second.description else first.description,
      if second.dates.Some? then second.dates else first.dates,
      if second.resultTimeSlots.Some? then second.resultTimeSlots else first.resultTimeSlots,
      if second.participants.Some? then second.participants else first.participants)
  }

  /** Two `setMeeting` calls in a row equal one call with the merged patch. */
  lemma ApplyPatchCompose(m: Meeting, first: MeetingPatch, second: MeetingPatch)
    ensures ApplyPatch(ApplyPatch(m, first), second) == ApplyPatch(m, Then(first, second))
  {
  }

  /** Repeating a `setMeeting` changes nothing more, and the empty patch changes nothing. */
  lemma ApplyPatchIdempotent(m: Meeting, patch: MeetingPatch)
    ensures ApplyPatch(ApplyPatch(m, patch), patch) == ApplyPatch(m, patch)
    ensures ApplyPatch(m, MeetingPatch(None, None, None, None, None, None)) == m
  {
  }

  // ---------------------------------------------------------------------------
  // toggleSlot

  function NotSlot(slotId: string): string -> bool {
    id => id != slotId
  }

  /** `selectedSlots.filter((id) => id !== slotId)`. */
  function WithoutSlot(slots: seq<string>, slotId: string): (r: seq<string>)
    ensures slotId !in r
    ensures forall i :: 0 <= i < |slots| && slots[i] != slotId ==> slots[i] in r
    ensures forall i :: 0 <= i < |r| ==> r[i] in slots
  {
    Filter(slots, NotSlot(slotId))
  }

  /** The new `selectedSlots`: remove every occurrence when `isSelect`, else append. */
  function Toggled(slots: seq<string>, slotId: string, isSelect: bool): seq<string> {
    if isSelect then WithoutSlot(slots, slotId) else slots + [slotId]
  }

  /**
   * Removing an id drops all its occurrences, keeps every other id as often
   * as before and in the same order (removal commutes with concatenation).
   */
  lemma RemoveKeepsOthers(a: seq<string>, b: seq<string>, slotId: string, x: string)
    ensures multiset(Toggled(a, slotId, true))[x] == if x == slotId then 0 else multiset(a)[x]
    ensures Toggled(a + b, slotId, true) == Toggled(a, slotId, true) + Toggled(b, slotId, true)
  {
    FilterCounts(a, NotSlot(slotId), x);
    FilterAppend(a, b, NotSlot(slotId));
  }

  /** Adding puts the id at the end, once, even when it is already there. */
  lemma AddAppends(slots: seq<string>, slotId: string)
    ensures |Toggled(slots, slotId, false)| == |slots| + 1
    ensures multiset(Toggled(slots, slotId, false))[slotId] == multiset(slots)[slotId] + 1
    ensures Toggled(slots, slotId, false)[|slots|] == slotId
  {
  }

  /** Adding an id that was not selected and removing it again restores the list. */
  lemma AddThenRemove(slots: seq<string>, slotId: string)
    requires slotId !in slots
    ensures Toggled(Toggled(slots, slotId, false), slotId, true) == slots
  {
    FilterAppend(slots, [slotId], NotSlot(slotId));
    FilterKeepsAll(slots, NotSlot(slotId));
  }

  /** Removing twice is removing once. */
  lemma RemoveIdempotent(slots: seq<string>, slotId: string)
    ensures Toggled(Toggled(slots, slotId, true), slotId, true) == Toggled(slots, slotId, true)
  {
    FilterIdempotent(slots, NotSlot(slotId));
  }

  // ---------------------------------------------------------------------------
  // updateAvailability and signupMeeting

  /** `participants?.map(p => p.name === name ? { ...p, availableSlots } : p) || []`. */
  function ReplaceSlots(ps: Option<seq<Participant>>, name: string, slots: seq<string>): seq<Participant> {
    match ps
    case None => []
    case Some(list) =>
      seq(|list|, i requires 0 <= i < |list| =>
        if list[i].name == name then list[i].(availableSlots := Some(slots)) else list[i])
  }

  /**
   * Every participant named `name` now holds `slots`, every other participant
   * is untouched, ids and names never change, and the length stays. A `null`
   * list becomes `[]`.
   */
  lemma ReplaceSlotsEffect(ps: Option<seq<Participant>>, name: string, slots: seq<string>)
    ensures ps.None? ==> ReplaceSlots(ps, name, slots) == []
    ensures ps.Some? ==> var r := ReplaceSlots(ps, name, slots);
      && |r| == |ps.value|
      && forall i :: 0 <= i < |r| ==>
        && r[i].id == ps.value[i].id && r[i].name == ps.value[i].name
        && (r[i].name == name ==> SlotsOf(r[i]) == slots)
        && (r[i].name != name ==> r[i] == ps.value[i])
  {
  }

  /** Replacing with the same list twice is replacing once. */
  lemma ReplaceSlotsIdempotent(ps: seq<Participant>, name: string, slots: seq<string>)
    ensures ReplaceSlots(Some(ReplaceSlots(Some(ps), name, slots)), name, slots) == ReplaceSlots(Some(ps), name, slots)
  {
  }

  /** The exact-name callback of `signupMeeting`. */
  function SameName(name: string): Participant -> bool {
    (p: Participant) => p.name == name
  }

  /** The `currentUser` of `signupMeeting`: the first exact-name match, else a new participant with no slots. */
  function SignupUser(ps: Option<seq<Participant>>, name: string, newId: string): (user: Participant)
    ensures user.name == name
    ensures ps.Some? && (exists i :: 0 <= i < |ps.value| && ps.value[i].name == name) ==> user in ps.value
    ensures (ps.None? || forall i :: 0 <= i < |ps.value| ==> ps.value[i].name != name) ==> user == Participant(newId, name, None)
  {
    var found := MeetingUtils.Find(match ps case Some(list) => list case None => [], SameName(name));
    match found
    case Some(p) => p
    case None => Participant(newId, name, None)
  }

  function Appended(ps: Option<seq<Participant>>, user: Participant): (r: seq<Participant>)
    ensures ps.None? ==> r == [user]
    ensures ps.Some? ==> |r| == |ps.value| + 1 && r[..|ps.value|] == ps.value && r[|ps.value|] == user
  {
    match ps
    case Some(list) => list + [user]
    case None => [user]
  }

  /**
   * The lookup is case-sensitive, unlike `findExistParticipant`: a query that
   * differs from a stored name only in case makes a new participant.
   */
  lemma SignupIsCaseSensitive(id: string, newId: string)
    ensures var alice := Participant(id, "Alice", None);
      && SignupUser(Some([alice]), "alice", newId) == Participant(newId, "alice", None)
      && MeetingUtils.FindExistParticipant(Meeting(None, None, None, None, None, Some([alice])), "alice") == Some(alice)
  {
    assert "Alice"[0] != "alice"[0];
    MeetingUtils.AliceExample(id);
  }

  /** Signing up a returning user appends a second copy of them. */
  lemma SignupDuplicatesReturningUser(ps: seq<Participant>, k: nat, newId: string)
    requires k < |ps|
    ensures var r := Appended(Some(ps), SignupUser(Some(ps), ps[k].name, newId));
      exists i :: 0 <= i < |ps| && r[i] == r[|ps|]
  {
    var user := SignupUser(Some(ps), ps[k].name, newId);
    var r := Appended(Some(ps), user);
    var i :| 0 <= i < |ps| && ps[i] == user;
    assert r[i] == ps[i];
  }

  // ---------------------------------------------------------------------------
  // The store

  class Store {
    var meeting: Meeting
    var participants: Option<seq<Participant>>
    var currentUser: Option<Participant>
    /** Typed as a list, but `signupMeeting` may store a new user's absent slot list. */
    var selectedSlots: Option<seq<string>>

    /** The initial state. */
    constructor()
      ensures meeting == Meeting(None, None, None, None, None, None)
      ensures participants.None? && currentUser.None? && selectedSlots == Some([])
    {
      meeting := Meeting(None, None, None, None, None, None);
      participants := None;
      currentUser := None;
      selectedSlots := Some([]);
    }

    method SetMeeting(patch: MeetingPatch)
      modifies this
      ensures meeting == ApplyPatch(old(meeting), patch)
      ensures participants == old(participants) && currentUser == old(currentUser) && selectedSlots == old(selectedSlots)
    {
      meeting := ApplyPatch(meeting, patch);
    }

    /** `createMeeting` once the service has returned `meetingId` and `participantId`. */
    method CreateMeeting(title: Option<string>, description: Option<string>, dates: Option<seq<DateRange>>,
                         name: string, meetingId: string, participantId: string) returns (r: string)
      modifies this
      ensures r == meetingId
      ensures meeting == Meeting(Some(meetingId), title, description, dates, None, None)
      ensures participants == Some([Participant(participantId, name, None)])
      ensures currentUser == Some(Participant(participantId, name, None))
      ensures selectedSlots == old(selectedSlots)
    {
      meeting := Meeting(Some(meetingId), title, description, dates, None, None);
      var organizer := Participant(participantId, name, None);
      participants := Some([organizer]);
      currentUser := Some(organizer);
      r := meetingId;
    }

    /** `fetchMeeting` once the service has returned the meeting and its participants. */
    method FetchMeeting(fetched: Meeting, fetchedParticipants: seq<Participant>)
      modifies this
      ensures meeting == fetched && participants == Some(fetchedParticipants)
      ensures currentUser == old(currentUser) && selectedSlots == old(selectedSlots)
    {
      meeting := fetched;
      participants := Some(fetchedParticipants);
    }

    /**
     * `signupMeeting`; `newId` is what the service would return for a new
     * participant and is used only when no one has the exact name.
     */
    method SignupMeeting(name: string, newId: string)
      modifies this
      ensures var user := SignupUser(old(participants), name, newId);
        && currentUser == Some(user)
        && participants == Some(Appended(old(participants), user))
        && selectedSlots == user.availableSlots
      ensures meeting == old(meeting)
      ensures currentUser.value.name == name
    {
      var list := match participants case Some(ps) => ps case None => [];
      var found := MeetingUtils.Find(list, SameName(name));
      var user := match found case Some(p) => p case None => Participant(newId, name, None);
      currentUser := Some(user);
      participants := Some(match participants case Some(ps) => ps + [user] case None => [user]);
      selectedSlots := user.availableSlots;
    }

    /** `updateAvailability` once the service call has succeeded. */
    method UpdateAvailability(name: string, availableSlots: seq<string>)
      modifies this
      ensures participants == Some(ReplaceSlots(old(participants), name, availableSlots))
      ensures meeting == old(meeting) && currentUser == old(currentUser) && selectedSlots == old(selectedSlots)
    {
      participants := Some(ReplaceSlots(participants, name, availableSlots));
    }

    /**
     * `toggleSlot`. With no slot list stored (a new user's `undefined`),
     * `filter` and the spread throw before `set` runs: `ok` is false and
     * nothing changes.
     */
    method ToggleSlot(slotId: string, isSelect: bool) returns (ok: bool)
      modifies this
      ensures ok <==> old(selectedSlots).Some?
      ensures ok ==> selectedSlots == Some(Toggled(old(selectedSlots).value, slotId, isSelect))
      ensures !ok ==> selectedSlots == old(selectedSlots)
      ensures meeting == old(meeting) && participants == old(participants) && currentUser == old(currentUser)
    {
      match selectedSlots {
        case None =>
          ok := false;
        case Some(slots) =>
          var updateSlots;
          if isSelect {
            updateSlots := WithoutSlot(slots, slotId);
          } else {
            updateSlots := slots + [slotId];
          }
          selectedSlots := Some(updateSlots);
          ok := true;
      }
    }
  }
}
