/**
 * src/components/TimezoneSelect.tsx: the searchable zone list. The list
 * of zone names comes from the runtime and is a constructor parameter.
 */
module TimezoneSelect {
  import opened Text
  import opened Lists

  /** The filter callback: the lower-cased zone contains the lower-cased, untrimmed term. */
  function MatchesTerm(searchTerm: string): string -> bool {
    zone => Contains(ToLower(zone), ToLower(searchTerm))
  }

  /** The search effect: a blank term shows every zone, any other term filters. */
  function FilterTimezones(timezones: seq<string>, searchTerm: string): seq<string> {
    if Trim(searchTerm) == "" then timezones else Filter(timezones, MatchesTerm(searchTerm))
  }

  /** A term of white space only shows the whole list in its order. */
  lemma BlankShowsAll(timezones: seq<string>, searchTerm: string)
    requires forall i :: 0 <= i < |searchTerm| ==> IsWhitespace(searchTerm[i])
    ensures FilterTimezones(timezones, searchTerm) == timezones
  {
    TrimEmptyIff(searchTerm);
  }

  /**
   * Any other term lists each zone from the list that matches and nothing
   * else, keeping the list's order and multiplicity.
   */
  lemma SearchSoundComplete(a: seq<string>, b: seq<string>, searchTerm: string, zone: string)
    requires exists i :: 0 <= i < |searchTerm| && !IsWhitespace(searchTerm[i])
    ensures var r := FilterTimezones(a + b, searchTerm);
      && (forall i :: 0 <= i < |r| ==> r[i] in a + b && Contains(ToLower(r[i]), ToLower(searchTerm)))
      && (forall i :: 0 <= i < |a + b| && Contains(ToLower((a + b)[i]), ToLower(searchTerm)) ==> (a + b)[i] in r)
      && multiset(r)[zone] == (if Contains(ToLower(zone), ToLower(searchTerm)) then multiset(a + b)[zone] else 0)
      && r == FilterTimezones(a, searchTerm) + FilterTimezones(b, searchTerm)
  {
    TrimEmptyIff(searchTerm);
    var keep := MatchesTerm(searchTerm);
    assert forall i :: 0 <= i < |a + b| ==> keep((a + b)[i]) == Contains(ToLower((a + b)[i]), ToLower(searchTerm));
    FilterCounts(a + b, keep, zone);
    FilterAppend(a, b, keep);
  }

  lemma LowerKeepsWhitespace(s: string)
    ensures (forall i :: 0 <= i < |s| ==> IsWhitespace(s[i])) <==> (forall i :: 0 <= i < |ToLower(s)| ==> IsWhitespace(ToLower(s)[i]))
  {
    forall i | 0 <= i < |s|
      ensures IsWhitespace(s[i]) == IsWhitespace(ToLower(s)[i])
    {
      assert ToLower(s)[i] == LowerChar(s[i]);
    }
  }

  /** The search ignores the case of the term. */
  lemma SearchIgnoresCase(timezones: seq<string>, searchTerm: string)
    ensures FilterTimezones(timezones, ToLower(searchTerm)) == FilterTimezones(timezones, searchTerm)
  {
    TrimEmptyIff(searchTerm);
    TrimEmptyIff(ToLower(searchTerm));
    LowerKeepsWhitespace(searchTerm);
    ToLowerIdempotent(searchTerm);
    FilterAgree(timezones, MatchesTerm(ToLower(searchTerm)), MatchesTerm(searchTerm));
  }

  /** The component's state. */
  class ZonePicker {
    const timezones: seq<string>
    var searchTerm: string
    var isOpen: bool
    var filteredTimezones: seq<string>

    /** The list shown is always the search effect's result for the current term. */
    predicate Valid()
      reads this
    {
      filteredTimezones == FilterTimezones(timezones, searchTerm)
    }

    /** The mounted component: empty term, closed, the effect has shown every zone. */
    constructor(zones: seq<string>)
      ensures timezones == zones && searchTerm == "" && !isOpen
      ensures filteredTimezones == zones && Valid()
    {
      timezones := zones;
      searchTerm := "";
      isOpen := false;
      filteredTimezones := zones;
    }

    /** Typing in the search field, followed by the effect. */
    method SetSearchTerm(term: string)
      requires Valid()
      modifies this
      ensures searchTerm == term && isOpen == old(isOpen)
      ensures filteredTimezones == FilterTimezones(timezones, term) && Valid()
    {
      searchTerm := term;
      if Trim(searchTerm) == "" {
        filteredTimezones := timezones;
      } else {
        filteredTimezones := Filter(timezones, MatchesTerm(searchTerm));
      }
    }

    /** Clicking the field flips the list open or shut. */
    method ToggleOpen()
      requires Valid()
      modifies this
      ensures isOpen == !old(isOpen)
      ensures searchTerm == old(searchTerm) && filteredTimezones == old(filteredTimezones) && Valid()
    {
      isOpen := !isOpen;
    }

    /** Clicking a zone hands it to `onChange` and closes the list. */
    method Choose(zone: string) returns (chosen: string)
      requires Valid()
      modifies this
      ensures chosen == zone && !isOpen
      ensures searchTerm == old(searchTerm) && filteredTimezones == old(filteredTimezones) && Valid()
    {
      chosen := zone;
      isOpen := false;
    }
  }
}
