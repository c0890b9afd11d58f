/** The `/suggest-slots` handler (index.js:86-95): the first three slots of a
    list, in their order. */
module Suggest {
  import opened Boundary
  import opened Intervals
  import FreeSlots

  const SuggestionCount := 3

  const MissingFreeSlotsMessage :=
    "Invalid input, 'free_slots' is required and should contain an array of slots."

  function Min(a: int, b: int): int {
    if a < b then a else b
  }

  /** `free_slots.slice(0, 3)` after the input validation of index.js:88-92; the
      elements are passed through untouched, whatever they are. */
  function SuggestSlots<T>(freeSlots: Payload<T>): (r: Response<seq<T>>)
    ensures r.Ok? <==> freeSlots.Array? && |freeSlots.items| > 0
    ensures !r.Ok? ==> r == BadRequest(MissingFreeSlotsMessage)
    ensures r.Ok? ==> |r.body| == Min(SuggestionCount, |freeSlots.items|)
    ensures r.Ok? ==> r.body + freeSlots.items[|r.body|..] == freeSlots.items
  {
    if freeSlots.Absent? || freeSlots.NotArray? || |freeSlots.items| == 0 then
      BadRequest(MissingFreeSlotsMessage)
    else if |freeSlots.items| <= SuggestionCount then
      Ok(freeSlots.items)
    else
      Ok(freeSlots.items[..SuggestionCount])
  }

  /** Suggesting again from the suggestions changes nothing. */
  lemma SuggestIdempotent<T>(freeSlots: Payload<T>)
    requires SuggestSlots(freeSlots).Ok?
    ensures SuggestSlots(Array(SuggestSlots(freeSlots).body)) == SuggestSlots(freeSlots)
  {
  }

  /** The suggestions drawn from a computed free-slot list keep its
      guarantees: they hold no occupied instant and, when the occupied
      intervals are well-formed, they are ascending. */
  lemma SuggestionsAreFree(workDayStart: Instant, workDayEnd: Instant, occupied: seq<Interval>)
    requires FreeSlots.FreeSlots(workDayStart, workDayEnd, occupied) != []
    ensures var s := SuggestSlots(Array(FreeSlots.FreeSlots(workDayStart, workDayEnd, occupied)));
      && s.Ok?
      && (AllWellFormed(occupied) ==> FreeSlots.Ascending(s.body))
      && forall p :: Covered(s.body, p) ==> !Covered(occupied, p)
  {
    var free := FreeSlots.FreeSlots(workDayStart, workDayEnd, occupied);
    var s := SuggestSlots(Array(free)).body;
    assert s == free[..|s|];
    forall p | Covered(s, p)
      ensures !Covered(occupied, p)
    {
      var i :| 0 <= i < |s| && Contains(s[i], p);
      assert Contains(free[i], p);
    }
  }
}
