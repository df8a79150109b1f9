/**
 * A vocabulary word and its review history. The history is append-only:
 * reviews add one timestamped success or failure event at the end, and every
 * query (last success time, last failure time, number of successes, whether
 * the last review succeeded, whether the word is new) is derived from it.
 */
module Words {
  import opened Wrappers
  import opened Lists

  /** The outcome of one review: Python's event types "success" and "unsuccess". */
  datatype EventType = SuccessEvent | UnsuccessEvent

  /** One review: the whole-second time it happened and its outcome. */
  datatype Event = Event(time: nat, eventType: EventType)

  /**
   * A word: its text, its review history in chronological order and its
   * corpus frequency (None for a word added by hand).
   */
  datatype Word = Word(value: string, events: seq<Event>, frequency: Option<int>)

  /** A word that has never been reviewed. */
  function NewWord(value: string, frequency: Option<int>): (w: Word)
    ensures IsNew(w) && w.value == value && w.frequency == frequency
  {
    Word(value, [], frequency)
  }

  /**
   * Records a review with the given outcome at time `now`: exactly one event
   * is appended, the earlier events stay as they were, and the text and
   * frequency are untouched.
   */
  function CreateEvent(w: Word, eventType: EventType, now: nat): (w': Word)
    ensures |w'.events| == |w.events| + 1
    ensures w'.events[..|w.events|] == w.events
    ensures w'.events[|w.events|] == Event(now, eventType)
    ensures w'.value == w.value && w'.frequency == w.frequency
  {
    w.(events := w.events + [Event(now, eventType)])
  }

  /**
   * `success`: records a successful review at time `now`. Afterwards the
   * word is not new, its last review succeeded at `now`, it has one success
   * more, and its last failure time is what it was.
   */
  function Success(w: Word, now: nat): (w': Word)
    ensures |w'.events| == |w.events| + 1 && w'.events[..|w.events|] == w.events
    ensures w'.value == w.value && w'.frequency == w.frequency
    ensures !IsNew(w') && LastIsSuccess(w')
    ensures LastSuccessTime(w') == Some(now)
    ensures NumberOfSuccess(w') == NumberOfSuccess(w) + 1
    ensures LastUnsuccessTime(w') == LastUnsuccessTime(w)
  {
    var w' := CreateEvent(w, SuccessEvent, now);
    assert w'.events[..|w'.events| - 1] == w.events;
    w'
  }

  /**
   * `unsuccess`: records a failed review at time `now`. Afterwards the word
   * is not new, its last review did not succeed, its last failure time is
   * `now`, and its number of successes and last success time are what they
   * were.
   */
  function Unsuccess(w: Word, now: nat): (w': Word)
    ensures |w'.events| == |w.events| + 1 && w'.events[..|w.events|] == w.events
    ensures w'.value == w.value && w'.frequency == w.frequency
    ensures !IsNew(w') && !LastIsSuccess(w')
    ensures LastUnsuccessTime(w') == Some(now)
    ensures NumberOfSuccess(w') == NumberOfSuccess(w)
    ensures LastSuccessTime(w') == LastSuccessTime(w)
  {
    var w' := CreateEvent(w, UnsuccessEvent, now);
    assert w'.events[..|w'.events| - 1] == w.events;
    w'
  }

  /**
   * The position of the most recent event of the given type, found by
   * scanning the history from its end; None when there is no such event.
   */
  function LastIndexOf(events: seq<Event>, eventType: EventType): (r: Option<nat>)
    ensures r.Some? ==> r.value < |events| && events[r.value].eventType == eventType
    ensures r.Some? ==> forall j :: r.value < j < |events| ==> events[j].eventType != eventType
    ensures r.None? <==> forall j :: 0 <= j < |events| ==> events[j].eventType != eventType
  {
    if |events| == 0 then None
    else if events[|events| - 1].eventType == eventType then Some(|events| - 1)
    else LastIndexOf(events[..|events| - 1], eventType)
  }

  /** The time of the most recent event of the given type, if any. */
  function LastTimeOf(events: seq<Event>, eventType: EventType): Option<nat> {
    match LastIndexOf(events, eventType)
    case None => None
    case Some(i) => Some(events[i].time)
  }

  /**
   * `get_last_success_time`: None exactly when the word was never answered
   * correctly; otherwise the time of a success after which no success
   * follows.
   */
  function LastSuccessTime(w: Word): (t: Option<nat>)
    ensures t.None? <==> NumberOfSuccess(w) == 0
    ensures t.Some? ==> exists i :: 0 <= i < |w.events| && w.events[i] == Event(t.value, SuccessEvent)
                          && forall j :: i < j < |w.events| ==> w.events[j].eventType != SuccessEvent
  {
    LastTimeOf(w.events, SuccessEvent)
  }

  /**
   * `get_last_unsuccess_time`: None exactly when the word was never answered
   * wrongly; otherwise the time of a failure after which no failure follows.
   */
  function LastUnsuccessTime(w: Word): (t: Option<nat>)
    ensures t.None? <==> CountOf(w.events, UnsuccessEvent) == 0
    ensures t.Some? ==> exists i :: 0 <= i < |w.events| && w.events[i] == Event(t.value, UnsuccessEvent)
                          && forall j :: i < j < |w.events| ==> w.events[j].eventType != UnsuccessEvent
  {
    LastTimeOf(w.events, UnsuccessEvent)
  }

  /** The number of events of the given type. */
  function CountOf(events: seq<Event>, eventType: EventType): (n: nat)
    ensures n <= |events|
    ensures n == 0 <==> forall j :: 0 <= j < |events| ==> events[j].eventType != eventType
  {
    if |events| == 0 then 0
    else
      var init := events[..|events| - 1];
      assert forall j :: 0 <= j < |init| ==> init[j] == events[j];
      CountOf(init, eventType) + (if events[|events| - 1].eventType == eventType then 1 else 0)
  }

  /** `number_of_success`: the length of the list of the word's success events. */
  function NumberOfSuccess(w: Word): (n: nat)
    ensures n == |Filter(HasType(SuccessEvent), w.events)|
    ensures n <= |w.events|
  {
    CountIsFilterLength(w.events, SuccessEvent);
    CountOf(w.events, SuccessEvent)
  }

  /**
   * `last_is_success`: the word has been reviewed and its latest review
   * succeeded. Then it has at least one success, and its last success time
   * is the time of its final event.
   */
  predicate LastIsSuccess(w: Word)
    ensures LastIsSuccess(w) ==>
              NumberOfSuccess(w) >= 1 && LastSuccessTime(w) == Some(w.events[|w.events| - 1].time)
  {
    |w.events| > 0 && w.events[|w.events| - 1].eventType == SuccessEvent
  }

  /** `is_new`: the word has never been reviewed, so it has neither a last success nor a last failure time. */
  predicate IsNew(w: Word)
    ensures IsNew(w) <==> LastSuccessTime(w).None? && LastUnsuccessTime(w).None?
  {
    assert |w.events| > 0 ==>
      LastTimeOf(w.events, w.events[|w.events| - 1].eventType).Some?;
    |w.events| == 0
  }

  /** The outcome test of `number_of_success`'s comprehension. */
  function HasType(eventType: EventType): Event -> bool {
    (e: Event) => e.eventType == eventType
  }

  /**
   * Counting from the end of the history agrees with the length of the list
   * of matching events built from its start.
   */
  lemma {:induction false} CountIsFilterLength(events: seq<Event>, eventType: EventType)
    ensures CountOf(events, eventType) == |Filter(HasType(eventType), events)|
  {
    if |events| > 0 {
      var init := events[..|events| - 1];
      var last := events[|events| - 1];
      CountIsFilterLength(init, eventType);
      assert events == init + [last];
      FilterAppend(HasType(eventType), init, [last]);
      assert [last][1..] == [];
      assert Filter(HasType(eventType), [last]) == (if last.eventType == eventType then [last] else []) + Filter(HasType(eventType), []);
    }
  }

  /** Every event is either a success or a failure, so the two counts add up to the history's length. */
  lemma {:induction false} CountsCoverHistory(events: seq<Event>)
    ensures CountOf(events, SuccessEvent) + CountOf(events, UnsuccessEvent) == |events|
  {
    if |events| > 0 {
      CountsCoverHistory(events[..|events| - 1]);
    }
  }

  /**
   * For every word exactly one of three things holds: it is new, its last
   * review succeeded, or it has been reviewed and its last review failed.
   * In the last case the most recent failure is the final event of the
   * history.
   */
  lemma Trichotomy(w: Word)
    ensures IsNew(w) ==> !LastIsSuccess(w)
    ensures !IsNew(w) && !LastIsSuccess(w) ==>
              w.events[|w.events| - 1].eventType == UnsuccessEvent
              && LastUnsuccessTime(w) == Some(w.events[|w.events| - 1].time)
  {
  }
}
