/** The session's trigger rows: one row per marker, as the events array that the
    EEG reader hands to helper_functions.py. */
module Events {

  /** One row `(sample, previous, code)`: the onset sample, the value of the trigger
      channel before the onset (never read here) and the trigger code. */
  datatype Event = Event(sample: int, previous: int, code: int)

  /** `np.unique(events[:, 2])` as a set: the distinct codes that occur in the session. */
  function ObservedCodes(events: seq<Event>): set<int> {
    set e | e in events :: e.code
  }
}
