/** `update_event_ids` of helper_functions.py: restrict a label dict to the codes that
    actually occur in one session. */
module TriggerFilter {
  import opened Dicts
  import opened Events

  /** The items of `d` whose code is in `codes`, in item order. */
  function Restrict(d: Dict, codes: set<int>): Dict
    decreases |d|
  {
    if d == [] then []
    else
      var kept := Restrict(d[..|d| - 1], codes);
      if d[|d| - 1].code in codes then kept + [d[|d| - 1]] else kept
  }

  /** The loop of lines 45-50: walk the items of `eventId` in order and copy those whose
      code occurs in the events. Copying appends, since the keys of a dict are distinct. */
  method UpdateEventIds(events: seq<Event>, eventId: Dict) returns (updated: Dict)
    ensures updated == Restrict(eventId, ObservedCodes(events))
  {
    var triggersUnique := ObservedCodes(events);
    updated := [];
    var i := 0;
    while i < |eventId|
      invariant 0 <= i <= |eventId|
      invariant updated == Restrict(eventId[..i], triggersUnique)
    {
      var item := eventId[i];
      assert eventId[..i + 1][..i] == eventId[..i];
      if item.code in triggersUnique {
        updated := updated + [item];
      }
      i := i + 1;
    }
    assert eventId[..i] == eventId;
  }

  /** An item survives the filter exactly when it is an item of `d` whose code is kept. */
  lemma {:induction false} RestrictMembers(d: Dict, codes: set<int>, e: Entry)
    ensures e in Restrict(d, codes) <==> e in d && e.code in codes
    decreases |d|
  {
    if d != [] {
      var front := d[..|d| - 1];
      RestrictMembers(front, codes, e);
      assert d == front + [d[|d| - 1]];
    }
  }

  /** The filter never returns more items than it is given. */
  lemma {:induction false} RestrictShrinks(d: Dict, codes: set<int>)
    ensures |Restrict(d, codes)| <= |d|
    decreases |d|
  {
    if d != [] {
      RestrictShrinks(d[..|d| - 1], codes);
    }
  }

  /** The result is itself a dict: no key occurs twice. */
  lemma {:induction false} RestrictKeysDistinct(d: Dict, codes: set<int>)
    requires KeysDistinct(d)
    ensures KeysDistinct(Restrict(d, codes))
    decreases |d|
  {
    if d != [] {
      var front := d[..|d| - 1];
      var last := d[|d| - 1];
      assert KeysDistinct(front) by {
        forall i, j | 0 <= i < j < |front| ensures front[i].key != front[j].key {
          assert front[i] == d[i] && front[j] == d[j];
        }
      }
      RestrictKeysDistinct(front, codes);
      var kept := Restrict(front, codes);
      if last.code in codes {
        forall i | 0 <= i < |kept| ensures kept[i].key != last.key {
          RestrictMembers(front, codes, kept[i]);
          var j :| 0 <= j < |front| && front[j] == kept[i];
          assert d[j] == kept[i];
        }
        assert KeysDistinct(kept + [last]) by {
          forall i, j | 0 <= i < j < |kept + [last]| ensures (kept + [last])[i].key != (kept + [last])[j].key {
            if j < |kept| {
              assert (kept + [last])[i] == kept[i] && (kept + [last])[j] == kept[j];
            } else {
              assert (kept + [last])[i] == kept[i] && (kept + [last])[j] == last;
            }
          }
        }
      }
    }
  }

  /** As a dict, the result is `d` restricted to the kept codes: a lookup finds what it
      finds in `d` when that code is kept, and raises KeyError otherwise. */
  lemma RestrictGet(d: Dict, codes: set<int>, key: string)
    requires KeysDistinct(d)
    ensures Get(Restrict(d, codes), key)
            == if Get(d, key).Some? && Get(d, key).value in codes then Get(d, key) else None
  {
    var r := Restrict(d, codes);
    RestrictKeysDistinct(d, codes);
    match Get(r, key)
    case Some(c) =>
      GetIff(r, key, c);
      RestrictMembers(d, codes, Entry(key, c));
      GetIff(d, key, c);
    case None =>
      if Get(d, key).Some? && Get(d, key).value in codes {
        var c := Get(d, key).value;
        GetIff(d, key, c);
        RestrictMembers(d, codes, Entry(key, c));
        GetIff(r, key, c);
      }
  }

  /** Filtering twice with the same session is filtering once. */
  lemma {:induction false} RestrictIdempotent(d: Dict, codes: set<int>)
    ensures Restrict(Restrict(d, codes), codes) == Restrict(d, codes)
    decreases |d|
  {
    if d != [] {
      var front := d[..|d| - 1];
      var last := d[|d| - 1];
      var kept := Restrict(front, codes);
      RestrictIdempotent(front, codes);
      if last.code in codes {
        assert (kept + [last])[..|kept + [last]| - 1] == kept;
      }
    }
  }

  /** A label is kept exactly when its code is the code of some row of the session. */
  lemma UpdateEventIdsGet(events: seq<Event>, d: Dict, key: string, code: int)
    requires KeysDistinct(d)
    ensures Get(Restrict(d, ObservedCodes(events)), key) == Some(code)
            <==> Get(d, key) == Some(code) && exists i :: 0 <= i < |events| && events[i].code == code
  {
    RestrictGet(d, ObservedCodes(events), key);
    if exists i :: 0 <= i < |events| && events[i].code == code {
      var i :| 0 <= i < |events| && events[i].code == code;
      assert events[i] in events;
    }
  }
}
