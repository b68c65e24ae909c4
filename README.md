# Trigger relabelling for the LaCoBra EEG sessions

This project models, in Dafny, the event-code handling of `helper_functions.py` from the
LaCoBra-E24 analysis code. An EEG session arrives as an array of trigger rows
`(sample, previous, code)`. The raw codes are 10 for a prime word, 20 for a target word and
30 for a response. Three pieces are modelled:

- **The taxonomy** `event_id`: a 90-item dict from condition labels such as
  `word/prime/female/adult` or `response/correct/male/incongruent/m` to condition codes
  (module `Taxonomy`).
- **`update_events_group1_group2`** (module `Relabel`): walks the trigger rows. A cursor into
  the behavioural log moves on every prime. For each raw trigger it builds the label of its
  condition from the log row under the cursor, as lines 79-104 do (module `Labels`). It then
  overwrites the row's code with that label's code. The overwrite goes through the `tmp_event`
  alias, so it happens in place in the array, and the function returns the rewritten raw rows.
- **`update_event_ids`** (module `TriggerFilter`): keeps the items of a label dict whose code
  occurs in the session.

Supporting modules:

- `Dicts`: a Python dict as its list of items, in insertion order. `Get` is the lookup, and
  `None` stands for KeyError.
- `Paths`: labels as slash-joined segments, the fact that the joining is injective, and
  `Split`, Python's `str.split("/")`, which undoes it.
- `Events`: the trigger rows.

**Form of the model.**

- The relabeller's loop is a `method` over an `array<Event>`. It rewrites row `i` in place,
  as three ifs in sequence; each if tests the code the previous one left in the row.
- It is proved equal to the pure function `Scan`: one `Step` per row, over the per-row
  rewrite of lines 79-104.
- The properties are lemmas about `Scan`:
  - which rows change;
  - what is returned;
  - which log row each trigger reads;
  - when an exception is raised.
- The filter is a `method` with a loop, proved equal to the function `Restrict`.

**A worked example.** Take a session of one prime, one target and one response, with the log
row (female, adult, male, correct, m). Lines 88-89 build the target label
`word/target/male/incongruent`, and lines 100-101 build the response label
`response/correct/male/incongruent/m`, because both genders are female or male.
`Relabel.ExampleSession` proves that the session comes out as the codes 11, 112 and 212.

## Model

| member | source | states |
|---|---|---|
| Dicts.Get | helper_functions.py:79-104 | `event_id[key]` finds a code exactly when some item has the key, and that code belongs to an item with the key; otherwise it is a KeyError |
| Dicts.GetIff | helper_functions.py:114-210 | in a dict whose keys are distinct, a lookup gives `code` exactly when `(key, code)` is an item |
| Paths.PathInjective | helper_functions.py:114-210 | two labels joined from slash-free segments are equal only when their segments are equal |
| Taxonomy.EventIdKeysDistinct | helper_functions.py:114-210 | the 90 labels of `event_id` are pairwise distinct, so the literal loses no item |
| Taxonomy.EventIdCodesDistinct | helper_functions.py:114-210 | no two labels share a condition code |
| Taxonomy.EventIdAvoidsRawCodes | helper_functions.py:114-210 | no condition code is one of the raw codes 10, 20, 30 |
| Taxonomy.FamiliesWithin | helper_functions.py:114-210 | prime codes lie in 11-110, target codes in 111-144, incorrect responses in 161-199, correct responses in 211-249 |
| Taxonomy.ResponseCodesDisjoint | helper_functions.py:145-209 | the binary-gender and the other response blocks share no code, for both correct and incorrect |
| Taxonomy.InEventId | helper_functions.py:114-210 | a label is in `event_id` exactly when it is in one of its six blocks |
| TriggerFilter.UpdateEventIds | helper_functions.py:37-52 | the loop returns the items of `event_id` whose code occurs in the session, in item order |
| TriggerFilter.RestrictMembers | helper_functions.py:48-50 | an item is kept exactly when it is an item of the input and its code occurs in the session |
| TriggerFilter.RestrictShrinks | helper_functions.py:45-52 | the result has no more items than the input |
| TriggerFilter.RestrictKeysDistinct | helper_functions.py:45-52 | the result is again a dict: no key occurs twice |
| TriggerFilter.RestrictGet | helper_functions.py:45-52 | a lookup in the result finds what the input finds when that code is kept, and raises KeyError otherwise |
| TriggerFilter.RestrictIdempotent | helper_functions.py:37-52 | filtering the filtered dict with the same session changes nothing |
| TriggerFilter.UpdateEventIdsGet | helper_functions.py:42-50 | a label maps to `code` in the result exactly when it does in the input and some trigger row has that code |
| Labels.PrimeLabelPath | helper_functions.py:80-83 | the prime f-string is the slash-join of its segments |
| Labels.TargetLabelPath | helper_functions.py:86-92 | the target f-string is the slash-join of its segments |
| Labels.ResponseLabelPath | helper_functions.py:95-104 | the response f-string is the slash-join of its segments |
| Labels.PrimeLabelFound | helper_functions.py:80-83 | for every prime gender and age of the experiment, the prime label is in `event_id` |
| Labels.TargetLabelFound | helper_functions.py:86-92 | for every prime gender and target gender of the experiment, the target label is in `event_id` |
| Labels.ResponseLabelFound | helper_functions.py:94-104 | for every prime gender, target gender, correctness and response key of the experiment, the response label is in `event_id` |
| Labels.LabelsFound | helper_functions.py:79-104 | a log row of the experiment's values gives three labels that are all in `event_id` |
| Taxonomy.EventIdKeyShape | helper_functions.py:114-210 | every label of `event_id`, split at its slashes, is `word/prime/filler`, a prime of a gender and an age, a target of one of the four target genders, or a response of one of those genders with key m or z |
| Labels.PrimeLabelKnown | helper_functions.py:80-83 | whatever strings the log holds, a prime label found in `event_id` has a prime gender of the experiment, and an age of the experiment unless the prime is a filler |
| Labels.TargetLabelKnown | helper_functions.py:86-92 | whatever strings the log holds, a target label found in `event_id` has one of the four target genders |
| Labels.ResponseLabelKnown | helper_functions.py:94-104 | whatever strings the log holds, a response label found in `event_id` has one of the four target genders and the key m or z |
| Labels.LabelsFoundExactly | helper_functions.py:79-104 | a log row gives three labels that are all in `event_id` exactly when it holds the experiment's values |
| Labels.FillerTargetMissing | helper_functions.py:86-92 | the target label of a row whose target gender is "filler" is missing from `event_id`, whatever the other fields hold |
| Labels.FillerResponseMissing | helper_functions.py:94-104 | the response label of a row whose target gender is "filler" is missing from `event_id`, whatever the other fields hold |
| Labels.ResponseLabelTwoShapes | helper_functions.py:97-104 | the first and the last branch of lines 97-104 build the same label, so the label is the congruency form for two binary genders and the prime-gender form otherwise |
| Labels.FillerPrimeIgnoresAge | helper_functions.py:80-81 | a filler prime's label is `word/prime/filler`, whatever its age column holds |
| Labels.FillerPrimeCode | helper_functions.py:80-81 | a filler prime gets code 40 |
| Relabel.ILoc | helper_functions.py:67-75 | `logfile.iloc[i]` succeeds exactly for `-len <= i < len`, reads from the end for a negative `i`, and raises IndexError otherwise |
| Relabel.UpdateEventsGroup1Group2 | helper_functions.py:55-111 | after the call the events array holds the rows as `Scan` leaves them, and the result is `Scan`'s output or the exception it raises |
| Relabel.Visit | helper_functions.py:62-106 | one iteration moves the cursor on a prime, reads the log row, rewrites row `i` in place and hands back the row to keep, as one `Step` |
| Relabel.RewriteInPlace | helper_functions.py:79-104 | the three ifs leave the row's code and the raised exception as `RewriteRow` describes |
| Relabel.AssignInPlace | helper_functions.py:79-81 | one `if code == trigger: tmp_event[-1] = event_id[key]`, with the KeyError |
| Relabel.LoopStep | helper_functions.py:61-106 | one iteration keeps the loop invariant, or ends the function with the exception and the array as `Scan` leaves it |
| Relabel.ScanStops | helper_functions.py:61-106 | once an exception is raised, the later rows are untouched and nothing more is returned |
| Relabel.ScanShape | helper_functions.py:61-106 | one row per input row, with the same sample and previous value; rows whose code is not 10, 20 or 30 are unchanged |
| Relabel.ScanCounter | helper_functions.py:59-68 | without an exception the cursor ends at the number of primes minus one; there are no more primes than log rows; a session with a raw trigger has a non-empty log |
| Relabel.ScanOutput | helper_functions.py:61-106 | without an exception the result is exactly the rewritten rows at the positions of the raw triggers, in order, and their number is the number of raw triggers |
| Relabel.ScanReads | helper_functions.py:59-104 | the raw trigger at row `i` is rewritten from `iloc[k - 1]`, where `k` is the number of primes up to and including row `i`, so the k-th prime and the targets and responses after it, up to the next prime, read row `k - 1`; that rewrite raises nothing |
| Relabel.BeforeFirstPrime | helper_functions.py:59-75 | targets and responses before the first prime read the last row of the log and are rewritten in place; it needs only that no row up to and including it raises, whatever later rows do |
| Relabel.TooManyPrimes | helper_functions.py:65-75 | a session with more primes than log rows raises an exception |
| Relabel.RewriteOnce | helper_functions.py:79-104 | when no code of the dict is 20 or 30, a row is rewritten at most once: only the if matching its raw code fires |
| Relabel.RewriteRowCode | helper_functions.py:79-104 | a raw trigger row that the three ifs rewrite without an exception ends with a code of the dict, whatever codes the dict holds |
| Relabel.RewrittenCodesKnown | helper_functions.py:61-106 | after a pass that raises nothing, every raw trigger row of the array carries a code of the dict |
| Relabel.RewriteSucceeds | helper_functions.py:79-104 | with `event_id`, a raw trigger whose log row holds the experiment's values is rewritten without an exception |
| Relabel.FillerTargetRaises | helper_functions.py:85-92 | with `event_id`, a target trigger whose log row has target gender "filler" raises KeyError on its label and keeps code 20, whatever the other fields hold |
| Relabel.ScanSucceeds | helper_functions.py:55-111 | with `event_id` and a log of the experiment's values, no exception is raised exactly when there are at most as many primes as log rows and the log is non-empty if there is any raw trigger |
| Relabel.ExampleSession | helper_functions.py:55-111 | the session prime, target, response with the log row (female, adult, male, correct, m) gives the codes 11, 112 and 212 |

## Left out

- `preproc_subject` (lines 8-34): setting the montage, removing and interpolating bad
  channels, band-pass filtering, epoching and dropping bad epochs are calls into MNE, which
  is not part of this model.
- I/O and libraries: the log is taken as a list of rows already read. numpy and pandas
  become sequences: `np.unique` is a set, `logfile.iloc` is `ILoc`, and `np.array(updated_events)`
  is the returned sequence.
- The `type` column (line 72) is read but never used, so it is not modelled.
- Only the labelling convention this file implements is modelled. An alternative scheme for
  target and response labels has no code here.
- `correct` is an integer here. A pandas float `1.0` compares equal to 1 in Python too.
- Python dicts are hash tables. Here a dict is its list of items in insertion order, with a
  first-match lookup; every dict the code builds has distinct keys, so this agrees with Python.
- `Relabel.ScanReads`, `Relabel.ScanCounter`, `Relabel.ScanOutput`: stated for runs that raise
  nothing. After an exception, `Relabel.ScanStops` describes the array and the result.
- Every data item the labels read is a string; no Unicode normalisation or case folding is
  modelled.
